/** What KEF promises: the round trip, the reach of NUL recovery, and the seal/unseal pipeline. */
module KefProofs {
  import opened Bytes
  import opened Kef

  // ---------------------------------------------------------------- shared steps

  // A payload made of its three parts is taken apart into the same three parts.
  lemma DecryptSplits(c: Cipher, version: byte, iv: bytes, padded: bytes, auth: bytes)
    requires c.prim.Valid() && Known(version)
    requires var v := Versions(version);
             && |iv| == IvLength(v.mode) && |auth| == (if v.auth > 0 then v.auth else 0)
             && (!v.pad.NoPad? ==> padded != [] && |padded| % 16 == 0)
    ensures var v := Versions(version);
            var ct := c.prim.enc(c.key, v.mode, iv, padded);
            var verified := v.mode == GCM && auth == Slice(c.prim.gcmTag(c.key, iv, ct), 0, Abs(v.auth));
            c.Decrypt(iv + ct + auth, version) ==
            c.Inflated(v, c.Authenticated(version, iv, padded, auth, verified))
  {
    hide Cipher.Authenticated, Cipher.Inflated;
    var v := Versions(version);
    var ct := c.prim.enc(c.key, v.mode, iv, padded);
    var payload := iv + ct + auth;
    assert |ct| == |padded|;
    assert Slice(payload, 0, IvLength(v.mode)) == iv;
    assert payload[|iv|..] == ct + auth;
    if v.auth > 0 {
      assert Last(ct + auth, v.auth) == auth && DropLast(ct + auth, v.auth) == ct;
    } else {
      assert ct + auth == ct;
    }
    assert c.prim.dec(c.key, v.mode, iv, ct) == padded;
  }

  lemma TagLengths(c: Cipher, version: byte, iv: bytes, x: bytes, n: nat)
    requires c.prim.Valid() && n <= 32
    ensures |c.PublicTag(version, iv, x, n)| == n && |c.EmbeddedTag(x, n)| == n
  {
  }

  // When the unpadded data is the body itself, the first attempt succeeds.
  lemma FaithfulBody(c: Cipher, version: byte, iv: bytes, plain: bytes, padded: bytes, auth: bytes, verified: bool)
    requires c.prim.Valid() && Known(version)
    requires Unpad(padded, Versions(version).pad) == Some(c.Body(Versions(version), plain))
    requires Versions(version).mode == GCM ==> verified
    requires Versions(version).mode != GCM && Versions(version).auth > 0 ==> auth == c.PublicTag(version, iv, plain, Versions(version).auth)
    ensures c.Authenticated(version, iv, padded, auth, verified) == Some(plain)
  {
    hide Unpad;
    var v := Versions(version);
    if v.auth < 0 {
      TagLengths(c, version, iv, plain, -v.auth);
      assert Cipher.Cut(v, c.Body(v, plain), auth) == (plain, c.EmbeddedTag(plain, -v.auth));
    }
  }

  /**
   KEF round trip: for every version, key, IV and plaintext on which safe-mode encryption does
   not raise, decryption accepts the payload and returns exactly that plaintext.
   */
  lemma RoundTrip(c: Cipher, plaintext: bytes, version: byte, iv: bytes)
    requires c.prim.Valid()
    requires c.Encrypt(plaintext, version, iv, true).Ok?
    ensures c.Decrypt(c.Encrypt(plaintext, version, iv, true).value, version) == Ok(Some(plaintext))
  {
    hide Cipher.Decrypt, HasDuplicates, Pad, RStrip;
    PayloadDecrypts(c, plaintext, version, iv, true);
  }

  /**
   With the safety check off, nothing stops the eight versions without NUL padding, ECB with repeated blocks
   included, and they give back every plaintext.
   */
  lemma UnsafeRoundTrip(c: Cipher, plaintext: bytes, version: byte, iv: bytes)
    requires c.prim.Valid() && Known(version) && !Versions(version).pad.NulPad? && |iv| == IvLength(Versions(version).mode)
    ensures c.Encrypt(plaintext, version, iv, false).Ok?
    ensures c.Decrypt(c.Encrypt(plaintext, version, iv, false).value, version) == Ok(Some(plaintext))
  {
    hide Cipher.Decrypt, HasDuplicates, Pad, RStrip;
    PayloadDecrypts(c, plaintext, version, iv, false);
  }

  // What both modes share: a payload whose padding can be undone decrypts to the plaintext.
  lemma PayloadDecrypts(c: Cipher, plaintext: bytes, version: byte, iv: bytes, failUnsafe: bool)
    requires c.prim.Valid() && c.Encrypt(plaintext, version, iv, failUnsafe).Ok?
    requires failUnsafe || !Versions(version).pad.NulPad?
    ensures c.Decrypt(c.Encrypt(plaintext, version, iv, failUnsafe).value, version) == Ok(Some(plaintext))
  {
    hide Cipher.Authenticated, Cipher.Decrypt, HasDuplicates, Pad, Unpad, RStrip;
    var v := Versions(version);
    var plain := if v.compress then c.prim.deflate(plaintext) else plaintext;
    var body := c.Body(v, plain);
    var padded := Pad(body, v.pad);
    var ct := c.prim.enc(c.key, v.mode, iv, padded);
    var auth := if v.mode == GCM then Slice(c.prim.gcmTag(c.key, iv, ct), 0, Abs(v.auth))
    else if v.auth > 0 then c.PublicTag(version, iv, plain, v.auth) else [];
    assert Unpad(padded, v.pad) == Some(body) by {
      UnpadIsFaithful(c, plain, version);
    }
    assert v.pad.NulPad? ==> body != [];
    FaithfulBody(c, version, iv, plain, padded, auth, v.mode == GCM);
    DecryptSplits(c, version, iv, padded, auth);
  }

  lemma UnpadIsFaithful(c: Cipher, plain: bytes, version: byte)
    requires c.prim.Valid() && Known(version)
    requires Versions(version).pad.NulPad? ==>
               var body := c.Body(Versions(version), plain); body == [] || body[|body| - 1] != 0
    ensures var v := Versions(version);
            Unpad(Pad(c.Body(v, plain), v.pad), v.pad) == Some(c.Body(v, plain))
  {
    var v := Versions(version);
    UnpadOfPkcs(c.Body(v, plain));
    UnpadOfNul(c.Body(v, plain));
  }

  // ---------------------------------------------------------------- NUL recovery, public tags

  // Versions 5 and 10: NUL padding with the tag after the ciphertext.
  predicate PublicNul(version: int) { version == 5 || version == 10 }

  // The candidate the retry loop tries after i failures.
  function Regrown(stripped: bytes, i: nat): bytes { stripped + Nul(i) }

  // Retrying on a public tag finds the first candidate with the right hash.
  lemma {:induction false} RetryPublic(c: Cipher, version: byte, iv: bytes, stripped: bytes, i: nat, tag: bytes, attempts: nat)
    requires PublicNul(version)
    ensures var r := c.Retry(version, iv, Regrown(stripped, i), tag, attempts);
            && (r.Some? ==> exists j :: i <= j < i + attempts && r.value == Regrown(stripped, j) &&
                                        c.Expected(version, iv, Regrown(stripped, j)) == tag &&
                                        forall k | i <= k < j :: c.Expected(version, iv, Regrown(stripped, k)) != tag)
            && (r.None? ==> forall k | i <= k < i + attempts :: c.Expected(version, iv, Regrown(stripped, k)) != tag)
    decreases attempts
  {
    hide Cipher.Expected;
    if attempts > 0 && c.Expected(version, iv, Regrown(stripped, i)) != tag {
      assert Regrown(stripped, i) + [0] == Regrown(stripped, i + 1);
      RetryPublic(c, version, iv, stripped, i + 1, tag, attempts - 1);
    }
  }

  // No shorter candidate has the hash of the plaintext.
  ghost predicate NoEarlierCollision(c: Cipher, version: byte, iv: bytes, plain: bytes)
    requires PublicNul(version)
  {
    forall i | 0 <= i < TrailingNuls(plain) ::
      c.Expected(version, iv, Regrown(RStrip(plain), i)) != c.Expected(version, iv, plain)
  }

  /**
   Reach of NUL recovery with public tags.  With the safety check off, encryption succeeds, and decryption
   gives the plaintext back if and only if it is not empty, ends in at most auth + 1 NULs and no shorter
   candidate collides on the truncated hash.
   */
  lemma PublicNulRecovery(c: Cipher, plain: bytes, version: byte, iv: bytes)
    requires c.prim.Valid() && PublicNul(version)
    requires |iv| == IvLength(Versions(version).mode)
    ensures var payload := c.Encrypt(plain, version, iv, false);
            && payload.Ok?
            && (c.Decrypt(payload.value, version) == Ok(Some(plain)) <==>
                plain != [] && TrailingNuls(plain) <= Versions(version).auth + 1 && NoEarlierCollision(c, version, iv, plain))
  {
    hide Cipher.Decrypt, Cipher.Retry, RStrip;
    var v := Versions(version);
    var tag := c.PublicTag(version, iv, plain, v.auth);
    var padded := Pad(plain, NulPad);
    var stripped, k := RStrip(plain), TrailingNuls(plain);
    assert plain == Regrown(stripped, k);
    TagLengths(c, version, iv, plain, v.auth);
    if plain == [] {
      EmptyIsRefused(c, version, iv, tag);
      return;
    }
    DecryptSplits(c, version, iv, padded, tag);
    UnpadOfNul(plain);
    var attempts := Cipher.Attempts(v, |padded|, |stripped|);
    assert Regrown(stripped, 0) == stripped;
    RetryPublic(c, version, iv, stripped, 0, tag, attempts);
    var r := c.Retry(version, iv, stripped, tag, attempts);
    assert c.Authenticated(version, iv, padded, tag, false) == r;
    assert forall j | 0 <= j != k :: |Regrown(stripped, j)| != |plain|;
  }

  // Nothing to encrypt leaves no ciphertext, and decryption refuses the payload for its size.
  lemma EmptyIsRefused(c: Cipher, version: byte, iv: bytes, tag: bytes)
    requires c.prim.Valid() && PublicNul(version) && |iv| == IvLength(Versions(version).mode)
    requires tag == c.PublicTag(version, iv, [], Versions(version).auth) && |tag| == Versions(version).auth
    ensures c.Encrypt([], version, iv, false).Ok?
    ensures c.Decrypt(c.Encrypt([], version, iv, false).value, version) == Err(InvalidPayload)
  {
    assert Pad([], NulPad) == [];
    assert c.prim.enc(c.key, Versions(version).mode, iv, []) == [];
  }

  // ---------------------------------------------------------------- NUL recovery, embedded tags

  // Versions 0 and 1: NUL padding with a 16-byte tag inside the ciphertext.
  predicate EmbeddedNul(version: int) { version == 0 || version == 1 }

  // After i failures, candidate ++ tag is the unpadded data with i NULs given back.
  function CandidateAt(unpadded: bytes, i: nat): bytes { DropLast(unpadded + Nul(i), 16) }
  function TagAt(unpadded: bytes, i: nat): bytes { Last(unpadded + Nul(i), 16) }

  ghost predicate Matches(c: Cipher, unpadded: bytes, i: nat) {
    c.EmbeddedTag(CandidateAt(unpadded, i), 16) == TagAt(unpadded, i)
  }

  lemma RegrowEmbedded(version: byte, unpadded: bytes, i: nat)
    requires EmbeddedNul(version) && |unpadded| >= 16
    ensures Cipher.Regrow(Versions(version), CandidateAt(unpadded, i), TagAt(unpadded, i)) ==
            (CandidateAt(unpadded, i + 1), TagAt(unpadded, i + 1))
  {
    var s, s' := unpadded + Nul(i), unpadded + Nul(i + 1);
    assert s' == s + [0];
    assert TagAt(unpadded, i)[1..] + [0] == TagAt(unpadded, i + 1);
    assert CandidateAt(unpadded, i) + [TagAt(unpadded, i)[0]] == CandidateAt(unpadded, i + 1);
    assert Slice(TagAt(unpadded, i), 0, 1) == [TagAt(unpadded, i)[0]];
  }

  lemma {:induction false} RetryEmbedded(c: Cipher, version: byte, iv: bytes, unpadded: bytes, i: nat, attempts: nat)
    requires EmbeddedNul(version) && |unpadded| >= 16
    ensures var r := c.Retry(version, iv, CandidateAt(unpadded, i), TagAt(unpadded, i), attempts);
            && (r.Some? ==> exists j :: i <= j < i + attempts && r.value == CandidateAt(unpadded, j) &&
                                        Matches(c, unpadded, j) && forall k | i <= k < j :: !Matches(c, unpadded, k))
            && (r.None? ==> forall k | i <= k < i + attempts :: !Matches(c, unpadded, k))
    decreases attempts
  {
    hide CandidateAt, TagAt;
    if attempts > 0 && !Matches(c, unpadded, i) {
      RegrowEmbedded(version, unpadded, i);
      RetryEmbedded(c, version, iv, unpadded, i + 1, attempts - 1);
    }
  }

  // A tag cut short by the unpadding never matches: the expected tag has sixteen bytes.
  lemma {:induction false} RetryShortTag(c: Cipher, version: byte, iv: bytes, candidate: bytes, tag: bytes, attempts: nat)
    requires c.prim.Valid() && EmbeddedNul(version) && |tag| < 16
    ensures c.Retry(version, iv, candidate, tag, attempts) == None
    decreases attempts
  {
    if attempts > 0 {
      TagLengths(c, version, iv, candidate, 16);
      var (c1, t1) := Cipher.Regrow(Versions(version), candidate, tag);
      RetryShortTag(c, version, iv, c1, t1, attempts - 1);
    }
  }

  /**
   Reach of NUL recovery with embedded tags.  Let z be the number of NULs that end plaintext ++ tag.
   With the safety check off, decryption gives the plaintext back if and only if z is at most 17,
   the plaintext has at least z bytes, and no earlier split of the data is its own tag.
   */
  lemma EmbeddedNulRecovery(c: Cipher, plain: bytes, version: byte, iv: bytes)
    requires c.prim.Valid() && EmbeddedNul(version)
    requires |iv| == IvLength(Versions(version).mode)
    ensures var payload := c.Encrypt(plain, version, iv, false);
            var data := plain + c.EmbeddedTag(plain, 16);
            var z := TrailingNuls(data);
            && payload.Ok?
            && (c.Decrypt(payload.value, version) == Ok(Some(plain)) <==>
                z <= 17 && z <= |plain| && forall i | 0 <= i < z :: !Matches(c, RStrip(data), i))
  {
    hide Cipher.Decrypt, Cipher.Retry, RStrip;
    var v := Versions(version);
    var tag := c.EmbeddedTag(plain, 16);
    TagLengths(c, version, iv, plain, 16);
    var data := plain + tag;
    var padded := Pad(data, NulPad);
    DecryptSplits(c, version, iv, padded, []);
    var ct := c.prim.enc(c.key, v.mode, iv, padded);
    assert iv + ct + [] == iv + ct;
    EmbeddedLoop(c, version, iv, plain, padded);
  }

  // The search succeeds on the plaintext exactly when it reaches attempt z with nothing found before.
  lemma EmbeddedSearch(c: Cipher, version: byte, iv: bytes, plain: bytes, unpadded: bytes, z: nat, attempts: nat)
    requires c.prim.Valid() && EmbeddedNul(version) && |unpadded| >= 16
    requires unpadded + Nul(z) == plain + c.EmbeddedTag(plain, 16)
    ensures c.Retry(version, iv, CandidateAt(unpadded, 0), TagAt(unpadded, 0), attempts) == Some(plain) <==>
            z < attempts && forall i | 0 <= i < z :: !Matches(c, unpadded, i)
  {
    hide Cipher.Retry;
    TagLengths(c, version, iv, plain, 16);
    RetryEmbedded(c, version, iv, unpadded, 0, attempts);
    assert CandidateAt(unpadded, z) == plain;
    assert Matches(c, unpadded, z);
    assert forall j | 0 <= j :: |CandidateAt(unpadded, j)| == |plain| - z + j;
  }

  lemma EmbeddedLoop(c: Cipher, version: byte, iv: bytes, plain: bytes, padded: bytes)
    requires c.prim.Valid() && EmbeddedNul(version)
    requires padded == Pad(plain + c.EmbeddedTag(plain, 16), NulPad)
    ensures var data := plain + c.EmbeddedTag(plain, 16);
            var z := TrailingNuls(data);
            c.Authenticated(version, iv, padded, [], false) == Some(plain) <==>
            z <= 17 && z <= |plain| && forall i | 0 <= i < z :: !Matches(c, RStrip(data), i)
  {
    hide Cipher.Retry, Cipher.Authenticated, RStrip, Matches, Cipher.EmbeddedTag, Pad, CandidateAt, TagAt;
    TagLengths(c, version, iv, plain, 16);
    var data := plain + c.EmbeddedTag(plain, 16);
    var unpadded, z := RStrip(data), TrailingNuls(data);
    var attempts := EmbeddedAttempts(padded, data);
    UnpadOfNul(data);
    EmbeddedUnfolds(c, version, iv, padded, unpadded, attempts);
    if |plain| < z {
      RetryShortTag(c, version, iv, DropLast(unpadded, 16), Last(unpadded, 16), attempts);
    } else {
      FirstCandidate(unpadded);
      EmbeddedSearch(c, version, iv, plain, unpadded, z, attempts);
    }
  }

  // How often the loop tries on data with an embedded tag.
  function EmbeddedAttempts(padded: bytes, data: bytes): (n: nat)
    requires data <= padded
    ensures TrailingNuls(data) + 16 <= |data| ==> (TrailingNuls(data) < n <==> TrailingNuls(data) <= 17)
  {
    Min(|padded| - |DropLast(RStrip(data), 16)|, 17) + 1
  }

  lemma FirstCandidate(unpadded: bytes)
    ensures CandidateAt(unpadded, 0) == DropLast(unpadded, 16) && TagAt(unpadded, 0) == Last(unpadded, 16)
  {
    assert unpadded + Nul(0) == unpadded;
  }

  lemma EmbeddedVersion(version: int)
    requires EmbeddedNul(version)
    ensures Known(version)
    ensures var v := Versions(version); v.mode != GCM && v.pad == NulPad && v.auth == -16
  {
  }

  lemma EmbeddedUnfolds(c: Cipher, version: byte, iv: bytes, padded: bytes, unpadded: bytes, attempts: nat)
    requires EmbeddedNul(version) && Unpad(padded, NulPad) == Some(unpadded) && |unpadded| <= |padded|
    requires attempts == Min(|padded| - |DropLast(unpadded, 16)|, 17) + 1
    ensures c.Authenticated(version, iv, padded, [], false) ==
            c.Retry(version, iv, DropLast(unpadded, 16), Last(unpadded, 16), attempts)
  {
    EmbeddedVersion(version);
    hide *;
    EmbeddedCut(Versions(version), unpadded, padded);
    AuthenticatedUnfolds(c, version, iv, padded, unpadded);
  }

  lemma AuthenticatedUnfolds(c: Cipher, version: byte, iv: bytes, decrypted: bytes, unpadded: bytes)
    requires Known(version) && Versions(version).mode != GCM
    requires Unpad(decrypted, Versions(version).pad) == Some(unpadded)
    ensures var v := Versions(version);
            var (candidate, tag) := Cipher.Cut(v, unpadded, []);
            c.Authenticated(version, iv, decrypted, [], false) ==
            c.Retry(version, iv, candidate, tag, Cipher.Attempts(v, |decrypted|, |candidate|))
  {
    hide Known, Versions, Unpad, Cipher.Cut, Cipher.Attempts, Cipher.Retry;
  }

  lemma EmbeddedCut(v: Version, unpadded: bytes, padded: bytes)
    requires v.pad == NulPad && v.auth == -16 && |unpadded| <= |padded|
    ensures Cipher.Cut(v, unpadded, []) == (DropLast(unpadded, 16), Last(unpadded, 16))
    ensures Cipher.Attempts(v, |padded|, |DropLast(unpadded, 16)|) == Min(|padded| - |DropLast(unpadded, 16)|, 17) + 1
  {
  }

  // ---------------------------------------------------------------- the ECB check

  function Elements(xs: seq<bytes>): set<bytes> { set i | 0 <= i < |xs| :: xs[i] }

  ghost predicate Distinct(xs: seq<bytes>) { forall i, j | 0 <= i < j < |xs| :: xs[i] != xs[j] }

  lemma ElementsSnoc(xs: seq<bytes>, x: bytes)
    ensures Elements(xs + [x]) == Elements(xs) + {x}
  {
    var ys := xs + [x];
    assert ys[|xs|] == x && forall i | 0 <= i < |xs| :: ys[i] == xs[i];
  }

  lemma DistinctSnoc(xs: seq<bytes>, x: bytes)
    ensures Distinct(xs + [x]) <==> Distinct(xs) && x !in Elements(xs)
  {
    var ys := xs + [x];
    assert ys[|xs|] == x && forall i | 0 <= i < |xs| :: ys[i] == xs[i];
    if Distinct(ys) {
      assert forall i, j | 0 <= i < j < |xs| :: ys[i] != ys[j];
    }
  }

  lemma {:induction false} CountingElements(xs: seq<bytes>)
    ensures |Elements(xs)| <= |xs|
    ensures |Elements(xs)| == |xs| <==> Distinct(xs)
  {
    if xs != [] {
      var t, x := xs[..|xs| - 1], xs[|xs| - 1];
      assert xs == t + [x];
      CountingElements(t);
      ElementsSnoc(t, x);
      DistinctSnoc(t, x);
      if x in Elements(t) {
        assert Elements(t) + {x} == Elements(t);
      }
    }
  }

  function Blocks(s: bytes): (r: seq<bytes>)
    requires |s| % 16 == 0
    ensures |r| == |s| / 16
  {
    seq(|s| / 16, i requires 0 <= i < |s| / 16 => Block(s, 16 * i))
  }

  /** Counting unique blocks finds a duplicate exactly when two blocks of the padded data are equal. */
  lemma DuplicatesMeanRepeats(s: bytes)
    requires |s| % 16 == 0
    ensures HasDuplicates(s) <==> !Distinct(Blocks(s))
  {
    CountingElements(Blocks(s));
    hide Block;
    assert BlockSet(s) == Elements(Blocks(s)) by {
      forall x | 0 <= x < |s| && x % 16 == 0
        ensures Block(s, x) in Elements(Blocks(s))
      {
        assert Blocks(s)[x / 16] == Block(s, x);
      }
      forall b | b in Elements(Blocks(s))
        ensures b in BlockSet(s)
      {
        var i :| 0 <= i < |s| / 16 && Blocks(s)[i] == b;
        assert 0 <= 16 * i < |s| && (16 * i) % 16 == 0 && Block(s, 16 * i) == b;
      }
    }
  }

  // ---------------------------------------------------------------- the laws are consistent

  // The trivial primitives: no encryption, no compression, constant hashes.
  const TRIVIAL := Primitives(
                     (k: bytes, m: Mode, iv: bytes, p: bytes) => p,
                     (k: bytes, m: Mode, iv: bytes, p: bytes) => p,
                     (k: bytes, iv: bytes, p: bytes) => Nul(16),
                     (x: bytes) => Nul(32),
                     (x: bytes) => [1] + x,
                     (x: bytes) => if x == [] then None else Some(x[1..]))

  lemma PrimitivesExist()
    ensures TRIVIAL.Valid()
  {
    forall x: bytes
      ensures TRIVIAL.inflate(TRIVIAL.deflate(x)) == Some(x)
    {
      assert ([1] + x)[1..] == x;
    }
  }
}
