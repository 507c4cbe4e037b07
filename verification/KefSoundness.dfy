/**
 What KEF accepts and how it lays it out (src/krux/kef.py:147-506): decryption determined on every byte string,
 encryption's refusals, the fields of an envelope and the meaning of a suggestion, stated with the hash, the tag, the block
 cipher and numbers alone.
 */
module KefSoundness {
  import opened Bytes
  import opened Kef
  import opened KefProofs
  import opened KefEnvelope

  // ---------------------------------------------------------------- the format, version by version

  function ModeOf(version: int): Mode {
    if version == 0 || version == 5 || version == 6 || version == 7 then ECB
    else if version == 1 || version == 10 || version == 11 || version == 12 then CBC
    else if version == 15 || version == 16 then CTR
    else GCM
  }

  predicate Compresses(version: int) { version == 7 || version == 12 || version == 16 || version == 21 }

  // Bytes of the tag after the ciphertext.
  function TagLength(version: int): nat {
    if version == 5 then 3 else if version == 10 || version == 20 || version == 21 then 4 else 0
  }

  function IvBytes(version: int): nat {
    match ModeOf(version)
    case ECB => 0
    case CBC => 16
    case CTR => 12
    case GCM => 12
  }

  // The size a payload must exceed.
  function LeastSize(version: int): nat {
    if version == 0 then 0
    else if version == 1 || version == 5 then 16
    else if version == 6 || version == 7 then 12
    else if version == 10 then 32
    else if version == 11 || version == 12 then 28
    else if version == 15 || version == 16 then 9
    else 13
  }

  /**
   p is what a payload was made from: the tag is the one its version prescribes for p.  In versions 20 and 21 that is
   the GCM tag; in 5 and 10 the keyed hash of version, IV and p, where p is the data with up to all its trailing NULs
   stripped; in the others the hash of p that follows it in the data, before the padding.
   */
  ghost predicate Authentic(c: Cipher, version: byte, iv: bytes, ct: bytes, tag: bytes, p: bytes) {
    var data := c.prim.dec(c.key, ModeOf(version), iv, ct);
    if version == 20 || version == 21 then
      tag == Slice(c.prim.gcmTag(c.key, iv, ct), 0, 4) && p == data
    else if version == 5 || version == 10 then
      && tag == Slice(c.prim.sha([version] + iv + p + c.key), 0, TagLength(version))
      && exists i: nat :: i <= TagLength(version) + 1 && p == RStrip(data) + Nul(i) && |p| <= |data|
    else if version == 0 || version == 1 then
      && |RStrip(data)| >= 16
      && exists i: nat :: i <= 17 && i <= TrailingNuls(data) + 16 && p + Slice(c.prim.sha(p), 0, 16) == RStrip(data) + Nul(i)
    else if version == 15 || version == 16 then
      data == p + Slice(c.prim.sha(p), 0, 4)
    else
      && data != [] && 0 < data[|data| - 1] <= |data|
      && data[..|data| - data[|data| - 1]] == p + Slice(c.prim.sha(p), 0, 4)
  }

  // The shortest one, if there is any.
  ghost predicate Picks(c: Cipher, version: byte, iv: bytes, ct: bytes, tag: bytes, r: Option<bytes>) {
    match r
    case None => forall p :: !Authentic(c, version, iv, ct, tag, p)
    case Some(p) =>
      && Authentic(c, version, iv, ct, tag, p)
      && forall q | Authentic(c, version, iv, ct, tag, q) :: q == p || |p| < |q|
  }

  // ---------------------------------------------------------------- authentication, by kind of version

  lemma Gcm(c: Cipher, version: byte, iv: bytes, ct: bytes, tag: bytes)
    requires version == 20 || version == 21
    ensures var data := c.prim.dec(c.key, GCM, iv, ct);
            Picks(c, version, iv, ct, tag,
                  c.Authenticated(version, iv, data, tag, tag == Slice(c.prim.gcmTag(c.key, iv, ct), 0, 4)))
  {
  }

  lemma OneAttempt(c: Cipher, version: byte, iv: bytes, data: bytes, unpadded: bytes)
    requires c.prim.Valid() && Known(version)
    requires Versions(version).mode != GCM && !Versions(version).pad.NulPad? && Versions(version).auth == -4
    requires Unpad(data, Versions(version).pad) == Some(unpadded)
    ensures var r := c.Authenticated(version, iv, data, [], false);
            && (r.None? ==> forall p :: unpadded != p + Slice(c.prim.sha(p), 0, 4))
            && (r.Some? ==> |unpadded| >= 4 && forall p :: p == r.value <==> unpadded == p + Slice(c.prim.sha(p), 0, 4))
  {
    hide Versions, Unpad, Known;
    var p0, tag := DropLast(unpadded, 4), Last(unpadded, 4);
    AuthenticatedUnfolds(c, version, iv, data, unpadded);
    assert c.Authenticated(version, iv, data, [], false) ==
           if Slice(c.prim.sha(p0), 0, 4) == tag then Some(p0) else None;
    forall p
      ensures unpadded == p + Slice(c.prim.sha(p), 0, 4) <==> p == p0 && Slice(c.prim.sha(p0), 0, 4) == tag
    {
      if unpadded == p + Slice(c.prim.sha(p), 0, 4) {
        assert p == unpadded[..|unpadded| - 4] && Last(unpadded, 4) == Slice(c.prim.sha(p), 0, 4);
      }
    }
  }

  lemma Ctr(c: Cipher, version: byte, iv: bytes, ct: bytes)
    requires c.prim.Valid() && (version == 15 || version == 16)
    ensures var data := c.prim.dec(c.key, CTR, iv, ct);
            Picks(c, version, iv, ct, [], c.Authenticated(version, iv, data, [], false))
  {
    hide Cipher.Authenticated;
    var data := c.prim.dec(c.key, CTR, iv, ct);
    OneAttempt(c, version, iv, data, data);
  }

  lemma Pkcs(c: Cipher, version: byte, iv: bytes, ct: bytes)
    requires c.prim.Valid() && (version == 6 || version == 7 || version == 11 || version == 12)
    ensures var data := c.prim.dec(c.key, ModeOf(version), iv, ct);
            Picks(c, version, iv, ct, [], c.Authenticated(version, iv, data, [], false))
  {
    hide Cipher.Authenticated, Unpad, Versions, ModeOf;
    var data := c.prim.dec(c.key, ModeOf(version), iv, ct);
    PkcsTable(version);
    if data == [] {
      NothingToUnpad(c, version, iv);
    } else {
      var unpadded := Stripped(data);
      PkcsUnpad(data);
      OneAttempt(c, version, iv, data, unpadded);
      hide Authentic;
      forall p
        ensures Authentic(c, version, iv, ct, [], p) <==> unpadded == p + Slice(c.prim.sha(p), 0, 4)
      {
        PkcsAuthentic(c, version, iv, ct, p);
      }
    }
  }

  // PKCS padding taken off, as far as there is data.
  function Stripped(data: bytes): bytes
    requires data != []
  {
    var n := data[|data| - 1];
    if n == 0 then [] else DropLast(data, n)
  }

  lemma PkcsTable(version: int)
    requires version == 6 || version == 7 || version == 11 || version == 12
    ensures var v := Versions(version); v.mode != GCM && v.pad == PkcsPad && v.auth == -4
  {
  }

  lemma PkcsAuthentic(c: Cipher, version: byte, iv: bytes, ct: bytes, p: bytes)
    requires c.prim.Valid() && (version == 6 || version == 7 || version == 11 || version == 12)
    requires c.prim.dec(c.key, ModeOf(version), iv, ct) != []
    ensures Authentic(c, version, iv, ct, [], p) <==>
            Stripped(c.prim.dec(c.key, ModeOf(version), iv, ct)) == p + Slice(c.prim.sha(p), 0, 4)
  {
    hide ModeOf, Stripped, Slice;
    TagIsLong(c, p);
    StrippedIs(c.prim.dec(c.key, ModeOf(version), iv, ct), p + Slice(c.prim.sha(p), 0, 4));
  }

  lemma TagIsLong(c: Cipher, p: bytes)
    requires c.prim.Valid()
    ensures |Slice(c.prim.sha(p), 0, 4)| == 4
  {
  }

  lemma StrippedIs(data: bytes, t: bytes)
    requires data != [] && t != []
    ensures Stripped(data) == t <==> 0 < data[|data| - 1] <= |data| && data[..|data| - data[|data| - 1]] == t
  {
  }

  lemma PkcsUnpad(data: bytes)
    requires data != []
    ensures Unpad(data, PkcsPad) == Some(Stripped(data))
  {
  }

  lemma NothingToUnpad(c: Cipher, version: byte, iv: bytes)
    requires Known(version) && Versions(version).pad.PkcsPad?
    ensures c.Authenticated(version, iv, [], [], false) == None
  {
  }

  // The candidates of the retry loop, and those among them whose tag is right.
  ghost predicate PublicCandidate(c: Cipher, version: byte, iv: bytes, data: bytes, tag: bytes, p: bytes, i: nat)
    requires version == 5 || version == 10
  {
    p == Regrown(RStrip(data), i) && c.Expected(version, iv, p) == tag
  }

  function PublicAttempts(version: int, data: bytes): nat { Min(TrailingNuls(data), TagLength(version) + 1) + 1 }

  lemma PublicAuthentic(c: Cipher, version: byte, iv: bytes, ct: bytes, tag: bytes, p: bytes)
    requires version == 5 || version == 10
    ensures var data := c.prim.dec(c.key, ModeOf(version), iv, ct);
            Authentic(c, version, iv, ct, tag, p) <==>
            exists i: nat :: i < PublicAttempts(version, data) && PublicCandidate(c, version, iv, data, tag, p, i)
  {
    hide RStrip;
    var data := c.prim.dec(c.key, ModeOf(version), iv, ct);
    if Authentic(c, version, iv, ct, tag, p) {
      var i: nat :| i <= TagLength(version) + 1 && p == RStrip(data) + Nul(i) && |p| <= |data|;
      assert i < PublicAttempts(version, data) && PublicCandidate(c, version, iv, data, tag, p, i);
    }
    if exists i: nat :: i < PublicAttempts(version, data) && PublicCandidate(c, version, iv, data, tag, p, i) {
      var i: nat :| i < PublicAttempts(version, data) && PublicCandidate(c, version, iv, data, tag, p, i);
      assert p == RStrip(data) + Nul(i) && |p| <= |data|;
    }
  }

  lemma PublicTags(c: Cipher, version: byte, iv: bytes, ct: bytes, tag: bytes)
    requires c.prim.Valid() && (version == 5 || version == 10)
    ensures var data := c.prim.dec(c.key, ModeOf(version), iv, ct);
            Picks(c, version, iv, ct, tag, c.Authenticated(version, iv, data, tag, false))
  {
    hide Cipher.Retry, Cipher.Authenticated, Cipher.Expected, RStrip, Authentic, PublicAttempts;
    var data := c.prim.dec(c.key, ModeOf(version), iv, ct);
    var stripped, attempts := RStrip(data), PublicAttempts(version, data);
    PublicUnfolds(c, version, iv, data, tag);
    assert Regrown(stripped, 0) == stripped;
    RetryPublic(c, version, iv, stripped, 0, tag, attempts);
    var r := c.Authenticated(version, iv, data, tag, false);
    if r.Some? {
      PublicAuthentic(c, version, iv, ct, tag, r.value);
      var j: nat :| j < attempts && r.value == Regrown(stripped, j) && c.Expected(version, iv, Regrown(stripped, j)) == tag &&
                    forall k | 0 <= k < j :: c.Expected(version, iv, Regrown(stripped, k)) != tag;
      assert PublicCandidate(c, version, iv, data, tag, r.value, j);
      forall q | Authentic(c, version, iv, ct, tag, q)
        ensures q == r.value || |r.value| < |q|
      {
        PublicAuthentic(c, version, iv, ct, tag, q);
        var i: nat :| i < attempts && PublicCandidate(c, version, iv, data, tag, q, i);
        assert i >= j;
      }
    } else {
      forall q
        ensures !Authentic(c, version, iv, ct, tag, q)
      {
        PublicAuthentic(c, version, iv, ct, tag, q);
        assert forall i: nat | i < attempts :: c.Expected(version, iv, Regrown(stripped, i)) != tag;
      }
    }
  }

  lemma PublicUnfolds(c: Cipher, version: byte, iv: bytes, data: bytes, tag: bytes)
    requires version == 5 || version == 10
    ensures c.Authenticated(version, iv, data, tag, false) ==
            c.Retry(version, iv, RStrip(data), tag, PublicAttempts(version, data))
  {
    hide Cipher.Retry, RStrip;
  }

  ghost predicate EmbeddedCandidate(c: Cipher, data: bytes, p: bytes, i: nat) {
    p == CandidateAt(RStrip(data), i) && Matches(c, RStrip(data), i)
  }

  function MostAttempts(data: bytes): nat { Min(|data| - |DropLast(RStrip(data), 16)|, 17) + 1 }

  lemma EmbeddedAuthentic(c: Cipher, version: byte, iv: bytes, ct: bytes, p: bytes)
    requires c.prim.Valid() && (version == 0 || version == 1)
    ensures var data := c.prim.dec(c.key, ModeOf(version), iv, ct);
            |RStrip(data)| >= 16 ==>
              (Authentic(c, version, iv, ct, [], p) <==> exists i: nat :: i < MostAttempts(data) && EmbeddedCandidate(c, data, p, i))
  {
    hide RStrip, Matches, CandidateAt;
    var data := c.prim.dec(c.key, ModeOf(version), iv, ct);
    var unpadded := RStrip(data);
    if |unpadded| >= 16 {
      if Authentic(c, version, iv, ct, [], p) {
        var i: nat :| i <= 17 && i <= TrailingNuls(data) + 16 && p + Slice(c.prim.sha(p), 0, 16) == RStrip(data) + Nul(i);
        CutAfter(c, unpadded, i, p);
        assert i < MostAttempts(data) && EmbeddedCandidate(c, data, p, i);
      }
      if exists i: nat :: i < MostAttempts(data) && EmbeddedCandidate(c, data, p, i) {
        var i: nat :| i < MostAttempts(data) && EmbeddedCandidate(c, data, p, i);
        CutAfter(c, unpadded, i, p);
        assert i <= 17 && i <= TrailingNuls(data) + 16;
      }
    }
  }

  lemma EmbeddedTags(c: Cipher, version: byte, iv: bytes, ct: bytes)
    requires c.prim.Valid() && (version == 0 || version == 1)
    ensures var data := c.prim.dec(c.key, ModeOf(version), iv, ct);
            Picks(c, version, iv, ct, [], c.Authenticated(version, iv, data, [], false))
  {
    var data := c.prim.dec(c.key, ModeOf(version), iv, ct);
    if |RStrip(data)| < 16 {
      EmbeddedShort(c, version, iv, data);
      hide RStrip, Cipher.Authenticated;
    } else {
      EmbeddedLong(c, version, iv, ct);
    }
  }

  lemma EmbeddedRetries(c: Cipher, version: byte, iv: bytes, data: bytes)
    requires version == 0 || version == 1
    ensures c.Authenticated(version, iv, data, [], false) ==
            c.Retry(version, iv, DropLast(RStrip(data), 16), Last(RStrip(data), 16), MostAttempts(data))
  {
    hide Cipher.Retry, Cipher.Authenticated, RStrip, Unpad;
    StrippedIsUnpadded(data);
    EmbeddedUnfolds(c, version, iv, data, RStrip(data), MostAttempts(data));
  }

  lemma EmbeddedShort(c: Cipher, version: byte, iv: bytes, data: bytes)
    requires c.prim.Valid() && (version == 0 || version == 1) && |RStrip(data)| < 16
    ensures c.Authenticated(version, iv, data, [], false) == None
  {
    hide Cipher.Retry, Cipher.Authenticated, RStrip;
    EmbeddedRetries(c, version, iv, data);
    RetryShortTag(c, version, iv, DropLast(RStrip(data), 16), Last(RStrip(data), 16), MostAttempts(data));
  }

  lemma EmbeddedLong(c: Cipher, version: byte, iv: bytes, ct: bytes)
    requires c.prim.Valid() && (version == 0 || version == 1)
    requires |RStrip(c.prim.dec(c.key, ModeOf(version), iv, ct))| >= 16
    ensures var data := c.prim.dec(c.key, ModeOf(version), iv, ct);
            Picks(c, version, iv, ct, [], c.Authenticated(version, iv, data, [], false))
  {
    hide Cipher.Retry, Cipher.Authenticated, RStrip, Authentic, MostAttempts, Matches, CandidateAt, TagAt;
    var data := c.prim.dec(c.key, ModeOf(version), iv, ct);
    var unpadded, attempts := RStrip(data), MostAttempts(data);
    EmbeddedRetries(c, version, iv, data);
    FirstCandidate(unpadded);
    RetryEmbedded(c, version, iv, unpadded, 0, attempts);
    var r := c.Authenticated(version, iv, data, [], false);
    if r.Some? {
      EmbeddedAuthentic(c, version, iv, ct, r.value);
      var j: nat :| j < attempts && r.value == CandidateAt(unpadded, j) && Matches(c, unpadded, j) &&
                    forall k | 0 <= k < j :: !Matches(c, unpadded, k);
      assert EmbeddedCandidate(c, data, r.value, j);
      forall q | Authentic(c, version, iv, ct, [], q)
        ensures q == r.value || |r.value| < |q|
      {
        EmbeddedAuthentic(c, version, iv, ct, q);
        var i: nat :| i < attempts && EmbeddedCandidate(c, data, q, i);
        assert i >= j;
        CandidateLengths(unpadded, j, i);
      }
    } else {
      forall q
        ensures !Authentic(c, version, iv, ct, [], q)
      {
        EmbeddedAuthentic(c, version, iv, ct, q);
        assert forall i: nat | i < attempts :: !Matches(c, unpadded, i);
      }
    }
  }

  lemma CandidateLengths(unpadded: bytes, j: nat, i: nat)
    requires |unpadded| >= 16 && j <= i
    ensures j < i ==> |CandidateAt(unpadded, j)| < |CandidateAt(unpadded, i)|
  {
  }

  lemma StrippedIsUnpadded(data: bytes)
    ensures Unpad(data, NulPad) == Some(RStrip(data))
  {
  }

  lemma CutAfter(c: Cipher, unpadded: bytes, i: nat, p: bytes)
    requires c.prim.Valid() && |unpadded| >= 16
    ensures p + Slice(c.prim.sha(p), 0, 16) == unpadded + Nul(i) <==> p == CandidateAt(unpadded, i) && Matches(c, unpadded, i)
  {
    var s := unpadded + Nul(i);
    var t := Slice(c.prim.sha(p), 0, 16);
    assert |t| == 16;
    if p + t == s {
      assert DropLast(s, 16) == p && Last(s, 16) == t;
    }
  }

  // ---------------------------------------------------------------- encryption

  // What is compressed, tagged and padded before encryption.
  function Packed(c: Cipher, version: int, p: bytes): bytes { if Compresses(version) then c.prim.deflate(p) else p }

  function NulFilled(s: bytes): bytes { s + Nul((16 - |s| % 16) % 16) }

  function PkcsFilled(s: bytes): bytes { s + Repeat<byte>(16 - |s| % 16, 16 - |s| % 16) }

  function Padded(c: Cipher, version: int, x: bytes): bytes {
    if version == 0 || version == 1 then NulFilled(x + Slice(c.prim.sha(x), 0, 16))
    else if version == 5 || version == 10 then NulFilled(x)
    else if version == 15 || version == 16 then x + Slice(c.prim.sha(x), 0, 4)
    else if version == 20 || version == 21 then x
    else PkcsFilled(x + Slice(c.prim.sha(x), 0, 4))
  }

  function FinalTag(c: Cipher, version: byte, iv: bytes, ct: bytes, x: bytes): bytes {
    if version == 20 || version == 21 then Slice(c.prim.gcmTag(c.key, iv, ct), 0, 4)
    else if version == 5 || version == 10 then Slice(c.prim.sha([version] + iv + x + c.key), 0, TagLength(version))
    else []
  }

  // What the safety check refuses.
  ghost predicate IsUnsafe(c: Cipher, version: int, x: bytes)
    requires c.prim.Valid()
  {
    || ((version == 5 || version == 10) && (x == [] || x[|x| - 1] == 0))
    || ((version == 0 || version == 1) && c.prim.sha(x)[15] == 0)
    || (ModeOf(version) == ECB && |Padded(c, version, x)| % 16 == 0 && !Distinct(Blocks(Padded(c, version, x))))
  }

  lemma PaddedIs(c: Cipher, version: int, x: bytes)
    requires Known(version)
    ensures Pad(c.Body(Versions(version), x), Versions(version).pad) == Padded(c, version, x)
    ensures ModeOf(version) == ECB ==> |Padded(c, version, x)| % 16 == 0
  {
  }

  lemma LastOfTag(c: Cipher, x: bytes)
    requires c.prim.Valid()
    ensures EndsInNul(c.EmbeddedTag(x, 16)) <==> c.prim.sha(x)[15] == 0
  {
  }

  lemma PadTable(version: int)
    requires Known(version)
    ensures var v := Versions(version);
            && (v.pad.NulPad? && v.auth > 0 <==> version == 5 || version == 10)
            && (v.pad.NulPad? && v.auth < 0 <==> version == 0 || version == 1)
            && (v.pad.NulPad? && v.auth < 0 ==> v.auth == -16)
            && (v.pad.NulPad? ==> v.auth != 0)
  {
  }

  /**
   Encryption on every input: it succeeds exactly when the IV has the length its mode wants and, in safe mode, none
   of the three refusals applies; and then gives IV, ciphertext and tag.
   */
  lemma EncryptIsExact(c: Cipher, p: bytes, version: byte, iv: bytes, failUnsafe: bool)
    requires c.prim.Valid() && Known(version)
    ensures var x := Packed(c, version, p);
            var r := c.Encrypt(p, version, iv, failUnsafe);
            var ct := c.prim.enc(c.key, ModeOf(version), iv, Padded(c, version, x));
            && (r.Ok? <==> |iv| == IvBytes(version) && (failUnsafe ==> !IsUnsafe(c, version, x)))
            && (r.Ok? ==> r.value == iv + ct + FinalTag(c, version, iv, ct, x))
  {
    TableFacts(version);
    PadTable(version);
    GcmTagLength(version);
    var x := Packed(c, version, p);
    var padded := Padded(c, version, x);
    PaddedIs(c, version, x);
    LastOfTag(c, x);
    if ModeOf(version) == ECB {
      DuplicatesMeanRepeats(padded);
    }
    hide Versions, Pad, Padded, HasDuplicates, Distinct, Blocks, Cipher.Body, ModeOf, IvBytes, EndsInNul, Cipher.EmbeddedTag, Known;
  }

  /** Which error: the checks come in the source's order, NULs and tags first, then blocks, then the IV. */
  lemma EncryptErrors(c: Cipher, p: bytes, version: byte, iv: bytes, failUnsafe: bool)
    requires c.prim.Valid() && Known(version)
    ensures var x := Packed(c, version, p);
            var r := c.Encrypt(p, version, iv, failUnsafe);
            if failUnsafe && (version == 5 || version == 10) && x == [] then r == Err(IndexError)
            else if failUnsafe && (version == 5 || version == 10) && x[|x| - 1] == 0 then r == Err(CannotValidate)
            else if failUnsafe && (version == 0 || version == 1) && c.prim.sha(x)[15] == 0 then r == Err(CannotValidate)
            else if failUnsafe && IsUnsafe(c, version, x) then r == Err(DuplicateBlocks)
            else if |iv| != IvBytes(version) then r == Err(if IvBytes(version) == 0 then IvNotRequired else WrongIvLength)
            else r.Ok?
  {
    TableFacts(version);
    PadTable(version);
    var x := Packed(c, version, p);
    PaddedIs(c, version, x);
    LastOfTag(c, x);
    if ModeOf(version) == ECB {
      DuplicatesMeanRepeats(Padded(c, version, x));
    }
    hide Versions, Pad, Padded, HasDuplicates, Distinct, Blocks, Cipher.Body, ModeOf, IvBytes, EndsInNul, Cipher.EmbeddedTag, Known;
  }

  // ---------------------------------------------------------------- decryption on every byte string

  lemma TableFacts(version: int)
    requires Known(version)
    ensures var v := Versions(version);
            && v.mode == ModeOf(version) && IvLength(v.mode) == IvBytes(version) && v.compress == Compresses(version)
            && (if v.auth > 0 then v.auth else 0) == TagLength(version)
            && (v.mode == GCM <==> version == 20 || version == 21)
            && (if v.mode == CTR || v.mode == GCM then 1 else 16) + Min(0, v.auth) + IvLength(v.mode) == LeastSize(version)
  {
  }

  function IvPart(version: int, payload: bytes): bytes { Slice(payload, 0, IvBytes(version)) }

  function TagPart(version: int, payload: bytes): bytes {
    Last(payload[|IvPart(version, payload)|..], TagLength(version))
  }

  function CipherPart(version: int, payload: bytes): bytes {
    DropLast(payload[|IvPart(version, payload)|..], TagLength(version))
  }

  // A payload the block cipher can work on.
  predicate WellSized(version: int, payload: bytes) {
    && |payload| > LeastSize(version) && |payload| >= IvBytes(version)
    && (ModeOf(version) == ECB || ModeOf(version) == CBC ==> |CipherPart(version, payload)| % 16 == 0)
  }

  // What an accepted plaintext is turned into; empty bytes are not inflated.
  function Opened(c: Cipher, version: int, p: bytes): Result<Option<bytes>> {
    if !Compresses(version) || p == [] then Ok(Some(p))
    else match c.prim.inflate(p) case None => Err(DecompressError) case Some(x) => Ok(Some(x))
  }

  lemma DecryptUnfolds(c: Cipher, version: byte, payload: bytes)
    requires Known(version)
    ensures |payload| <= LeastSize(version) ==> c.Decrypt(payload, version) == Err(InvalidPayload)
    ensures |payload| > LeastSize(version) && !WellSized(version, payload) ==> c.Decrypt(payload, version) == Err(AesError)
    ensures WellSized(version, payload) ==>
              var iv, ct, tag := IvPart(version, payload), CipherPart(version, payload), TagPart(version, payload);
              c.Decrypt(payload, version) ==
              c.Inflated(Versions(version),
                         c.Authenticated(version, iv, c.prim.dec(c.key, ModeOf(version), iv, ct), tag,
                                         ModeOf(version) == GCM && tag == Slice(c.prim.gcmTag(c.key, iv, ct), 0, 4)))
  {
    hide Cipher.Authenticated, Cipher.Inflated, Known;
    TableFacts(version);
    var v := Versions(version);
    hide Versions, ModeOf, IvBytes, TagLength, LeastSize;
    assert payload[|payload|..] == [];
    if v.auth <= 0 {
      NoTag(payload[|IvPart(version, payload)|..]);
    }
    assert v.mode == GCM ==> Abs(v.auth) == 4 by { GcmTagLength(version); }
  }

  lemma NoTag(s: bytes)
    ensures Last(s, 0) == [] && DropLast(s, 0) == s
  {
  }

  lemma GcmTagLength(version: int)
    requires Known(version)
    ensures Versions(version).mode == GCM ==> Abs(Versions(version).auth) == 4
  {
  }

  lemma PicksAuthentic(c: Cipher, version: byte, iv: bytes, ct: bytes, tag: bytes)
    requires c.prim.Valid() && Known(version) && (TagLength(version) == 0 ==> tag == [])
    ensures Picks(c, version, iv, ct, tag,
                  c.Authenticated(version, iv, c.prim.dec(c.key, ModeOf(version), iv, ct), tag,
                                  ModeOf(version) == GCM && tag == Slice(c.prim.gcmTag(c.key, iv, ct), 0, 4)))
  {
    hide Cipher.Authenticated, Picks, Versions;
    if version == 20 || version == 21 {
      Gcm(c, version, iv, ct, tag);
    } else if version == 15 || version == 16 {
      Ctr(c, version, iv, ct);
    } else if version == 5 || version == 10 {
      PublicTags(c, version, iv, ct, tag);
    } else if version == 0 || version == 1 {
      EmbeddedTags(c, version, iv, ct);
    } else {
      Pkcs(c, version, iv, ct);
    }
  }

  /**
   Decryption of every byte string under every version.  A payload of a wrong size raises.  Any other is refused with
   None exactly when no plaintext is authentic for it, and otherwise opens to the shortest one that is.
   */
  lemma DecryptIsExact(c: Cipher, version: byte, payload: bytes)
    requires c.prim.Valid() && Known(version)
    ensures |payload| <= LeastSize(version) ==> c.Decrypt(payload, version) == Err(InvalidPayload)
    ensures |payload| > LeastSize(version) && !WellSized(version, payload) ==> c.Decrypt(payload, version) == Err(AesError)
    ensures WellSized(version, payload) ==>
              var iv, ct, tag := IvPart(version, payload), CipherPart(version, payload), TagPart(version, payload);
              && (c.Decrypt(payload, version) == Ok(None) <==> forall p :: !Authentic(c, version, iv, ct, tag, p))
              && forall p | Authentic(c, version, iv, ct, tag, p) &&
                            forall q | Authentic(c, version, iv, ct, tag, q) :: q == p || |p| < |q| ::
                   c.Decrypt(payload, version) == Opened(c, version, p)
  {
    hide *;
    DecryptUnfolds(c, version, payload);
    if WellSized(version, payload) {
      var iv, ct, tag := IvPart(version, payload), CipherPart(version, payload), TagPart(version, payload);
      var r := DecryptPicks(c, version, payload);
      PickIsShortest(c, version, iv, ct, tag, r);
      if r.Some? {
        OpenedIsNotNone(c, version, r.value);
      }
    }
  }

  lemma PickIsShortest(c: Cipher, version: byte, iv: bytes, ct: bytes, tag: bytes, r: Option<bytes>)
    requires Picks(c, version, iv, ct, tag, r)
    ensures r == None <==> forall p :: !Authentic(c, version, iv, ct, tag, p)
    ensures forall p | Authentic(c, version, iv, ct, tag, p) &&
                       forall q | Authentic(c, version, iv, ct, tag, q) :: q == p || |p| < |q| :: r == Some(p)
    ensures r.Some? ==> Authentic(c, version, iv, ct, tag, r.value)
  {
    hide Authentic;
  }

  lemma OpenedIsNotNone(c: Cipher, version: int, p: bytes)
    ensures Opened(c, version, p) != Ok(None)
  {
  }

  lemma InflatedIsOpened(c: Cipher, version: int, r: Option<bytes>)
    requires Known(version)
    ensures c.Inflated(Versions(version), r) == match r case None => Ok(None) case Some(p) => Opened(c, version, p)
  {
    TableFacts(version);
  }

  // The pick that decides decryption.
  lemma DecryptPicks(c: Cipher, version: byte, payload: bytes) returns (r: Option<bytes>)
    requires c.prim.Valid() && Known(version) && WellSized(version, payload)
    ensures Picks(c, version, IvPart(version, payload), CipherPart(version, payload), TagPart(version, payload), r)
    ensures c.Decrypt(payload, version) == match r case None => Ok(None) case Some(p) => Opened(c, version, p)
  {
    hide *;
    DecryptUnfolds(c, version, payload);
    var iv, ct, tag := IvPart(version, payload), CipherPart(version, payload), TagPart(version, payload);
    NoTagPart(version, payload);
    PicksAuthentic(c, version, iv, ct, tag);
    r := c.Authenticated(version, iv, c.prim.dec(c.key, ModeOf(version), iv, ct), tag,
                         ModeOf(version) == GCM && tag == Slice(c.prim.gcmTag(c.key, iv, ct), 0, 4));
    InflatedIsOpened(c, version, r);
  }

  lemma NoTagPart(version: int, payload: bytes)
    ensures TagLength(version) == 0 ==> TagPart(version, payload) == []
    ensures payload == IvPart(version, payload) + CipherPart(version, payload) + TagPart(version, payload)
  {
    hide TagLength, IvBytes;
  }

  /** What decryption returns is authentic: a wrong tag, key or version never yields bytes. */
  lemma DecryptIsSound(c: Cipher, version: byte, payload: bytes, x: bytes)
    requires c.prim.Valid() && Known(version) && c.Decrypt(payload, version) == Ok(Some(x))
    ensures payload == IvPart(version, payload) + CipherPart(version, payload) + TagPart(version, payload)
    ensures exists p ::
              && Authentic(c, version, IvPart(version, payload), CipherPart(version, payload), TagPart(version, payload), p)
              && (if Compresses(version) && p != [] then c.prim.inflate(p) == Some(x) else p == x)
  {
    hide *;
    DecryptUnfolds(c, version, payload);
    NoTagPart(version, payload);
    var iv, ct, tag := IvPart(version, payload), CipherPart(version, payload), TagPart(version, payload);
    var r := DecryptPicks(c, version, payload);
    PickIsShortest(c, version, iv, ct, tag, r);
    OpenedFrom(c, version, r.value, x);
  }

  lemma OpenedFrom(c: Cipher, version: int, p: bytes, x: bytes)
    requires Opened(c, version, p) == Ok(Some(x))
    ensures if Compresses(version) && p != [] then c.prim.inflate(p) == Some(x) else p == x
  {
  }

  // ---------------------------------------------------------------- the envelope

  lemma BigEndianOfThree(s: bytes)
    requires |s| == 3
    ensures BigEndian(s) == 65536 * (s[0] as int) + 256 * (s[1] as int) + (s[2] as int)
  {
    assert BigEndian(s[..2][..1]) == 256 * BigEndian(s[..2][..1][..0]) + s[0];
  }

  predicate LegalIterations(n: int) {
    if n % 10000 == 0 then 10000 <= n <= 100_000_000 else 10000 < n < 16_777_216
  }

  predicate LegalPayload(version: int, n: int) {
    ModeOf(version) == CTR || ModeOf(version) == GCM ||
    ((n - IvBytes(version) - TagLength(version)) % 16 == 0 && n >= IvBytes(version) + TagLength(version) + 16)
  }

  /** What wrap accepts, and where it puts each field. */
  lemma WrapLayout(id: bytes, version: int, iterations: int, payload: bytes)
    ensures var r := Wrap(id, version, iterations, payload);
            && (r.Ok? <==> |id| <= 252 && Known(version) && LegalIterations(iterations) && LegalPayload(version, |payload|))
            && (r.Ok? ==>
                  var w, n := r.value, |id|;
                  && |w| == n + 5 + |payload| && w[0] == n && w[1..1 + n] == id && w[1 + n] == version
                  && 65536 * (w[2 + n] as int) + 256 * (w[3 + n] as int) + (w[4 + n] as int) ==
                     (if iterations % 10000 == 0 then iterations / 10000 else iterations)
                  && w[5 + n..] == payload)
  {
    var r := Wrap(id, version, iterations, payload);
    if Known(version) {
      LegalPayloads(version, |payload|);
    }
    if r.Ok? {
      var m := StoredIterations(iterations).value;
      ThreeBytes(m);
      var count := ToBig(m, 3);
      BigEndianOfThree(count);
      EnvelopeParts(id, version, count, payload);
      hide ToBig, BigEndian, Versions, PayloadError;
      var w, n := r.value, |id|;
      assert w == [|id| as byte] + id + [version] + count + payload;
      assert w[2 + n] == count[0] && w[3 + n] == count[1] && w[4 + n] == count[2];
    }
  }

  lemma LegalPayloads(version: int, n: nat)
    requires Known(version)
    ensures PayloadError(Versions(version), n) == None <==> LegalPayload(version, n)
  {
  }

  /** What unwrap accepts, and where it finds each field; a short iteration count is read as it is. */
  lemma UnwrapLayout(kef: bytes)
    ensures Unwrap(kef).Ok? <==>
            && kef != []
            && var n: int := kef[0];
            && |kef| > 1 + n && Known(kef[1 + n])
            && LegalPayload(kef[1 + n], if |kef| <= 5 + n then 0 else |kef| - 5 - n)
    ensures Unwrap(kef).Ok? ==>
              var n: int := kef[0];
              var e := Unwrap(kef).value;
              && e.id == kef[1..1 + n] && e.version == kef[1 + n]
              && (|kef| >= 5 + n ==>
                    var stored := 65536 * (kef[2 + n] as int) + 256 * (kef[3 + n] as int) + (kef[4 + n] as int);
                    e.payload == kef[5 + n..] && e.iterations == if stored <= 10000 then stored * 10000 else stored)
              && (|kef| < 5 + n ==> e.payload == [])
  {
    hide Versions, PayloadError, LegalPayload, BigEndian, Known;
    if kef != [] {
      var n: int := kef[0];
      if |kef| > 1 + n && Known(kef[1 + n]) {
        LegalPayloads(kef[1 + n], |kef[Min(n + 5, |kef|)..]|);
        if |kef| >= 5 + n {
          CountField(kef, n);
        }
      }
    }
  }

  lemma CountField(kef: bytes, n: nat)
    requires |kef| >= 5 + n
    ensures BigEndian(Slice(kef, 2 + n, 5 + n)) ==
            65536 * (kef[2 + n] as int) + 256 * (kef[3 + n] as int) + (kef[4 + n] as int)
  {
    hide BigEndian;
    BigEndianOfThree(Slice(kef, 2 + n, 5 + n));
  }

  // ---------------------------------------------------------------- suggestions

  // The blocks of a plaintext, the last one as short as it is.
  function AllBlocks(p: bytes): seq<bytes> {
    seq((|p| + 15) / 16, i requires 0 <= i < (|p| + 15) / 16 => Slice(p, 16 * i, 16 * i + 16))
  }

  lemma DuplicatesAreRepeats(p: bytes)
    ensures PlainDuplicates(p) <==> !Distinct(AllBlocks(p))
  {
    var blocks := AllBlocks(p);
    CountingElements(blocks);
    hide Slice;
    forall x | 0 <= x < |p| && x % 16 == 0
      ensures Block(p, x) in Elements(blocks)
    {
      assert blocks[x / 16] == Block(p, x);
    }
    forall b | b in Elements(blocks)
      ensures b in BlockSet(p)
    {
      var i :| 0 <= i < |blocks| && blocks[i] == b;
      assert 0 <= 16 * i < |p| && (16 * i) % 16 == 0 && Block(p, 16 * i) == b;
    }
    assert BlockSet(p) == Elements(blocks);
  }

  /**
   What the suggested version is like.  It compresses exactly plaintexts of 120 bytes and more and, in ECB, those that
   repeat a block; it pads with NULs, and puts the tag outside, exactly uncompressed ECB and CBC plaintexts of at most 32
   bytes not ending in NUL; all other ECB and CBC plaintexts get PKCS padding around a hidden tag of four bytes.
   */
  lemma SuggestionIs(p: bytes, mode: Mode)
    requires p != []
    ensures var v := Choice(p, mode);
            && Known(v) && ModeOf(v) == mode
            && (Compresses(v) <==> |p| >= 120 || (mode == ECB && !Distinct(AllBlocks(p))))
            && (v == 5 || v == 10 <==>
                (mode == ECB || mode == CBC) && !Compresses(v) && |p| <= 32 && p[|p| - 1] != 0)
            && v != 0 && v != 1
  {
    DuplicatesAreRepeats(p);
    hide PlainDuplicates, AllBlocks, Distinct;
  }
}
