/**
 Choosing a KEF version for a plaintext (src/krux/kef.py:343-417), the envelope around a payload
 (src/krux/kef.py:420-506), and the whole seal/unseal pipeline.
 */
module KefEnvelope {
  import opened Bytes
  import opened Kef
  import opened KefProofs

  // ---------------------------------------------------------------- suggested versions

  // unique_blocks < len(plaintext) / 16, as an integer comparison.
  predicate PlainDuplicates(p: bytes) { 16 * |BlockSet(p)| < |p| }

  /** The version a plaintext should get, as a decision table. */
  function Choice(p: bytes, mode: Mode): (v: int)
    requires p != []
    ensures Known(v) && Versions(v).mode == mode
  {
    match mode
    case ECB =>
      if PlainDuplicates(p) || |p| >= 120 then 7 else if |p| <= 32 && !EndsInNul(p) then 5 else 6
    case CBC => if |p| >= 120 then 12 else if |p| <= 32 && !EndsInNul(p) then 10 else 11
    case CTR => if |p| >= 120 then 16 else 15
    case GCM => if |p| >= 120 then 21 else 20
  }

  // One version's way through the eliminations of the loop.
  predicate Kept(duplicates: bool, nulSuffix: bool, n: nat, mode: Mode, v: Version) {
    && v.mode == mode
    && !(duplicates && mode == ECB && !v.compress)
    && !((mode == ECB || mode == CBC) && v.auth == -16)
    && (if n <= 32 then
          (mode == ECB && duplicates) || (!(v.pad == PkcsPad && !nulSuffix) && !v.compress)
        else
          v.pad != NulPad && ((mode == ECB && duplicates) || (v.compress <==> n >= 120)))
    && !(nulSuffix && v.pad == NulPad)
  }

  lemma KeptIffChosen(p: bytes, mode: Mode, version: int)
    requires p != [] && Known(version)
    ensures Kept(PlainDuplicates(p), EndsInNul(p), |p|, mode, Versions(version)) <==> version == Choice(p, mode)
  {
    hide PlainDuplicates;
  }

  lemma ChoiceIsListed(p: bytes, mode: Mode)
    requires p != []
    ensures Choice(p, mode) in VERSION_NUMBERS
  {
    hide PlainDuplicates;
    assert VERSION_NUMBERS[2] == 5 && VERSION_NUMBERS[3] == 6 && VERSION_NUMBERS[4] == 7;
    assert VERSION_NUMBERS[5] == 10 && VERSION_NUMBERS[6] == 11 && VERSION_NUMBERS[7] == 12;
    assert VERSION_NUMBERS[8] == 15 && VERSION_NUMBERS[9] == 16;
    assert VERSION_NUMBERS[10] == 20 && VERSION_NUMBERS[11] == 21;
  }

  lemma ListedIsKnown(i: nat)
    requires i < |VERSION_NUMBERS|
    ensures Known(VERSION_NUMBERS[i]) && VERSION_NUMBERS[i] !in VERSION_NUMBERS[..i]
  {
  }

  /** The elimination loop returns exactly one version per mode, the one the table names. */
  method SuggestVersions(p: bytes, mode: Mode) returns (r: Result<seq<int>>)
    ensures p == [] ==> r == Err(IndexError)
    ensures p != [] ==> r == Ok([Choice(p, mode)])
  {
    if p == [] {
      return Err(IndexError);
    }
    hide Choice, Versions, PlainDuplicates, Known;
    var duplicates, nulSuffix := PlainDuplicates(p), EndsInNul(p);
    var candidates: seq<int> := [];
    ghost var choice := Choice(p, mode);
    for i := 0 to |VERSION_NUMBERS|
      invariant candidates == if choice in VERSION_NUMBERS[..i] then [choice] else []
    {
      ListedIsKnown(i);
      var version := VERSION_NUMBERS[i];
      KeptIffChosen(p, mode, version);
      var v := Versions(version);
      assert VERSION_NUMBERS[..i + 1] == VERSION_NUMBERS[..i] + [version];
      if v.mode != mode {
        continue;
      }
      if duplicates && mode == ECB && !v.compress {
        continue;
      }
      if (mode == ECB || mode == CBC) && v.auth == -16 {
        continue;
      }
      if |p| <= 32 {
        if !(mode == ECB && duplicates) {
          if v.pad == PkcsPad && !nulSuffix {
            continue;
          }
          if v.compress {
            continue;
          }
        }
      } else {
        if v.pad == NulPad {
          continue;
        }
        if mode == ECB && duplicates {
        } else if |p| < 120 {
          if v.compress {
            continue;
          }
        } else if !v.compress {
          continue;
        }
      }
      if nulSuffix && v.pad == NulPad {
        continue;
      }
      candidates := candidates + [version];
    }
    ChoiceIsListed(p, mode);
    assert VERSION_NUMBERS[..|VERSION_NUMBERS|] == VERSION_NUMBERS;
    return Ok(candidates);
  }

  // ---------------------------------------------------------------- envelope

  datatype Envelope = Envelope(id: bytes, version: byte, iterations: int, payload: bytes)

  // Bytes of a payload that are not ciphertext: IV and public tag.
  function Extra(v: Version): nat { IvLength(v.mode) + if v.auth > 0 then v.auth else 0 }

  function PayloadError(v: Version, n: nat): Option<Error> {
    if v.pad.NoPad? then None
    else if (n - Extra(v)) % 16 != 0 then Some(NotAligned)
    else if (n - Extra(v)) / 16 < 1 then Some(TooShort)
    else None
  }

  // The three-byte iteration count: multiples of 10000 are stored divided by 10000.
  function StoredIterations(n: int): Option<nat> {
    if n % 10000 == 0 then
      if 1 <= n / 10000 <= 10000 then Some(n / 10000) else None
    else if 10000 < n < 0x100_0000 then Some(n) else None
  }

  function LoadedIterations(stored: nat): nat { if stored <= 10000 then stored * 10000 else stored }

  function Wrap(id: bytes, version: int, iterations: int, payload: bytes): Result<bytes> {
    if |id| > 252 then Err(InvalidId)
    else if !Known(version) then Err(InvalidVersion)
    else
      match StoredIterations(iterations)
      case None => Err(InvalidIterations)
      case Some(n) =>
        match PayloadError(Versions(version), |payload|)
        case Some(e) => Err(e)
        case None => Ok([|id|] + id + [version] + ToBig(n, 3) + payload)
  }

  function Unwrap(kef: bytes): Result<Envelope> {
    if kef == [] then Err(IndexError)
    else
      var n: int := kef[0];
      if |kef| <= 1 + n || !Known(kef[1 + n]) then Err(InvalidFormat)
      else
        var version := kef[1 + n];
        var iterations := LoadedIterations(BigEndian(Slice(kef, 2 + n, 5 + n)));
        var payload := kef[Min(n + 5, |kef|)..];
        match PayloadError(Versions(version), |payload|)
        case Some(e) => Err(e)
        case None => Ok(Envelope(kef[1..1 + n], version, iterations, payload))
  }

  lemma ThreeBytes(n: nat)
    requires n < 0x100_0000
    ensures BigEndian(ToBig(n, 3)) == n
  {
    assert Power256(3) == 0x100_0000;
    BigEndianOfToBig(n, 3);
  }

  lemma EnvelopeParts(id: bytes, version: byte, n: bytes, payload: bytes)
    requires |id| <= 252 && |n| == 3
    ensures var kef := [|id| as byte] + id + [version] + n + payload;
            && kef[0] == |id| && |kef| > 1 + |id| && kef[1 + |id|] == version && kef[1..1 + |id|] == id
            && Slice(kef, 2 + |id|, 5 + |id|) == n && kef[Min(|id| + 5, |kef|)..] == payload
  {
  }

  /** Unwrapping gives back what was wrapped, whenever wrapping accepts it. */
  lemma UnwrapOfWrap(id: bytes, version: int, iterations: int, payload: bytes)
    requires Wrap(id, version, iterations, payload).Ok?
    ensures Unwrap(Wrap(id, version, iterations, payload).value) == Ok(Envelope(id, version, iterations, payload))
  {
    hide Versions, PayloadError, BigEndian, ToBig;
    var n := StoredIterations(iterations).value;
    ThreeBytes(n);
    EnvelopeParts(id, version, ToBig(n, 3), payload);
  }

  /**
   Wrapping gives back what was unwrapped exactly on canonical envelopes: an id of at most 252
   bytes, all three iteration bytes present, and a count that is neither 0 nor an undivided multiple of 10000.
   */
  lemma WrapOfUnwrap(kef: bytes)
    requires Unwrap(kef).Ok?
    ensures var e := Unwrap(kef).value;
            var n: int := kef[0];
            var stored := BigEndian(Slice(kef, 2 + n, 5 + n));
            Wrap(e.id, e.version, e.iterations, e.payload) == Ok(kef) <==>
            n <= 252 && |kef| >= 5 + n && (1 <= stored <= 10000 || stored % 10000 != 0)
  {
    hide Versions, PayloadError, BigEndian, ToBig;
    var e := Unwrap(kef).value;
    var n: int := kef[0];
    var count := Slice(kef, 2 + n, 5 + n);
    var stored := BigEndian(count);
    ToBigOfBigEndian(count);
    ShortCount(count);
    var w := Wrap(e.id, e.version, e.iterations, e.payload);
    if n <= 252 && |kef| >= 5 + n {
      WholeEnvelope(kef, n);
      if w.Ok? {
        var m := StoredIterations(e.iterations).value;
        ThreeBytes(m);
        EnvelopeParts(e.id, e.version, ToBig(m, 3), e.payload);
      }
    }
  }

  lemma WholeEnvelope(kef: bytes, n: nat)
    requires kef != [] && n == kef[0] && |kef| >= 5 + n
    ensures kef == [kef[0]] + kef[1..1 + n] + [kef[1 + n]] + Slice(kef, 2 + n, 5 + n) + kef[Min(n + 5, |kef|)..]
  {
  }

  lemma ShortCount(s: bytes)
    requires |s| <= 3
    ensures BigEndian(s) < 0x100_0000
  {
    ToBigOfBigEndian(s);
    assert Power256(0) == 1 && Power256(1) == 256 && Power256(2) == 65536 && Power256(3) == 0x100_0000;
  }

  // ---------------------------------------------------------------- pipeline

  // What the ECB check sees for a suggested version.
  function EcbInput(c: Cipher, p: bytes): bytes
    requires p != []
  {
    var v := Versions(Choice(p, ECB));
    Pad(c.Body(v, if v.compress then c.prim.deflate(p) else p), v.pad)
  }

  lemma SuggestedEncrypts(c: Cipher, p: bytes, mode: Mode, iv: bytes)
    requires c.prim.Valid() && p != [] && |iv| == IvLength(mode)
    ensures var r := c.Encrypt(p, Choice(p, mode), iv, true);
            if mode == ECB && HasDuplicates(EcbInput(c, p)) then r == Err(DuplicateBlocks) else r.Ok?
  {
    hide HasDuplicates, PlainDuplicates, Pad;
  }

  lemma PayloadIsAccepted(c: Cipher, p: bytes, version: byte, iv: bytes)
    requires c.prim.Valid() && Known(version) && c.Encrypt(p, version, iv, true).Ok?
    ensures PayloadError(Versions(version), |c.Encrypt(p, version, iv, true).value|) == None
  {
    hide HasDuplicates, Pad;
    var v := Versions(version);
    var plain := if v.compress then c.prim.deflate(p) else p;
    var padded := Pad(c.Body(v, plain), v.pad);
    TagLengths(c, version, iv, plain, Abs(v.auth));
    assert |c.Encrypt(p, version, iv, true).value| == Extra(v) + |padded|;
  }

  /**
   Seal and unseal: for every non-empty plaintext and every mode, with the suggested version, an id
   of at most 252 bytes and a legal iteration count, everything comes back.  In CBC, CTR and GCM
   nothing can fail; in ECB the only failure is the duplicate-block error, and it happens exactly
   when the padded plaintext repeats a block.
   */
  lemma SealUnseal(c: Cipher, p: bytes, mode: Mode, iv: bytes, id: bytes, iterations: int)
    requires c.prim.Valid() && p != [] && |iv| == IvLength(mode)
    requires |id| <= 252 && StoredIterations(iterations).Some?
    ensures var version := Choice(p, mode);
            var r := c.Encrypt(p, version, iv, true);
            if mode == ECB && HasDuplicates(EcbInput(c, p)) then r == Err(DuplicateBlocks)
            else
              && r.Ok?
              && var w := Wrap(id, version, iterations, r.value);
              && w.Ok?
              && Unwrap(w.value) == Ok(Envelope(id, version, iterations, r.value))
              && c.Decrypt(r.value, version) == Ok(Some(p))
  {
    hide Choice, HasDuplicates, EcbInput, Cipher.Encrypt, Cipher.Decrypt, Unwrap, PayloadError;
    SuggestedEncrypts(c, p, mode, iv);
    var version := Choice(p, mode);
    var r := c.Encrypt(p, version, iv, true);
    if r.Ok? {
      PayloadIsAccepted(c, p, version, iv);
      UnwrapOfWrap(id, version, iterations, r.value);
      RoundTrip(c, p, version, iv);
    }
  }

  // The plaintext whose NUL padding makes its two blocks equal.
  const REFUSED: bytes := [1] + Nul(15) + [1]

  /** A suggested ECB version can be refused: the suggestion looks at the blocks before padding. */
  lemma SuggestedEcbRefused(c: Cipher)
    requires c.prim.Valid()
    ensures Choice(REFUSED, ECB) == 5 && c.Encrypt(REFUSED, 5, [], true) == Err(DuplicateBlocks)
  {
    var p := REFUSED;
    var first: bytes := [1] + Nul(15);
    assert Block(p, 0) == first && Block(p, 16) == [1];
    assert BlockSet(p) == {first, [1]} by {
      assert forall x | 0 <= x < |p| && x % 16 == 0 :: x == 0 || x == 16;
      assert Block(p, 0) in BlockSet(p) && Block(p, 16) in BlockSet(p);
    }
    assert |{first, [1 as byte]}| == 2;
    var padded := Pad(p, NulPad);
    assert padded == first + first;
    assert Block(padded, 0) == first && Block(padded, 16) == first;
    assert BlockSet(padded) == {first} by {
      assert forall x | 0 <= x < |padded| && x % 16 == 0 :: x == 0 || x == 16;
      assert Block(padded, 0) in BlockSet(padded);
    }
  }
}
