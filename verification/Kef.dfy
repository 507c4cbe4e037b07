/**
 The KEF encryption format (src/krux/kef.py): the version table, encryption and
 decryption under it, and the envelope.

 AES, SHA-256 and deflate are foreign modules; they are parameters here, constrained only by
 the laws Primitives.Valid states.
 */
module Kef {
  import opened Bytes

  datatype Mode = ECB | CBC | CTR | GCM

  // The table's pkcs_pad entry: False, True and None.
  datatype Padding = NulPad | PkcsPad | NoPad

  datatype Version = Version(mode: Mode, pad: Padding, auth: int, compress: bool)

  datatype Error =
    | KeyError | IndexError | CannotValidate | DuplicateBlocks | WrongIvLength | IvNotRequired
    | InvalidPayload | AesError | DecompressError
    | InvalidId | InvalidVersion | InvalidIterations | NotAligned | TooShort | InvalidFormat

  datatype Result<+T> = Ok(value: T) | Err(error: Error)

  const VERSION_NUMBERS: seq<int> := [0, 1, 5, 6, 7, 10, 11, 12, 15, 16, 20, 21]

  predicate Known(v: int) {
    v == 0 || v == 1 || v == 5 || v == 6 || v == 7 || v == 10 || v == 11 || v == 12 || v == 15 || v == 16 ||
    v == 20 || v == 21
  }

  function Versions(v: int): (r: Version)
    requires Known(v)
  {
    match v
    case 0 => Version(ECB, NulPad, -16, false)
    case 1 => Version(CBC, NulPad, -16, false)
    case 5 => Version(ECB, NulPad, 3, false)
    case 6 => Version(ECB, PkcsPad, -4, false)
    case 7 => Version(ECB, PkcsPad, -4, true)
    case 10 => Version(CBC, NulPad, 4, false)
    case 11 => Version(CBC, PkcsPad, -4, false)
    case 12 => Version(CBC, PkcsPad, -4, true)
    case 15 => Version(CTR, NoPad, -4, false)
    case 16 => Version(CTR, NoPad, -4, true)
    case 20 => Version(GCM, NoPad, 4, false)
    case _ => Version(GCM, NoPad, 4, true)
  }

  function IvLength(m: Mode): nat {
    match m
    case ECB => 0
    case CBC => 16
    case CTR => 12
    case GCM => 12
  }

  // ---------------------------------------------------------------- primitives

  datatype Primitives = Primitives(
    enc: (bytes, Mode, bytes, bytes) -> bytes,      // key, mode, iv, plaintext
    dec: (bytes, Mode, bytes, bytes) -> bytes,      // key, mode, iv, ciphertext
    gcmTag: (bytes, bytes, bytes) -> bytes,         // key, iv, ciphertext
    sha: bytes -> bytes,
    deflate: bytes -> bytes,
    inflate: bytes -> Option<bytes>)
  {
    ghost predicate Valid() {
      && (forall k, m, iv, p :: |enc(k, m, iv, p)| == |p|)
      && (forall k, m, iv, p :: (m == ECB || m == CBC ==> |p| % 16 == 0) ==> dec(k, m, iv, enc(k, m, iv, p)) == p)
      && (forall k, iv, c :: |gcmTag(k, iv, c)| == 16)
      && (forall x :: |sha(x)| == 32)
      && (forall x :: deflate(x) != [] && inflate(deflate(x)) == Some(x))
    }
  }

  // ---------------------------------------------------------------- padding

  function PadLength(n: nat): nat { (16 - n % 16) % 16 }

  function Pad(s: bytes, pad: Padding): (r: bytes)
    ensures s <= r
    ensures !pad.NoPad? ==> |r| % 16 == 0
    ensures pad.NoPad? ==> r == s
    ensures s != [] || pad.PkcsPad? ==> r != []
  {
    var n := PadLength(|s|);
    match pad
    case NoPad => s
    case NulPad => s + Nul(n)
    case PkcsPad => var m := if n == 0 then 16 else n; s + Repeat<byte>(m, m)
  }

  // Unpad raises IndexError on empty PKCS data; that is the None here.
  function Unpad(s: bytes, pad: Padding): (r: Option<bytes>)
    ensures r.Some? ==> |r.value| <= |s|
  {
    match pad
    case NoPad => Some(s)
    case NulPad => Some(RStrip(s))
    case PkcsPad =>
      if s == [] then None
      else
        var n := s[|s| - 1];
        Some(if n == 0 then [] else DropLast(s, n))
  }

  /** PKCS padding is faithful on every byte string (section 6.3 of RFC 5652). */
  lemma UnpadOfPkcs(s: bytes)
    ensures Unpad(Pad(s, PkcsPad), PkcsPad) == Some(s)
  {
    var n := if PadLength(|s|) == 0 then 16 else PadLength(|s|);
    var r := Pad(s, PkcsPad);
    assert r[|r| - 1] == n;
  }

  /** NUL padding is faithful exactly on strings that do not end in NUL. */
  lemma UnpadOfNul(s: bytes)
    ensures Unpad(Pad(s, NulPad), NulPad) == Some(RStrip(s))
    ensures Unpad(Pad(s, NulPad), NulPad) == Some(s) <==> s == [] || s[|s| - 1] != 0
  {
    RStripOfNuls(s, PadLength(|s|));
  }

  // ---------------------------------------------------------------- ECB duplicate blocks

  function Block(s: bytes, x: nat): bytes { Slice(s, x, x + 16) }

  function BlockSet(s: bytes): set<bytes> {
    set x | 0 <= x < |s| && x % 16 == 0 :: Block(s, x)
  }

  // The test encrypt makes on the padded plaintext.
  predicate HasDuplicates(s: bytes) { |BlockSet(s)| != |s| / 16 }

  // ---------------------------------------------------------------- cipher object

  datatype Cipher = Cipher(prim: Primitives, key: bytes) {

    // The two truncated hashes KEF uses where the mode has no tag of its own.
    function PublicTag(version: byte, iv: bytes, plain: bytes, n: nat): bytes {
      Slice(prim.sha([version] + iv + plain + key), 0, n)
    }

    function EmbeddedTag(plain: bytes, n: nat): bytes {
      Slice(prim.sha(plain), 0, n)
    }

    // What is padded and encrypted, and the public tag that follows the ciphertext.
    function Body(v: Version, plain: bytes): bytes {
      if v.mode != GCM && v.auth < 0 then plain + EmbeddedTag(plain, -v.auth) else plain
    }

    function Encrypt(plaintext: bytes, version: int, iv: bytes, failUnsafe: bool): Result<bytes> {
      if !Known(version) then Err(KeyError)
      else
        var v := Versions(version);
        var plain := if v.compress then prim.deflate(plaintext) else plaintext;
        var guarded := failUnsafe && v.pad.NulPad?;
        if guarded && v.auth > 0 && plain == [] then Err(IndexError)
        else if guarded && v.auth > 0 && plain[|plain| - 1] == 0 then Err(CannotValidate)
        else if guarded && v.auth < 0 && EndsInNul(EmbeddedTag(plain, -v.auth)) then Err(CannotValidate)
        else
          var padded := Pad(Body(v, plain), v.pad);
          if failUnsafe && v.mode == ECB && HasDuplicates(padded) then Err(DuplicateBlocks)
          else if IvLength(v.mode) > 0 && |iv| != IvLength(v.mode) then Err(WrongIvLength)
          else if IvLength(v.mode) == 0 && iv != [] then Err(IvNotRequired)
          else
            var ct := prim.enc(key, v.mode, iv, padded);
            var auth :=
              if v.mode == GCM then Slice(prim.gcmTag(key, iv, ct), 0, Abs(v.auth))
              else if v.auth > 0 then PublicTag(version, iv, plain, v.auth)
              else [];
            Ok(iv + ct + auth)
    }

    function Decrypt(payload: bytes, version: int): Result<Option<bytes>> {
      if !Known(version) then Err(KeyError)
      else
        var v := Versions(version);
        var least := (if v.mode == CTR || v.mode == GCM then 1 else 16) + Min(0, v.auth) + IvLength(v.mode);
        if |payload| <= least then Err(InvalidPayload)
        else
          var iv := Slice(payload, 0, IvLength(v.mode));
          var rest := payload[|iv|..];
          var auth := if v.auth > 0 then Last(rest, v.auth) else [];
          var ct := if v.auth > 0 then DropLast(rest, v.auth) else rest;
          if |iv| != IvLength(v.mode) || ((v.mode == ECB || v.mode == CBC) && |ct| % 16 != 0) then Err(AesError)
          else
            var verified := v.mode == GCM && auth == Slice(prim.gcmTag(key, iv, ct), 0, Abs(v.auth));
            Inflated(v, Authenticated(version, iv, prim.dec(key, v.mode, iv, ct), auth, verified))
    }

    // The last step of decryption; empty bytes are not inflated.
    function Inflated(v: Version, plain: Option<bytes>): Result<Option<bytes>> {
      if plain.Some? && plain.value != [] && v.compress then
        match prim.inflate(plain.value)
        case None => Err(DecompressError)
        case Some(x) => Ok(Some(x))
      else Ok(plain)
    }

    // The tag the retry loop expects for a candidate plaintext.
    function Expected(version: byte, iv: bytes, candidate: bytes): bytes
      requires Known(version)
    {
      var v := Versions(version);
      if v.auth > 0 then PublicTag(version, iv, candidate, v.auth) else EmbeddedTag(candidate, -v.auth)
    }

    // One failed attempt: give a stripped NUL back, to the tag or to the plaintext.
    static function Regrow(v: Version, candidate: bytes, auth: bytes): (bytes, bytes) {
      if v.auth < 0 then (candidate + Slice(auth, 0, 1), auth[Min(1, |auth|)..] + [0]) else (candidate + [0], auth)
    }

    function Retry(version: byte, iv: bytes, candidate: bytes, auth: bytes, attempts: nat): Option<bytes>
      requires Known(version)
      decreases attempts
    {
      if attempts == 0 then None
      else if Expected(version, iv, candidate) == auth then Some(candidate)
      else
        var (c, a) := Regrow(Versions(version), candidate, auth);
        Retry(version, iv, c, a, attempts - 1)
    }

    static function Attempts(v: Version, before: nat, after: nat): (n: nat)
      requires after <= before
    {
      if v.pad.NulPad? then Min(before - after, Abs(v.auth) + 1) + 1 else 1
    }

    // The unpadded data cut into candidate plaintext and tag.
    static function Cut(v: Version, unpadded: bytes, auth: bytes): (r: (bytes, bytes))
      ensures |r.0| <= |unpadded|
    {
      if v.auth < 0 then (DropLast(unpadded, -v.auth), Last(unpadded, -v.auth)) else (unpadded, auth)
    }

    /** What _authenticate returns; an exception inside it counts as None. */
    function Authenticated(version: byte, iv: bytes, decrypted: bytes, auth: bytes, verified: bool): Option<bytes>
      requires Known(version)
    {
      var v := Versions(version);
      match Unpad(decrypted, v.pad)
      case None => None
      case Some(unpadded) =>
        var (candidate, tag) := Cut(v, unpadded, auth);
        if v.mode == GCM then (if verified then Some(candidate) else None)
        else Retry(version, iv, candidate, tag, Attempts(v, |decrypted|, |candidate|))
    }

    /** The retrying authentication loop, step by step. */
    method Authenticate(version: byte, iv: bytes, decrypted: bytes, auth: bytes, verified: bool)
      returns (r: Option<bytes>)
      requires Known(version)
      ensures r == Authenticated(version, iv, decrypted, auth, verified)
    {
      hide Versions, Unpad, Expected, Attempts, Known;
      var v := Versions(version);
      var unpadded := Unpad(decrypted, v.pad);
      if unpadded == None {
        return None;
      }
      var (candidate, tag) := Cut(v, unpadded.value, auth);
      if v.mode == GCM {
        return if verified then Some(candidate) else None;
      }
      var attempts := Attempts(v, |decrypted|, |candidate|);
      for i := 0 to attempts
        invariant Authenticated(version, iv, decrypted, auth, verified) ==
                  Retry(version, iv, candidate, tag, attempts - i)
      {
        if Expected(version, iv, candidate) == tag {
          return Some(candidate);
        }
        if v.auth < 0 {
          candidate, tag := candidate + Slice(tag, 0, 1), tag[Min(1, |tag|)..] + [0];
        } else {
          candidate := candidate + [0];
        }
      }
      return None;
    }
  }

  function Abs(x: int): nat { if x < 0 then -x else x }

  predicate EndsInNul(s: bytes) { s != [] && s[|s| - 1] == 0 }
}
