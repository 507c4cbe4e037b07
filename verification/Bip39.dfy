/**
 Mnemonics to entropy (src/krux/bip39.py:10-48) and the correspondence that the section "Generating the
 mnemonic" of BIP-39 sets up.
 */
module Bip39 {
  import opened Arith
  import opened Bytes
  import opened Positional

  datatype Result = Ok(entropy: bytes) | InvalidPhrase | NotInDictionary | ChecksumFailed

  // 2048 distinct words.
  ghost predicate IsWordlist(list: seq<string>) {
    |list| == 2048 && forall i, j | 0 <= i < |list| && 0 <= j < |list| && list[i] == list[j] :: i == j
  }

  function IndexFrom(list: seq<string>, word: string, i: nat): (r: Option<nat>)
    requires i <= |list|
    ensures r.Some? ==> i <= r.value < |list| && list[r.value] == word
    ensures r.None? ==> forall j | i <= j < |list| :: list[j] != word
    decreases |list| - i
  {
    if i == |list| then None else if list[i] == word then Some(i) else IndexFrom(list, word, i + 1)
  }

  function Index(list: seq<string>, word: string): (r: Option<nat>)
    ensures r.Some? ==> r.value < |list| && list[r.value] == word
    ensures r.None? ==> forall j | 0 <= j < |list| :: list[j] != word
  {
    IndexFrom(list, word, 0)
  }

  predicate ValidCount(n: nat) { n % 3 == 0 && 12 <= n <= 24 }

  ghost predicate AllListed(list: seq<string>, words: seq<string>) {
    forall i | 0 <= i < |words| :: Index(list, words[i]).Some?
  }

  function Indices(list: seq<string>, words: seq<string>): (r: seq<nat>)
    requires AllListed(list, words)
    ensures |r| == |words|
  {
    seq(|words|, i requires 0 <= i < |words| => Index(list, words[i]).value)
  }

  // The checksum: the first bits of the first byte of the hash.
  function Checksum(sha: bytes -> byte, entropy: bytes, k: nat): nat
    requires k <= 8
  {
    Positional.Pow2Positive(8 - k);
    sha(entropy) / Pow(2, 8 - k)
  }

  // Entropy bytes of a number of words: 4/3 bytes per word.
  function Split(acc: nat, n: nat): (bytes, nat)
    requires ValidCount(n)
  {
    var k := n / 3;
    Positional.Pow2Positive(k);
    (ToDigits(acc / Pow(2, k), 4 * k, 256), acc % Pow(2, k))
  }

  ghost function MnemonicBytes(list: seq<string>, sha: bytes -> byte, words: seq<string>, ignoreChecksum: bool): Result {
    if !ValidCount(|words|) then InvalidPhrase
    else if !AllListed(list, words) then NotInDictionary
    else
      var (entropy, checksum) := Split(Val(Indices(list, words), 2048), |words|);
      if ignoreChecksum || checksum == Checksum(sha, entropy, |words| / 3) then Ok(entropy) else ChecksumFailed
  }

  /** k_mnemonic_bytes, with its accumulator. */
  method KMnemonicBytes(list: seq<string>, sha: bytes -> byte, words: seq<string>, ignoreChecksum: bool)
    returns (r: Result)
    ensures r == MnemonicBytes(list, sha, words, ignoreChecksum)
  {
    hide Index, Val, Checksum;
    if |words| % 3 != 0 || !(12 <= |words| <= 24) {
      return InvalidPhrase;
    }
    Empty(2048);
    var acc: nat := 0;
    for i := 0 to |words|
      invariant AllListed(list, words[..i]) && acc == Val(Indices(list, words[..i]), 2048)
    {
      var index := Index(list, words[i]);
      if index == None {
        return NotInDictionary;
      }
      assert words[..i + 1] == words[..i] + [words[i]];
      assert Indices(list, words[..i + 1]) == Indices(list, words[..i]) + [index.value];
      ValSnoc(Indices(list, words[..i]), index.value, 2048);
      acc := acc * 2048 + index.value;
    }
    assert words[..|words|] == words;
    var k := |words| * 11 / 33;
    assert k == |words| / 3 && |words| * 11 / 33 * 32 / 8 == 4 * k;
    Pow2Positive(k);
    var checksum := acc % Pow(2, k);
    var data := ToDigits(acc / Pow(2, k), 4 * k, 256);
    if ignoreChecksum {
      return Ok(data);
    }
    if checksum != Checksum(sha, data, k) {
      return ChecksumFailed;
    }
    return Ok(data);
  }

  // ---------------------------------------------------------------- the correspondence

  // 3k words of 11 bits are 4k bytes and k checksum bits.
  lemma {:induction false} WordSpace(k: nat)
    ensures Pow(2048, 3 * k) == Pow(256, 4 * k) * Pow(2, k)
  {
    if k > 0 {
      WordSpace(k - 1);
      PowStep(2048, 3 * k - 1);
      PowStep(2048, 3 * k - 2);
      PowStep(2048, 3 * k - 3);
      PowStep(256, 4 * k - 1);
      PowStep(256, 4 * k - 2);
      PowStep(256, 4 * k - 3);
      PowStep(256, 4 * k - 4);
      PowStep(2, k - 1);
      Scale(Pow(256, 4 * k - 4), Pow(2, k - 1));
    }
  }

  lemma Scale(p: nat, q: nat)
    ensures p * q * 2048 * 2048 * 2048 == (p * 256 * 256 * 256 * 256) * (q * 2)
  {
    assert p * q * 8589934592 == (p * 4294967296) * (q * 2);
  }

  lemma IndexOfListed(list: seq<string>, i: nat)
    requires IsWordlist(list) && i < 2048
    ensures Index(list, list[i]) == Some(i)
  {
    hide Index;
    var word := list[i];
    assert exists j :: 0 <= j < |list| && list[j] == word;
  }

  /** to_bytes never overflows: the shifted accumulator fits the entropy length, and the checksum its bits. */
  lemma SplitFits(acc: nat, n: nat)
    requires ValidCount(n) && acc < Pow(2048, n)
    ensures Pow(2, n / 3) > 0 && acc / Pow(2, n / 3) < Pow(256, 4 * (n / 3))
    ensures Val(Split(acc, n).0, 256) == acc / Pow(2, n / 3)
  {
    hide Pow, Val, ToDigits;
    var k := n / 3;
    WordSpace(k);
    Pow2Positive(k);
    BoundBack(acc, Pow(256, 4 * k), Pow(2, k));
    ValOfToDigits(acc / Pow(2, k), 4 * k, 256);
  }

  // The number that an entropy and its checksum make.
  function Joined(sha: bytes -> byte, entropy: bytes, k: nat): nat
    requires k <= 8
  {
    Val(entropy, 256) * Pow(2, k) + Checksum(sha, entropy, k)
  }

  function ToMnemonic(list: seq<string>, sha: bytes -> byte, entropy: bytes, n: nat): (r: seq<string>)
    requires |list| == 2048 && ValidCount(n)
    ensures |r| == n
  {
    var digits := ToDigits(Joined(sha, entropy, n / 3), n, 2048);
    seq(n, i requires 0 <= i < n => list[digits[i]])
  }

  lemma ChecksumFits(sha: bytes -> byte, entropy: bytes, k: nat)
    requires 4 <= k <= 8
    ensures Checksum(sha, entropy, k) < Pow(2, k)
  {
    assert Pow(2, 0) == 1 && Pow(2, 1) == 2 && Pow(2, 2) == 4 && Pow(2, 3) == 8 && Pow(2, 4) == 16;
    assert Pow(2, 5) == 32 && Pow(2, 6) == 64 && Pow(2, 7) == 128 && Pow(2, 8) == 256;
  }

  lemma JoinedFits(sha: bytes -> byte, entropy: bytes, n: nat)
    requires ValidCount(n) && |entropy| == 4 * (n / 3)
    ensures Joined(sha, entropy, n / 3) < Pow(2048, n)
    ensures Split(Joined(sha, entropy, n / 3), n) == (entropy, Checksum(sha, entropy, n / 3))
  {
    hide Val, Pow, Checksum, ToDigits;
    var k := n / 3;
    ChecksumFits(sha, entropy, k);
    ValBound(entropy, 256);
    WordSpace(k);
    BoundStep(Val(entropy, 256), Pow(256, 4 * k), Pow(2, k), Checksum(sha, entropy, k));
    Pow2Positive(k);
    DivModUnique(Val(entropy, 256), Pow(2, k), Checksum(sha, entropy, k));
    ValOfToDigits(Val(entropy, 256), 4 * k, 256);
    ValInjective(ToDigits(Val(entropy, 256), 4 * k, 256), entropy, 256);
  }

  /** Every entropy has its mnemonic: the words BIP-39 generates are accepted and give it back. */
  lemma MnemonicOfEntropy(list: seq<string>, sha: bytes -> byte, entropy: bytes, n: nat)
    requires IsWordlist(list) && ValidCount(n) && |entropy| == 4 * (n / 3)
    ensures MnemonicBytes(list, sha, ToMnemonic(list, sha, entropy, n), false) == Ok(entropy)
  {
    hide Val, Pow, Checksum, ToDigits, Joined, Split, Index;
    var digits := ToDigits(Joined(sha, entropy, n / 3), n, 2048);
    var words := ToMnemonic(list, sha, entropy, n);
    forall i | 0 <= i < n
      ensures Index(list, words[i]) == Some(digits[i])
    {
      IndexOfListed(list, digits[i]);
    }
    assert Indices(list, words) == digits;
    JoinedFits(sha, entropy, n);
    ValOfToDigits(Joined(sha, entropy, n / 3), n, 2048);
  }

  /** And only one: any accepted word list is the one generated from the entropy it gives. */
  lemma EntropyOfMnemonic(list: seq<string>, sha: bytes -> byte, words: seq<string>)
    requires IsWordlist(list) && MnemonicBytes(list, sha, words, false).Ok?
    ensures var entropy := MnemonicBytes(list, sha, words, false).entropy;
            |entropy| == 4 * (|words| / 3) && words == ToMnemonic(list, sha, entropy, |words|)
  {
    hide Val, Pow, Checksum, ToDigits, Index;
    var n, k := |words|, |words| / 3;
    var indices := Indices(list, words);
    var acc := Val(indices, 2048);
    ValBound(indices, 2048);
    SplitFits(acc, n);
    var (entropy, checksum) := Split(acc, n);
    DivModSum(acc, Pow(2, k));
    assert acc == Joined(sha, entropy, k);
    ValOfToDigits(acc, n, 2048);
    ValInjective(ToDigits(acc, n, 2048), indices, 2048);
    var again := ToMnemonic(list, sha, entropy, n);
    forall i | 0 <= i < n
      ensures again[i] == words[i]
    {
      assert list[indices[i]] == words[i];
    }
  }

  // ---------------------------------------------------------------- which words are accepted

  lemma SmallPowers(k: nat)
    requires 4 <= k <= 8
    ensures Pow(2, k) == (if k == 4 then 16 else if k == 5 then 32 else if k == 6 then 64 else if k == 7 then 128 else 256)
    ensures Pow(2, 8 - k) == (if k == 4 then 16 else if k == 5 then 8 else if k == 6 then 4 else if k == 7 then 2 else 1)
  {
    assert Pow(2, 0) == 1 && Pow(2, 1) == 2 && Pow(2, 2) == 4 && Pow(2, 3) == 8 && Pow(2, 4) == 16;
    assert Pow(2, 5) == 32 && Pow(2, 6) == 64 && Pow(2, 7) == 128 && Pow(2, 8) == 256;
  }

  // The last bits of the number are the last bits of the last word.
  lemma LastBits(indices: seq<nat>, k: nat)
    requires indices != [] && 4 <= k <= 8
    ensures Pow(2, k) > 0 && Val(indices, 2048) % Pow(2, k) == indices[|indices| - 1] % Pow(2, k)
  {
    SmallPowers(k);
    var q, last, m := Val(indices[..|indices| - 1], 2048), indices[|indices| - 1], Pow(2, k);
    hide *;
    ValSnoc(indices[..|indices| - 1], last, 2048);
    assert indices == indices[..|indices| - 1] + [last];
    var t := if m == 16 then 128 else if m == 32 then 64 else if m == 64 then 32 else if m == 128 then 16 else 8;
    WholeMultiple(q, t, m, last);
  }

  lemma WholeMultiple(q: nat, t: nat, m: nat, last: nat)
    requires m > 0 && t * m == 2048
    ensures (q * 2048 + last) % m == last % m
  {
    var a, b := last / m, last % m;
    assert last == a * m + b;
    assert q * 2048 == q * (t * m) == (q * t) * m;
    assert (q * t + a) * m == (q * t) * m + a * m;
    DivModUnique(q * t + a, m, b);
  }

  lemma {:induction false} BigEndianIsVal(s: bytes)
    ensures BigEndian(s) == Val(s, 256)
  {
    if s != [] {
      BigEndianIsVal(s[..|s| - 1]);
    }
  }

  /**
   Acceptance as BIP-39 has it.  Listed words of a valid count n are 11 bits each, the first word leading.  All but the
   last n / 3 bits are the entropy, big-endian; and the words are accepted exactly when those last bits, which are
   the last ones of the last word, are the leading bits of the hash byte.
   */
  lemma AcceptedIffLeadingBits(list: seq<string>, sha: bytes -> byte, words: seq<string>)
    requires |list| == 2048 && ValidCount(|words|) && AllListed(list, words)
    ensures var n, k := |words|, |words| / 3;
            var indices := Indices(list, words);
            var e := MnemonicBytes(list, sha, words, true).entropy;
            && MnemonicBytes(list, sha, words, true) == Ok(e)
            && |e| == 4 * k
            && Pow(2, k) > 0
            && var c := indices[n - 1] % Pow(2, k);
            && BigEndian(e) * Pow(2, k) + c == Val(indices, 2048)
            && (MnemonicBytes(list, sha, words, false) == Ok(e) <==>
                c * Pow(2, 8 - k) <= sha(e) < (c + 1) * Pow(2, 8 - k))
            && (MnemonicBytes(list, sha, words, false) != Ok(e) ==> MnemonicBytes(list, sha, words, false) == ChecksumFailed)
  {
    hide Val, ToDigits, Index;
    var n, k := |words|, |words| / 3;
    var indices := Indices(list, words);
    var acc := Val(indices, 2048);
    ValBound(indices, 2048);
    SplitFits(acc, n);
    LastBits(indices, k);
    var (e, checksum) := Split(acc, n);
    BigEndianIsVal(e);
    DivModSum(acc, Pow(2, k));
    LeadingBits(sha(e), checksum, k);
  }

  lemma LeadingBits(hash: byte, c: nat, k: nat)
    requires 4 <= k <= 8
    ensures Pow(2, 8 - k) > 0 && (hash / Pow(2, 8 - k) == c <==> c * Pow(2, 8 - k) <= hash < (c + 1) * Pow(2, 8 - k))
  {
    SmallPowers(k);
    hide Pow;
  }
}
