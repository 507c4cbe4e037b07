/**
 The CBC object of the host flasher (package/ktool.py:268-297; section 6.2 of NIST SP 800-38A)
 and the encryption of a firmware image with it (package/ktool.py:1166-1170).
 */
module Cbc {
  import Bytes
  import opened AesColumns
  import opened AesSpec
  import opened Aes

  function XorBlock(a: Block, b: Block): Block {
    seq(16, i requires 0 <= i < 16 => XorByte(a[i], b[i]))
  }

  function EncryptBlocks(key: seq<bv8>, iv: Block, blocks: seq<Block>): (r: seq<Block>)
    requires IsKey(key)
    ensures |r| == |blocks|
    decreases |blocks|
  {
    if blocks == [] then []
    else
      var c := Cipher(key, XorBlock(blocks[0], iv));
      [c] + EncryptBlocks(key, c, blocks[1..])
  }

  function DecryptBlocks(key: seq<bv8>, iv: Block, blocks: seq<Block>): (r: seq<Block>)
    requires IsKey(key)
    ensures |r| == |blocks|
    decreases |blocks|
  {
    if blocks == [] then []
    else
      [XorBlock(InvCipher(key, blocks[0]), iv)] + DecryptBlocks(key, blocks[0], blocks[1..])
  }

  lemma XorByteCancels(x: bv8, y: bv8)
    ensures XorByte(XorByte(x, y), y) == x
  {
  }

  lemma XorBlockCancels(a: Block, b: Block)
    ensures XorBlock(XorBlock(a, b), b) == a
  {
    hide XorByte;
    forall i | 0 <= i < 16
      ensures XorBlock(XorBlock(a, b), b)[i] == a[i]
    {
      XorByteCancels(a[i], b[i]);
    }
  }

  /** CBC decryption undoes CBC encryption over any number of blocks from the same IV. */
  lemma {:induction false} DecryptAfterEncrypt(key: seq<bv8>, iv: Block, blocks: seq<Block>)
    requires IsKey(key)
    ensures DecryptBlocks(key, iv, EncryptBlocks(key, iv, blocks)) == blocks
    decreases |blocks|
  {
    hide Cipher, InvCipher, XorBlock;
    if blocks != [] {
      var x := XorBlock(blocks[0], iv);
      var c := Cipher(key, x);
      InvCipherAfterCipher(key, x);
      XorBlockCancels(blocks[0], iv);
      DecryptAfterEncrypt(key, c, blocks[1..]);
      assert EncryptBlocks(key, iv, blocks)[1..] == EncryptBlocks(key, c, blocks[1..]);
    }
  }

  lemma {:induction false} EncryptAppend(key: seq<bv8>, iv: Block, blocks: seq<Block>, b: Block)
    requires IsKey(key)
    ensures var done := EncryptBlocks(key, iv, blocks);
            var last := if done == [] then iv else done[|done| - 1];
            EncryptBlocks(key, iv, blocks + [b]) == done + [Cipher(key, XorBlock(b, last))]
    decreases |blocks|
  {
    hide Cipher, XorBlock;
    if blocks == [] {
      assert blocks + [b] == [b];
    } else {
      var c := Cipher(key, XorBlock(blocks[0], iv));
      assert (blocks + [b])[1..] == blocks[1..] + [b];
      EncryptAppend(key, c, blocks[1..], b);
    }
  }

  /** The chain, byte by byte: every block is added to the ciphertext before it, the first one to the IV. */
  lemma {:induction false} BlocksAreChained(key: seq<bv8>, iv: Block, blocks: seq<Block>, i: nat)
    requires IsKey(key) && i < |blocks|
    ensures var c := EncryptBlocks(key, iv, blocks);
            var previous: Block := if i == 0 then iv else c[i - 1];
            var sum: Block := seq(16, j requires 0 <= j < 16 => blocks[i][j] ^ previous[j]);
            c[i] == Cipher(key, sum)
    decreases i
  {
    hide Cipher;
    var c := EncryptBlocks(key, iv, blocks);
    if i > 0 {
      BlocksAreChained(key, c[0], blocks[1..], i - 1);
      assert c[1..] == EncryptBlocks(key, c[0], blocks[1..]);
    } else {
      var sum: Block := seq(16, j requires 0 <= j < 16 => blocks[i][j] ^ iv[j]);
      assert XorBlock(blocks[0], iv) == sum;
    }
  }

  // ---------------------------------------------------------------- the object

  class AES_128_CBC {
    const aes: AES
    var lastCipherblock: Block

    ghost predicate Valid()
      reads this, aes, aes.ke, aes.kd
    {
      aes.Valid()
    }

    constructor (aes: AES, iv: Block)
      requires aes.Valid()
      ensures Valid() && this.aes == aes && lastCipherblock == iv
    {
      this.aes, lastCipherblock := aes, iv;
    }

    // Construction as the caller sees it: key length first, then the IV, which defaults to zeros.
    static method Create(key: seq<bv8>, iv: Bytes.Option<seq<bv8>>) returns (r: Result<AES_128_CBC>)
      ensures r.Ok? <==> IsKey(key) && (iv.None? || |iv.value| == 16)
      ensures r.Ok? ==>
                && fresh(r.value) && r.value.Valid() && r.value.aes.key == key
                && r.value.lastCipherblock == if iv.None? then ZERO_BLOCK else iv.value
    {
      if !IsKey(key) {
        return ValueError("Invalid key size");
      }
      var aes := new AES(key);
      if iv.None? {
        var c := new AES_128_CBC(aes, ZERO_BLOCK);
        return Ok(c);
      } else if |iv.value| != 16 {
        return ValueError("initialization vector must be 16 bytes");
      }
      var c := new AES_128_CBC(aes, iv.value);
      return Ok(c);
    }

    method Encrypt(plaintext: seq<bv8>) returns (r: Result<seq<bv8>>)
      requires Valid()
      modifies this`lastCipherblock
      ensures r.ValueError? <==> |plaintext| != 16
      ensures r.ValueError? ==> lastCipherblock == old(lastCipherblock)
      ensures r.Ok? ==> |r.value| == 16 && r.value == Cipher(aes.key, XorBlock(plaintext, old(lastCipherblock)))
      ensures r.Ok? ==> lastCipherblock == r.value
    {
      hide Cipher, XorBlock;
      if |plaintext| != 16 {
        return ValueError("plaintext block must be 16 bytes");
      }
      var c := aes.Encrypt(XorBlock(plaintext, lastCipherblock));
      lastCipherblock := c.value;
      r := Ok(c.value);
    }

    method Decrypt(ciphertext: seq<bv8>) returns (r: Result<seq<bv8>>)
      requires Valid()
      modifies this`lastCipherblock
      ensures r.ValueError? <==> |ciphertext| != 16
      ensures r.ValueError? ==> lastCipherblock == old(lastCipherblock)
      ensures r.Ok? ==> |r.value| == 16 && r.value == XorBlock(InvCipher(aes.key, ciphertext), old(lastCipherblock))
      ensures r.Ok? ==> lastCipherblock == ciphertext
    {
      hide InvCipher, XorBlock;
      if |ciphertext| != 16 {
        return ValueError("ciphertext block must be 16 bytes");
      }
      var p := aes.Decrypt(ciphertext);
      r := Ok(XorBlock(p.value, lastCipherblock));
      lastCipherblock := ciphertext;
    }
  }

  const ZERO_BLOCK: Block := [0, 0, 0, 0, 0, 0, 0, 0, 0, 0, 0, 0, 0, 0, 0, 0]

  // ---------------------------------------------------------------- a whole image

  function Zeros(n: nat): seq<bv8> { Bytes.Repeat<bv8>(0, n) }

  // The image zero-filled to whole blocks.
  function Filled16(image: seq<bv8>): (r: seq<bv8>)
    ensures |r| % 16 == 0 && |r| < |image| + 16 && image <= r
  {
    image + Zeros((16 - |image| % 16) % 16)
  }

  function Concat(blocks: seq<Block>): (r: seq<bv8>)
    ensures |r| == 16 * |blocks|
  {
    if blocks == [] then [] else Concat(blocks[..|blocks| - 1]) + blocks[|blocks| - 1]
  }

  lemma ConcatSnoc(blocks: seq<Block>, b: Block)
    ensures Concat(blocks + [b]) == Concat(blocks) + b
  {
    assert (blocks + [b])[..|blocks|] == blocks;
  }

  function WholeBlocks(s: seq<bv8>, n: nat): (r: seq<Block>)
    requires 16 * n <= |s|
    ensures |r| == n
  {
    seq(n, i requires 0 <= i < n => s[16 * i..16 * i + 16])
  }

  lemma {:induction false} ConcatWhole(s: seq<bv8>, n: nat)
    requires 16 * n <= |s|
    ensures Concat(WholeBlocks(s, n)) == s[..16 * n]
  {
    if n > 0 {
      ConcatWhole(s, n - 1);
      var b := s[16 * (n - 1)..16 * n];
      assert WholeBlocks(s, n) == WholeBlocks(s, n - 1) + [b];
      ConcatSnoc(WholeBlocks(s, n - 1), b);
    }
  }

  lemma FilledByFifteen(image: seq<bv8>)
    ensures (image + Zeros(15))[..16 * ((|image| + 15) / 16)] == Filled16(image)
  {
  }

  /** Encrypting block after block on one object is CBC encryption from the block it was left with. */
  method EncryptAll(cbc: AES_128_CBC, blocks: seq<Block>) returns (out: seq<bv8>)
    requires cbc.Valid()
    modifies cbc
    ensures cbc.Valid() && out == Concat(EncryptBlocks(cbc.aes.key, old(cbc.lastCipherblock), blocks))
  {
    hide Cipher, XorBlock, Concat;
    ghost var iv := cbc.lastCipherblock;
    ghost var done: seq<Block> := [];
    out := [];
    assert blocks[..0] == [] && Concat([]) == [] by {
      EmptyConcat();
    }
    for i := 0 to |blocks|
      invariant cbc.Valid() && |done| == i
      invariant done == EncryptBlocks(cbc.aes.key, iv, blocks[..i]) && out == Concat(done)
      invariant cbc.lastCipherblock == if done == [] then iv else done[i - 1]
    {
      hide EncryptBlocks;
      EncryptAppend(cbc.aes.key, iv, blocks[..i], blocks[i]);
      assert blocks[..i + 1] == blocks[..i] + [blocks[i]];
      var c := cbc.Encrypt(blocks[i]);
      ConcatSnoc(done, c.value);
      done := done + [c.value];
      out := out + c.value;
    }
    assert blocks[..|blocks|] == blocks;
  }

  lemma EmptyConcat()
    ensures Concat([]) == []
  {
  }

  /**
   The flasher encrypts an image by appending fifteen zeros and taking every whole block.
   The result is the CBC encryption of the image zero-filled to whole blocks, and nothing else.
   */
  method EncryptImage(key: seq<bv8>, image: seq<bv8>) returns (r: Result<seq<bv8>>, ghost plain: seq<Block>)
    ensures r.Ok? <==> IsKey(key)
    ensures r.Ok? ==> Concat(plain) == Filled16(image)
    ensures r.Ok? ==> r.value == Concat(EncryptBlocks(key, ZERO_BLOCK, plain))
  {
    hide EncryptBlocks, Concat, Filled16;
    var enc := AES_128_CBC.Create(key, Bytes.Some(ZERO_BLOCK));
    if enc.ValueError? {
      return ValueError("Invalid key size"), [];
    }
    var padded := image + Zeros(15);
    var blocks := WholeBlocks(padded, |padded| / 16);
    ConcatWhole(padded, |padded| / 16);
    FilledByFifteen(image);
    var out := EncryptAll(enc.value, blocks);
    return Ok(out), blocks;
  }
}
