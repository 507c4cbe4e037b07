/** Literal instances of the formats: what goes over the wire, onto the card and into a QR code. */
module Examples {
  import Base32
  import BaseConv
  import Decimal
  import Positional
  import QrTransport
  import Slip
  import VaultFiles
  import opened Bytes

  /** A SLIP frame with both special bytes in it. */
  lemma SlipFrame()
    ensures Slip.Frame([0xc0, 0x01, 0xdb]) == [0xc0, 0xdb, 0xdc, 0x01, 0xdb, 0xdd, 0xc0]
  {
    var p: bytes := [0xc0, 0x01, 0xdb];
    Slip.EscapeIsOnePass(p);
    Slip.EscapeIsOnePass(p[1..]);
    Slip.EscapeIsOnePass(p[1..][1..]);
    Slip.EscapeIsOnePass([]);
    hide Slip.Escape;
    assert p[1..] == [0x01, 0xdb] && p[1..][1..] == [0xdb] && p[1..][1..][1..] == [];
    assert Slip.Escape([0xdb]) == [0xdb, 0xdd];
    assert Slip.Escape([0x01, 0xdb]) == [0x01, 0xdb, 0xdd];
  }

  /** Headers of both frame formats. */
  lemma FrameHeaders()
    ensures QrTransport.PMofNHeader(0, 3) == "p1of3 " && QrTransport.PMofNHeader(11, 100) == "p12of100 "
    ensures QrTransport.BBQrFrame('2', 'P', "", 40, 8, 10) == "B$2P140A"
  {
    assert Decimal.ToDecimal(1) == "1" && Decimal.ToDecimal(3) == "3";
    assert Decimal.ToDecimal(10) == "10";
    assert Decimal.ToDecimal(12) == "12" && Decimal.ToDecimal(100) == "100";
  }

  /** Paths on the card and on the mirror. */
  lemma Paths()
    ensures VaultFiles.SdPath(VaultFiles.Secret("001")) == "vault/secrets/001.kef"
    ensures VaultFiles.FlashPath(VaultFiles.Secret("001")) == "/flash/vault/secrets/001.kef"
    ensures VaultFiles.SdPath(VaultFiles.Manifest) == "vault/manifest.kef"
    ensures VaultFiles.FlashPath(VaultFiles.Manifest) == "/flash/vault/manifest.kef"
    ensures VaultFiles.SdPath(VaultFiles.Meta) == "vault/vault.meta"
    ensures VaultFiles.FlashPath(VaultFiles.Meta) == "/flash/vault/vault.meta"
  {
  }

  /** Test vector of section 10 of RFC 4648: "f" is MY. */
  lemma Base32Vector()
    ensures Base32.Encoded([0x66]) == "MY"
  {
    Filled66();
    Quints66();
    hide Base32.FilledBits, Base32.Ungroup;
    Base32.Widths();
    assert Base32.CharOf(12) == 'M' && Base32.CharOf(24) == 'Y';
  }

  lemma Filled66()
    ensures Base32.FilledBits([0x66]) == [0, 1, 1, 0, 0, 1, 1, 0, 0, 0]
  {
    Bits66();
    Base32.SingleGroup(0x66, 8);
    hide Base32.Group, Base32.ToBits;
    assert Base32.Zeros(2) == [0, 0];
  }

  lemma Bits66()
    ensures Base32.ToBits(0x66, 8) == [0, 1, 1, 0, 0, 1, 1, 0]
  {
    assert Base32.ToBits(1, 2) == [0, 1];
    assert Base32.ToBits(6, 4) == [0, 1, 1, 0];
    assert Base32.ToBits(0x19, 6) == [0, 1, 1, 0, 0, 1];
  }

  lemma Quints66()
    ensures Base32.Ungroup([0, 1, 1, 0, 0, 1, 1, 0, 0, 0], 5) == [12, 24]
  {
    var a: Base32.bits, b: Base32.bits := [0, 1, 1, 0, 0], [1, 1, 0, 0, 0];
    OneQuint(a);
    OneQuint(b);
    Base32.UngroupConcat(1, a, b, 5);
    assert a + b == [0, 1, 1, 0, 0, 1, 1, 0, 0, 0];
    FiveBits(a);
    FiveBits(b);
  }

  lemma OneQuint(b: Base32.bits)
    requires |b| == 5
    ensures Base32.Ungroup(b, 5) == [Base32.Val(b)]
  {
    assert b[..5] == b && b[5..] == [];
  }

  lemma FiveBits(b: Base32.bits)
    requires |b| == 5
    ensures Base32.Val(b) == 16 * b[0] as int + 8 * b[1] as int + 4 * b[2] as int + 2 * b[3] as int + b[4] as int
  {
    assert b[..4][..3] == b[..3] && b[..3][..2] == b[..2] && b[..2][..1] == b[..1] && b[..1][..0] == [];
    assert Base32.Val(b[..1]) == b[0] as int && Base32.Val(b[..2]) == 2 * b[0] as int + b[1] as int;
    assert Base32.Val(b[..3]) == 4 * b[0] as int + 2 * b[1] as int + b[2] as int;
  }

  /** Base58 writes 255 as 5Q, and a leading zero byte as 1. */
  lemma Base58Vectors()
    ensures BaseConv.Encoded(BaseConv.Base58, [0, 0xff]) == "15Q"
  {
    var v: bytes := [0, 0xff];
    assert v[..1] == [0] && v[..1][..0] == [] && v[1..] == [0xff] && v[1..][..0] == [];
    assert Positional.Val(v, 256) == 255 by {
      assert Positional.Val(v[..1], 256) == 0;
    }
    assert Positional.Digits(255, 58) == [4, 23] by {
      assert 255 / 58 == 4 && 255 % 58 == 23;
      assert Positional.Digits(4, 58) == [4];
    }
    assert Positional.LeadingZeros(v) == 1;
    assert Positional.Convert(v, 256, 58) == [0, 4, 23];
  }
}
