/**
 The cipher and its equivalent inverse as functions of the key (FIPS 197, sections 5.1,
 5.2 and 5.3.5), and the theorem that the second undoes the first.
 */
module AesSpec {
  import opened SBox
  import opened AesColumns

  type Block = b: seq<bv8> | |b| == 16 witness [0, 0, 0, 0, 0, 0, 0, 0, 0, 0, 0, 0, 0, 0, 0, 0]
  type State = s: seq<Column> | |s| == 4 witness [0, 0, 0, 0]

  predicate IsKey(key: seq<bv8>) {
    |key| == 16 || |key| == 24 || |key| == 32
  }

  function Rounds(key: seq<bv8>): (n: nat)
    requires IsKey(key)
  {
    |key| / 4 + 6
  }

  // ---------------------------------------------------------------- key schedule

  function SubWord(w: Column): Column { Pack(S(B0(w)), S(B1(w)), S(B2(w)), S(B3(w))) }

  function RotWord(w: Column): Column { Pack(B1(w), B2(w), B3(w), B0(w)) }

  // Round constants: the powers of x in GF(2^8).
  function Rcon(i: nat): bv8 {
    if i == 0 then 1 else Xtime(Rcon(i - 1))
  }

  function RconWord(i: nat): Column { Pack(Rcon(i), 0, 0, 0) }

  /** Word i of the expanded key (section 5.2). */
  function W(key: seq<bv8>, i: nat): Column
    requires IsKey(key)
    decreases i
  {
    var nk := |key| / 4;
    if i < nk then
      Pack(key[4 * i], key[4 * i + 1], key[4 * i + 2], key[4 * i + 3])
    else
      var temp := W(key, i - 1);
      Add(W(key, i - nk),
          if i % nk == 0 then Add(SubWord(RotWord(temp)), RconWord(i / nk - 1))
          else if nk > 6 && i % nk == 4 then SubWord(temp)
          else temp)
  }

  /** Word c of decryption round key r: the schedule reversed, inner rounds through InvMixColumns. */
  function D(key: seq<bv8>, r: nat, c: nat): Column
    requires IsKey(key) && r <= Rounds(key)
  {
    var w := W(key, 4 * (Rounds(key) - r) + c);
    if r == 0 || r == Rounds(key) then w else InvMixColumn(w)
  }

  // ---------------------------------------------------------------- state

  function ToState(b: Block): State {
    [Pack(b[0], b[1], b[2], b[3]), Pack(b[4], b[5], b[6], b[7]),
     Pack(b[8], b[9], b[10], b[11]), Pack(b[12], b[13], b[14], b[15])]
  }

  function ColumnBytes(w: Column): (r: seq<bv8>)
    ensures |r| == 4
  {
    [B0(w), B1(w), B2(w), B3(w)]
  }

  // The bytes of the first n columns.
  function FirstBytes(s: State, n: nat): (r: seq<bv8>)
    requires n <= 4
    ensures |r| == 4 * n
  {
    if n == 0 then [] else FirstBytes(s, n - 1) + ColumnBytes(s[n - 1])
  }

  function ToBlock(s: State): Block { FirstBytes(s, 4) }

  function AddState(s: State, k: State): State {
    [Add(s[0], k[0]), Add(s[1], k[1]), Add(s[2], k[2]), Add(s[3], k[3])]
  }

  function EncKey(key: seq<bv8>, r: nat): State
    requires IsKey(key)
  {
    [W(key, 4 * r), W(key, 4 * r + 1), W(key, 4 * r + 2), W(key, 4 * r + 3)]
  }

  function DecKey(key: seq<bv8>, r: nat): State
    requires IsKey(key) && r <= Rounds(key)
  {
    [D(key, r, 0), D(key, r, 1), D(key, r, 2), D(key, r, 3)]
  }

  function Mix(s: State): State {
    [MixColumn(s[0]), MixColumn(s[1]), MixColumn(s[2]), MixColumn(s[3])]
  }

  function InvMix(s: State): State {
    [InvMixColumn(s[0]), InvMixColumn(s[1]), InvMixColumn(s[2]), InvMixColumn(s[3])]
  }

  // SubBytes then ShiftRows: row j of column i comes from column i + j.
  function ShiftSubColumn(w0: Column, w1: Column, w2: Column, w3: Column): Column {
    Pack(S(B0(w0)), S(B1(w1)), S(B2(w2)), S(B3(w3)))
  }

  function ShiftSub(s: State): State {
    [ShiftSubColumn(s[0], s[1], s[2], s[3]), ShiftSubColumn(s[1], s[2], s[3], s[0]),
     ShiftSubColumn(s[2], s[3], s[0], s[1]), ShiftSubColumn(s[3], s[0], s[1], s[2])]
  }

  // InvSubBytes then InvShiftRows: row j of column i comes from column i - j.
  function InvShiftSubColumn(w0: Column, w1: Column, w2: Column, w3: Column): Column {
    Pack(Si(B0(w0)), Si(B1(w1)), Si(B2(w2)), Si(B3(w3)))
  }

  function InvShiftSub(s: State): State {
    [InvShiftSubColumn(s[0], s[3], s[2], s[1]), InvShiftSubColumn(s[1], s[0], s[3], s[2]),
     InvShiftSubColumn(s[2], s[1], s[0], s[3]), InvShiftSubColumn(s[3], s[2], s[1], s[0])]
  }

  // ---------------------------------------------------------------- cipher

  /** State of the cipher after round r. */
  function Forward(key: seq<bv8>, b: Block, r: nat): State
    requires IsKey(key)
    decreases r
  {
    if r == 0 then AddState(ToState(b), EncKey(key, 0))
    else AddState(Mix(ShiftSub(Forward(key, b, r - 1))), EncKey(key, r))
  }

  function Cipher(key: seq<bv8>, b: Block): Block
    requires IsKey(key)
  {
    ToBlock(AddState(ShiftSub(Forward(key, b, Rounds(key) - 1)), EncKey(key, Rounds(key))))
  }

  /** State of the equivalent inverse cipher after round r. */
  function Backward(key: seq<bv8>, b: Block, r: nat): State
    requires IsKey(key) && r < Rounds(key)
    decreases r
  {
    if r == 0 then AddState(ToState(b), DecKey(key, 0))
    else AddState(InvMix(InvShiftSub(Backward(key, b, r - 1))), DecKey(key, r))
  }

  function InvCipher(key: seq<bv8>, b: Block): Block
    requires IsKey(key)
  {
    ToBlock(AddState(InvShiftSub(Backward(key, b, Rounds(key) - 1)), DecKey(key, Rounds(key))))
  }

  // ---------------------------------------------------------------- the inverse theorem

  lemma ByteOfBlock(s: State, n: nat, i: nat)
    requires i < n <= 4
    ensures FirstBytes(s, n)[4 * i..4 * i + 4] == ColumnBytes(s[i])
  {
    hide ColumnBytes;
    if i < n - 1 {
      ByteOfBlock(s, n - 1, i);
      assert FirstBytes(s, n)[4 * i..4 * i + 4] == FirstBytes(s, n - 1)[4 * i..4 * i + 4];
    }
  }

  lemma StateOfBlock(s: State)
    ensures ToState(ToBlock(s)) == s
  {
    hide Pack, B0, B1, B2, B3, FirstBytes;
    var b := ToBlock(s);
    forall i | 0 <= i < 4
      ensures Pack(b[4 * i], b[4 * i + 1], b[4 * i + 2], b[4 * i + 3]) == s[i]
    {
      ByteOfBlock(s, 4, i);
      var c := b[4 * i..4 * i + 4];
      assert c == ColumnBytes(s[i]);
      assert c[0] == b[4 * i] && c[1] == b[4 * i + 1] && c[2] == b[4 * i + 2] && c[3] == b[4 * i + 3];
      PackBytes(0, 0, 0, 0, s[i]);
    }
  }

  lemma ColumnBytesOfPack(p: bv8, q: bv8, r: bv8, s: bv8)
    ensures ColumnBytes(Pack(p, q, r, s)) == [p, q, r, s]
  {
    hide Pack, B0, B1, B2, B3;
    PackBytes(p, q, r, s, 0);
  }

  lemma AllFourColumns(s: State)
    ensures ToBlock(s) == ColumnBytes(s[0]) + ColumnBytes(s[1]) + ColumnBytes(s[2]) + ColumnBytes(s[3])
  {
    hide ColumnBytes;
    assert FirstBytes(s, 1) == ColumnBytes(s[0]);
    assert FirstBytes(s, 2) == ColumnBytes(s[0]) + ColumnBytes(s[1]);
    assert FirstBytes(s, 3) == ColumnBytes(s[0]) + ColumnBytes(s[1]) + ColumnBytes(s[2]);
  }

  lemma BlockOfState(b: Block)
    ensures ToBlock(ToState(b)) == b
  {
    hide Pack, ColumnBytes, ToBlock;
    AllFourColumns(ToState(b));
    ColumnBytesOfPack(b[0], b[1], b[2], b[3]);
    ColumnBytesOfPack(b[4], b[5], b[6], b[7]);
    ColumnBytesOfPack(b[8], b[9], b[10], b[11]);
    ColumnBytesOfPack(b[12], b[13], b[14], b[15]);
  }

  lemma InvShiftSubOfColumn(w: Column, p: Column, q: Column, r: Column, x: Column)
    requires B0(p) == S(B0(w)) && B1(q) == S(B1(w)) && B2(r) == S(B2(w)) && B3(x) == S(B3(w))
    ensures InvShiftSubColumn(p, q, r, x) == w
  {
    hide S, Si, Pack, B0, B1, B2, B3;
    Inverse(B0(w));
    Inverse(B1(w));
    Inverse(B2(w));
    Inverse(B3(w));
    PackBytes(0, 0, 0, 0, w);
  }

  lemma BytesOfShiftSub(w0: Column, w1: Column, w2: Column, w3: Column)
    ensures B0(ShiftSubColumn(w0, w1, w2, w3)) == S(B0(w0)) && B1(ShiftSubColumn(w0, w1, w2, w3)) == S(B1(w1))
    ensures B2(ShiftSubColumn(w0, w1, w2, w3)) == S(B2(w2)) && B3(ShiftSubColumn(w0, w1, w2, w3)) == S(B3(w3))
  {
    hide S, Pack, B0, B1, B2, B3;
    PackBytes(S(B0(w0)), S(B1(w1)), S(B2(w2)), S(B3(w3)), 0);
  }

  lemma InvShiftSubAfterShiftSub(s: State)
    ensures InvShiftSub(ShiftSub(s)) == s
  {
    hide S, Si, Pack, B0, B1, B2, B3, ShiftSubColumn, InvShiftSubColumn;
    BytesOfShiftSub(s[0], s[1], s[2], s[3]);
    BytesOfShiftSub(s[1], s[2], s[3], s[0]);
    BytesOfShiftSub(s[2], s[3], s[0], s[1]);
    BytesOfShiftSub(s[3], s[0], s[1], s[2]);
    var u := ShiftSub(s);
    InvShiftSubOfColumn(s[0], u[0], u[3], u[2], u[1]);
    InvShiftSubOfColumn(s[1], u[1], u[0], u[3], u[2]);
    InvShiftSubOfColumn(s[2], u[2], u[1], u[0], u[3]);
    InvShiftSubOfColumn(s[3], u[3], u[2], u[1], u[0]);
  }

  lemma AddTwice(s: State, k: State)
    ensures AddState(AddState(s, k), k) == s
  {
    hide Add;
    AddCancels(s[0], k[0]);
    AddCancels(s[1], k[1]);
    AddCancels(s[2], k[2]);
    AddCancels(s[3], k[3]);
  }

  lemma InvMixOfColumn(w: Column, k: Column)
    ensures InvMixColumn(Add(MixColumn(w), k)) == Add(w, InvMixColumn(k))
  {
    hide MixColumn, InvMixColumn, Add;
    InvMixIsLinear(MixColumn(w), k);
    InvMixAfterMix(w);
  }

  lemma InvMixOfRound(s: State, k: State)
    ensures InvMix(AddState(Mix(s), k)) == AddState(s, InvMix(k))
  {
    hide MixColumn, InvMixColumn, Add;
    InvMixOfColumn(s[0], k[0]);
    InvMixOfColumn(s[1], k[1]);
    InvMixOfColumn(s[2], k[2]);
    InvMixOfColumn(s[3], k[3]);
  }

  lemma DecKeyOfEncKey(key: seq<bv8>, r: nat)
    requires IsKey(key) && r <= Rounds(key)
    ensures DecKey(key, r) ==
            if r == 0 || r == Rounds(key) then EncKey(key, Rounds(key) - r) else InvMix(EncKey(key, Rounds(key) - r))
  {
    hide W, InvMixColumn;
  }

  /** Decryption retraces encryption: after round r it holds the substituted state r rounds from the end. */
  lemma {:induction false} BackwardRetracesForward(key: seq<bv8>, b: Block, r: nat)
    requires IsKey(key) && r < Rounds(key)
    ensures Backward(key, Cipher(key, b), r) == ShiftSub(Forward(key, b, Rounds(key) - 1 - r))
  {
    hide Mix, InvMix, ShiftSub, InvShiftSub, AddState, EncKey, DecKey, ToBlock, ToState;
    var n := Rounds(key);
    DecKeyOfEncKey(key, r);
    if r == 0 {
      StateOfBlock(AddState(ShiftSub(Forward(key, b, n - 1)), EncKey(key, n)));
      AddTwice(ShiftSub(Forward(key, b, n - 1)), EncKey(key, n));
    } else {
      BackwardRetracesForward(key, b, r - 1);
      var t := Forward(key, b, n - r);
      var before := ShiftSub(Forward(key, b, n - 1 - r));
      InvShiftSubAfterShiftSub(t);
      InvMixOfRound(before, EncKey(key, n - r));
      AddTwice(before, InvMix(EncKey(key, n - r)));
    }
  }

  /** AES block inverse: for every legal key, decryption undoes encryption on every block. */
  lemma {:induction false} InvCipherAfterCipher(key: seq<bv8>, b: Block)
    requires IsKey(key)
    ensures InvCipher(key, Cipher(key, b)) == b
  {
    hide Cipher, Backward, Mix, InvMix, ShiftSub, InvShiftSub, AddState, EncKey, DecKey, ToBlock, ToState;
    var n := Rounds(key);
    BackwardRetracesForward(key, b, n - 1);
    InvShiftSubAfterShiftSub(Forward(key, b, 0));
    DecKeyOfEncKey(key, n);
    AddTwice(ToState(b), EncKey(key, 0));
    BlockOfState(b);
  }
}
