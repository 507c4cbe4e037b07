/**
 A round of the cipher written out in bytes (section 5.1 of FIPS 197): every byte of every column from the bytes of
 the round before, without the steps it is made of; and the first words of two key schedules.
 */
module AesRounds {
  import opened SBox
  import opened AesColumns
  import opened AesSpec

  // Three times a byte, and the sum of four.
  function Times3(a: bv8): bv8 { XorByte(Xtime(a), a) }

  function Sum4(a: bv8, b: bv8, c: bv8, d: bv8): bv8 { XorByte(XorByte(XorByte(a, b), c), d) }

  lemma AddOfPacks(a: bv8, b: bv8, c: bv8, d: bv8, a': bv8, b': bv8, c': bv8, d': bv8)
    ensures Add(Pack(a, b, c, d), Pack(a', b', c', d')) == Pack(XorByte(a, a'), XorByte(b, b'), XorByte(c, c'), XorByte(d, d'))
  {
  }

  /** MixColumns on four bytes: the matrix product of section 5.1.3. */
  lemma MixOfFour(a: bv8, b: bv8, c: bv8, d: bv8)
    ensures MixColumn(Pack(a, b, c, d)) ==
            Pack(Sum4(Xtime(a), Times3(b), c, d), Sum4(a, Xtime(b), Times3(c), d),
                 Sum4(a, b, Xtime(c), Times3(d)), Sum4(Times3(a), b, c, Xtime(d)))
  {
    MixOfOneByte(a);
    MixOfOneByte(b);
    MixOfOneByte(c);
    MixOfOneByte(d);
    MixByBytes(a, b, c, d);
    hide Add, Pack, MixColumn, Xtime, XorByte;
    AddOfPacks(Xtime(a), a, a, Times3(a), Times3(b), Xtime(b), b, b);
    AddOfPacks(XorByte(Xtime(a), Times3(b)), XorByte(a, Xtime(b)), XorByte(a, b), XorByte(Times3(a), b),
               c, Times3(c), Xtime(c), c);
    AddOfPacks(XorByte(XorByte(Xtime(a), Times3(b)), c), XorByte(XorByte(a, Xtime(b)), Times3(c)),
               XorByte(XorByte(a, b), Xtime(c)), XorByte(XorByte(Times3(a), b), c), d, d, Times3(d), Xtime(d));
  }

  // Row r of column c of a state.
  function ByteAt(s: State, r: nat, c: nat): bv8
    requires r < 4 && c < 4
  {
    match r
    case 0 => B0(s[c])
    case 1 => B1(s[c])
    case 2 => B2(s[c])
    case _ => B3(s[c])
  }

  // The substituted bytes that meet in column c: row r comes from column c + r.
  function Meets(s: State, r: nat, c: nat): bv8
    requires r < 4 && c < 4
  {
    S(ByteAt(s, r, (c + r) % 4))
  }

  lemma ShiftedColumn(s: State, c: nat)
    requires c < 4
    ensures ShiftSub(s)[c] == Pack(Meets(s, 0, c), Meets(s, 1, c), Meets(s, 2, c), Meets(s, 3, c))
  {
    hide S, Pack, B0, B1, B2, B3;
    if c == 0 {
      assert Meets(s, 3, 0) == S(B3(s[3]));
    } else if c == 1 {
      assert (1 + 3) % 4 == 0;
    } else if c == 2 {
      assert (2 + 2) % 4 == 0 && (2 + 3) % 4 == 1;
    } else {
      assert (3 + 1) % 4 == 0 && (3 + 2) % 4 == 1 && (3 + 3) % 4 == 2;
    }
  }

  // Addition of columns is exclusive or.
  lemma AddIsXor(v: Column, w: Column)
    ensures Add(v, w) == v ^ w
  {
  }

  lemma ColumnOfSum(s: State, k: State, c: nat)
    requires c < 4
    ensures AddState(s, k)[c] == Add(s[c], k[c]) && Mix(s)[c] == MixColumn(s[c])
  {
    hide Add, MixColumn;
    assert c == 0 || c == 1 || c == 2 || c == 3;
  }

  lemma KeyColumn(key: seq<bv8>, r: nat, c: nat)
    requires IsKey(key) && c < 4
    ensures EncKey(key, r)[c] == W(key, 4 * r + c)
  {
    hide W;
    assert c == 0 || c == 1 || c == 2 || c == 3;
  }

  // A column mixed from four bytes.
  function MixedColumn(a: bv8, b: bv8, c: bv8, d: bv8): Column {
    Pack(Sum4(Xtime(a), Times3(b), c, d), Sum4(a, Xtime(b), Times3(c), d),
         Sum4(a, b, Xtime(c), Times3(d)), Sum4(Times3(a), b, c, Xtime(d)))
  }

  lemma ForwardStep(key: seq<bv8>, block: Block, r: nat)
    requires IsKey(key) && r > 0
    ensures Forward(key, block, r) == AddState(Mix(ShiftSub(Forward(key, block, r - 1))), EncKey(key, r))
  {
    hide AddState, Mix, ShiftSub, EncKey;
  }

  /** An inner round: substitute, shift, mix and add the round key, byte by byte. */
  lemma RoundFormula(key: seq<bv8>, block: Block, r: nat, c: nat)
    requires IsKey(key) && 0 < r && c < 4
    ensures var s := Forward(key, block, r - 1);
            Forward(key, block, r)[c] ==
            Add(MixedColumn(Meets(s, 0, c), Meets(s, 1, c), Meets(s, 2, c), Meets(s, 3, c)), W(key, 4 * r + c))
  {
    hide *;
    var s := Forward(key, block, r - 1);
    ForwardStep(key, block, r);
    ColumnOfSum(Mix(ShiftSub(s)), EncKey(key, r), c);
    ColumnOfSum(ShiftSub(s), EncKey(key, r), c);
    KeyColumn(key, r, c);
    ShiftedColumn(s, c);
    MixedIs(Meets(s, 0, c), Meets(s, 1, c), Meets(s, 2, c), Meets(s, 3, c));
  }

  lemma MixedIs(a: bv8, b: bv8, c: bv8, d: bv8)
    ensures MixColumn(Pack(a, b, c, d)) == MixedColumn(a, b, c, d)
  {
    hide MixColumn, Pack, Sum4, Times3, Xtime;
    MixOfFour(a, b, c, d);
  }

  lemma FirstState(key: seq<bv8>, block: Block)
    requires IsKey(key)
    ensures Forward(key, block, 0) == AddState(ToState(block), EncKey(key, 0))
  {
    hide AddState, EncKey, ToState;
  }

  lemma BlockColumn(block: Block, c: nat)
    requires c < 4
    ensures ToState(block)[c] == Pack(block[4 * c], block[4 * c + 1], block[4 * c + 2], block[4 * c + 3])
  {
    hide Pack;
    assert c == 0 || c == 1 || c == 2 || c == 3;
  }

  lemma LastState(key: seq<bv8>, block: Block)
    requires IsKey(key)
    ensures var n := Rounds(key);
            ToState(Cipher(key, block)) == AddState(ShiftSub(Forward(key, block, n - 1)), EncKey(key, n))
  {
    hide AddState, EncKey, ToState, ShiftSub, Forward, ToBlock;
    var n := Rounds(key);
    StateOfBlock(AddState(ShiftSub(Forward(key, block, n - 1)), EncKey(key, n)));
  }

  /** The first key is added before the first round, and the last round does not mix. */
  lemma EndsFormula(key: seq<bv8>, block: Block, c: nat)
    requires IsKey(key) && c < 4
    ensures Forward(key, block, 0)[c] ==
            Add(Pack(block[4 * c], block[4 * c + 1], block[4 * c + 2], block[4 * c + 3]), W(key, c))
    ensures var n := Rounds(key);
            var s := Forward(key, block, n - 1);
            ToState(Cipher(key, block))[c] ==
            Add(Pack(Meets(s, 0, c), Meets(s, 1, c), Meets(s, 2, c), Meets(s, 3, c)), W(key, 4 * n + c))
  {
    hide Forward, W, EncKey, ToState, Cipher, AddState, ShiftSub, Meets, Pack, Add;
    var n := Rounds(key);
    var s := Forward(key, block, n - 1);
    FirstState(key, block);
    BlockColumn(block, c);
    ColumnOfSum(ToState(block), EncKey(key, 0), c);
    KeyColumn(key, 0, c);
    LastState(key, block);
    ShiftedColumn(s, c);
    ColumnOfSum(ShiftSub(s), EncKey(key, n), c);
    KeyColumn(key, n, c);
  }

  // ---------------------------------------------------------------- key schedules

  // One word of the schedule from what came before.
  lemma WordStep(key: seq<bv8>, i: nat)
    requires IsKey(key) && i >= |key| / 4
    ensures var nk := |key| / 4;
            var temp := W(key, i - 1);
            W(key, i) == Add(W(key, i - nk),
                             if i % nk == 0 then Add(SubWord(RotWord(temp)), RconWord(i / nk - 1))
                             else if nk > 6 && i % nk == 4 then SubWord(temp) else temp)
  {
    hide Add, SubWord, RotWord, RconWord;
  }

  /** The schedule starts with the key, four bytes a word. */
  lemma FirstWords(key: seq<bv8>, i: nat)
    requires IsKey(key) && i < |key| / 4
    ensures W(key, i) == Pack(key[4 * i], key[4 * i + 1], key[4 * i + 2], key[4 * i + 3])
  {
    hide Pack;
  }

  lemma FirstOf128()
    ensures Add(0x2b7e_1516, Add(SubWord(RotWord(0x09cf_4f3c)), RconWord(0))) == 0xa0fa_fe17
  {
  }

  /** Appendix A.1: the first word of the expanded 128-bit key 2b7e1516...09cf4f3c. */
  lemma Schedule128(key: seq<bv8>)
    requires |key| == 16 && W(key, 0) == 0x2b7e_1516 && W(key, 3) == 0x09cf_4f3c
    ensures W(key, 4) == 0xa0fa_fe17
  {
    hide W, Add, SubWord, RotWord, RconWord;
    FirstOf128();
    WordStep(key, 4);
  }

  lemma FirstOf256()
    ensures Add(0x603d_eb10, Add(SubWord(RotWord(0x0914_dff4)), RconWord(0))) == 0x9ba3_5411
    ensures Add(0x15ca_71be, 0x9ba3_5411) == 0x8e69_25af && Add(0x2b73_aef0, 0x8e69_25af) == 0xa51a_8b5f
    ensures Add(0x857d_7781, 0xa51a_8b5f) == 0x2067_fcde && Add(0x1f35_2c07, SubWord(0x2067_fcde)) == 0xa8b0_9c1a
  {
  }

  /**
   Appendix A.3: the first words of the expanded 256-bit key 603deb10...0914dff4, the last of them substituted in
   mid-group.
   */
  lemma Schedule256(key: seq<bv8>)
    requires |key| == 32 && W(key, 0) == 0x603d_eb10 && W(key, 1) == 0x15ca_71be && W(key, 2) == 0x2b73_aef0
    requires W(key, 3) == 0x857d_7781 && W(key, 4) == 0x1f35_2c07 && W(key, 7) == 0x0914_dff4
    ensures W(key, 8) == 0x9ba3_5411 && W(key, 9) == 0x8e69_25af && W(key, 10) == 0xa51a_8b5f
    ensures W(key, 11) == 0x2067_fcde && W(key, 12) == 0xa8b0_9c1a
  {
    hide W, Add, SubWord, RotWord, RconWord;
    FirstOf256();
    WordStep(key, 8);
    WordStep(key, 9);
    WordStep(key, 10);
    WordStep(key, 11);
    WordStep(key, 12);
  }
}
