/**
 The table-driven AES class of the host flasher (package/ktool.py:91-266), proved against AesSpec.

 Words are 32-bit vectors; the flasher keeps them in Python integers that may be negative,
 of which it only ever uses the low 32 bits.
 */
module Aes {
  import opened SBox
  import opened AesColumns
  import opened AesSpec

  datatype Result<+T> = Ok(value: T) | ValueError(message: string)

  // The lookup tables, by their defining formula: one substituted byte taken through
  // MixColumns (T1-T4) or InvMixColumns (T5-T8), and one plain byte through InvMixColumns (U1-U4).
  function T1(x: bv8): Column { MixColumn(Pack(S(x), 0, 0, 0)) }
  function T2(x: bv8): Column { MixColumn(Pack(0, S(x), 0, 0)) }
  function T3(x: bv8): Column { MixColumn(Pack(0, 0, S(x), 0)) }
  function T4(x: bv8): Column { MixColumn(Pack(0, 0, 0, S(x))) }
  function T5(x: bv8): Column { InvMixColumn(Pack(Si(x), 0, 0, 0)) }
  function T6(x: bv8): Column { InvMixColumn(Pack(0, Si(x), 0, 0)) }
  function T7(x: bv8): Column { InvMixColumn(Pack(0, 0, Si(x), 0)) }
  function T8(x: bv8): Column { InvMixColumn(Pack(0, 0, 0, Si(x))) }
  function U1(x: bv8): Column { InvMixColumn(Pack(x, 0, 0, 0)) }
  function U2(x: bv8): Column { InvMixColumn(Pack(0, x, 0, 0)) }
  function U3(x: bv8): Column { InvMixColumn(Pack(0, 0, x, 0)) }
  function U4(x: bv8): Column { InvMixColumn(Pack(0, 0, 0, x)) }

  function RconTable(i: nat): bv8
    requires i < 30
  {
    [0x01, 0x02, 0x04, 0x08, 0x10, 0x20, 0x40, 0x80, 0x1b, 0x36, 0x6c, 0xd8, 0xab, 0x4d, 0x9a,
     0x2f, 0x5e, 0xbc, 0x63, 0xc6, 0x97, 0x35, 0x6a, 0xd4, 0xb3, 0x7d, 0xfa, 0xef, 0xc5, 0x91][i]
  }

  /** The tables entry by entry: multiples in GF(2^8) of the substituted byte, or of the byte itself. */
  lemma TableEntries(x: bv8)
    ensures var s := S(x); var s2, s3 := Xtime(s), XorByte(Xtime(s), s);
                           T1(x) == Pack(s2, s, s, s3) && T2(x) == Pack(s3, s2, s, s) &&
                           T3(x) == Pack(s, s3, s2, s) && T4(x) == Pack(s, s, s3, s2)
    ensures var s := Si(x); var a, b, c, d := Times14(s), Times9(s), Times13(s), Times11(s);
                            T5(x) == Pack(a, b, c, d) && T6(x) == Pack(d, a, b, c) &&
                            T7(x) == Pack(c, d, a, b) && T8(x) == Pack(b, c, d, a)
    ensures var a, b, c, d := Times14(x), Times9(x), Times13(x), Times11(x);
            U1(x) == Pack(a, b, c, d) && U2(x) == Pack(d, a, b, c) &&
            U3(x) == Pack(c, d, a, b) && U4(x) == Pack(b, c, d, a)
  {
    hide S, Si, MixColumn, InvMixColumn, Pack, Xtime, Times9, Times11, Times13, Times14, XorByte;
    MixOfOneByte(S(x));
    InvMixOfOneByte(Si(x));
    InvMixOfOneByte(x);
  }

  lemma LowConstants()
    ensures Rcon(0) == 0x01 && Rcon(1) == 0x02 && Rcon(2) == 0x04 && Rcon(3) == 0x08 && Rcon(4) == 0x10
    ensures Rcon(5) == 0x20 && Rcon(6) == 0x40 && Rcon(7) == 0x80 && Rcon(8) == 0x1b && Rcon(9) == 0x36
  {
    assert Rcon(0) == 0x01 && Rcon(1) == 0x02 && Rcon(2) == 0x04 && Rcon(3) == 0x08 && Rcon(4) == 0x10;
  }

  lemma MiddleConstants()
    ensures Rcon(10) == 0x6c && Rcon(11) == 0xd8 && Rcon(12) == 0xab && Rcon(13) == 0x4d && Rcon(14) == 0x9a
    ensures Rcon(15) == 0x2f && Rcon(16) == 0x5e && Rcon(17) == 0xbc && Rcon(18) == 0x63 && Rcon(19) == 0xc6
  {
    LowConstants();
    assert Rcon(10) == 0x6c && Rcon(11) == 0xd8 && Rcon(12) == 0xab && Rcon(13) == 0x4d && Rcon(14) == 0x9a;
  }

  lemma HighConstants()
    ensures Rcon(20) == 0x97 && Rcon(21) == 0x35 && Rcon(22) == 0x6a && Rcon(23) == 0xd4 && Rcon(24) == 0xb3
    ensures Rcon(25) == 0x7d && Rcon(26) == 0xfa && Rcon(27) == 0xef && Rcon(28) == 0xc5 && Rcon(29) == 0x91
  {
    MiddleConstants();
    assert Rcon(20) == 0x97 && Rcon(21) == 0x35 && Rcon(22) == 0x6a && Rcon(23) == 0xd4 && Rcon(24) == 0xb3;
  }

  /** The table of round constants holds the powers of x. */
  lemma RconTableIsRcon(i: nat)
    requires i < 30
    ensures RconTable(i) == Rcon(i)
  {
    hide Rcon;
    LowConstants();
    MiddleConstants();
    HighConstants();
    if i < 10 {
      assert i == 0 || i == 1 || i == 2 || i == 3 || i == 4 || i == 5 || i == 6 || i == 7 || i == 8 || i == 9;
    } else if i < 20 {
      assert i == 10 || i == 11 || i == 12 || i == 13 || i == 14 || i == 15 || i == 16 || i == 17 || i == 18 || i == 19;
    } else {
      assert i == 20 || i == 21 || i == 22 || i == 23 || i == 24 || i == 25 || i == 26 || i == 27 || i == 28 || i == 29;
    }
  }

  lemma EncTables(p: Column, q: Column, r: Column, s: Column)
    ensures EncColumn(p, q, r, s) == MixColumn(ShiftSubColumn(p, q, r, s))
  {
    hide S, MixColumn, Pack, B0, B1, B2, B3, Add;
    MixByBytes(S(B0(p)), S(B1(q)), S(B2(r)), S(B3(s)));
  }

  lemma DecTables(p: Column, q: Column, r: Column, s: Column)
    ensures DecColumn(p, q, r, s) == InvMixColumn(InvShiftSubColumn(p, q, r, s))
  {
    hide Si, InvMixColumn, Pack, B0, B1, B2, B3, Add;
    InvMixByBytes(Si(B0(p)), Si(B1(q)), Si(B2(r)), Si(B3(s)));
  }

  lemma KeyTables(w: Column)
    ensures Add(Add(Add(U1(B0(w)), U2(B1(w))), U3(B2(w))), U4(B3(w))) == InvMixColumn(w)
  {
    hide InvMixColumn, Pack, B0, B1, B2, B3, Add;
    InvMixByBytes(B0(w), B1(w), B2(w), B3(w));
    PackBytes(0, 0, 0, 0, w);
  }

  lemma Byte0OfSum(v: Column, w: Column)
    ensures B0(Add(v, w)) == XorByte(B0(v), B0(w))
  {
  }

  lemma Byte1OfSum(v: Column, w: Column)
    ensures B1(Add(v, w)) == XorByte(B1(v), B1(w))
  {
  }

  lemma Byte2OfSum(v: Column, w: Column)
    ensures B2(Add(v, w)) == XorByte(B2(v), B2(w))
  {
  }

  lemma Byte3OfSum(v: Column, w: Column)
    ensures B3(Add(v, w)) == XorByte(B3(v), B3(w))
  {
  }

  // ---------------------------------------------------------------- key expansion

  lemma GroupIndex(nk: nat, g: nat, base: nat, i: nat)
    requires nk == 4 || nk == 6 || nk == 8
    requires i < nk && base == g * nk
    ensures (base + i) / nk == g && (base + i) % nk == i
  {
  }

  lemma ScheduleUnfolds(key: seq<bv8>, j: nat)
    requires IsKey(key) && j >= |key| / 4
    ensures var nk := |key| / 4;
            var temp := W(key, j - 1);
            W(key, j) == Add(W(key, j - nk),
                             if j % nk == 0 then Add(SubWord(RotWord(temp)), RconWord(j / nk - 1))
                             else if nk > 6 && j % nk == 4 then SubWord(temp)
                             else temp)
  {
    hide SubWord, RotWord, RconWord, Add;
  }

  // The recurrence of the schedule inside group g, whose first word has index base.
  lemma ScheduleStep(key: seq<bv8>, g: nat, base: nat, i: nat)
    requires IsKey(key) && 1 <= g && base == g * (|key| / 4) && i < |key| / 4
    ensures var nk := |key| / 4;
            base >= nk &&
            var temp := W(key, base + i - 1);
            W(key, base + i) == Add(W(key, base + i - nk),
                                    if i == 0 then Add(SubWord(RotWord(temp)), RconWord(g - 1))
                                    else if nk > 6 && i == 4 then SubWord(temp)
                                    else temp)
  {
    hide W, SubWord, RotWord, RconWord, Add;
    GroupIndex(|key| / 4, g, base, i);
    ScheduleUnfolds(key, base + i);
  }

  // tk holds the words of the schedule from index base on.
  ghost predicate Holds(key: seq<bv8>, tk: seq<Column>, lo: nat, hi: nat, base: int)
    requires IsKey(key) && lo <= hi <= |tk| && 0 <= base
  {
    forall i | lo <= i < hi :: tk[i] == W(key, base + i)
  }

  /** One turn of the expansion loop: tk moves from group g - 1 of the schedule to group g. */
  method NextGroup(key: seq<bv8>, tk: array<Column>, rcon: nat, ghost base: nat)
    requires IsKey(key) && tk.Length == |key| / 4 && rcon < 10
    requires base == (rcon + 1) * tk.Length
    requires Holds(key, tk[..], 0, tk.Length, base - tk.Length)
    modifies tk
    ensures Holds(key, tk[..], 0, tk.Length, base)
  {
    hide Holds;
    var nk := tk.Length;
    FirstWord(key, tk, rcon, base);
    if nk != 8 {
      ChainXor(key, tk, rcon + 1, base, 1, nk);
    } else {
      ChainXor(key, tk, rcon + 1, base, 1, 4);
      FifthWord(key, tk, rcon + 1, base);
      ChainXor(key, tk, rcon + 1, base, 5, 8);
    }
  }

  // The word that takes in the round constant.
  method FirstWord(key: seq<bv8>, tk: array<Column>, rcon: nat, ghost base: nat)
    requires IsKey(key) && tk.Length == |key| / 4 && rcon < 10 && base == (rcon + 1) * tk.Length >= tk.Length
    requires Holds(key, tk[..], 0, tk.Length, base - tk.Length)
    modifies tk
    ensures Holds(key, tk[..], 0, 1, base) && Holds(key, tk[..], 1, tk.Length, base - tk.Length)
  {
    hide SubWord, RotWord, Rcon, RconTable, Pack, W, Add;
    var tt := tk[tk.Length - 1];
    RconTableIsRcon(rcon);
    ScheduleStep(key, rcon + 1, base, 0);
    tk[0] := Add(tk[0], Add(SubWord(RotWord(tt)), Pack(RconTable(rcon), 0, 0, 0)));
  }

  // The word in the middle of a group that 256-bit keys substitute too.
  method FifthWord(key: seq<bv8>, tk: array<Column>, ghost g: nat, ghost base: nat)
    requires IsKey(key) && tk.Length == |key| / 4 == 8 && 1 <= g && base == g * tk.Length >= tk.Length
    requires Holds(key, tk[..], 0, 4, base) && Holds(key, tk[..], 4, 8, base - 8)
    modifies tk
    ensures Holds(key, tk[..], 0, 5, base) && Holds(key, tk[..], 5, 8, base - 8)
  {
    hide SubWord, RotWord, Rcon, W, Add;
    ScheduleStep(key, g, base, 4);
    tk[4] := Add(tk[4], SubWord(tk[3]));
  }

  /** The inner loops of the expansion: each word from lo on takes in its predecessor. */
  method ChainXor(key: seq<bv8>, tk: array<Column>, ghost g: nat, ghost base: nat, lo: nat, hi: nat)
    requires IsKey(key) && tk.Length == |key| / 4 && 1 <= lo <= hi <= tk.Length
    requires 1 <= g && base == g * tk.Length && base >= tk.Length
    requires tk.Length > 6 ==> !(lo <= 4 < hi)
    requires Holds(key, tk[..], 0, lo, base) && Holds(key, tk[..], lo, tk.Length, base - tk.Length)
    modifies tk
    ensures Holds(key, tk[..], 0, hi, base) && Holds(key, tk[..], hi, tk.Length, base - tk.Length)
  {
    hide W, SubWord, RotWord, RconWord, Add;
    for i := lo to hi
      invariant Holds(key, tk[..], 0, i, base) && Holds(key, tk[..], i, tk.Length, base - tk.Length)
    {
      ScheduleStep(key, g, base, i);
      tk[i] := Add(tk[i], tk[i - 1]);
    }
  }

  // The first n words of the schedule are in place: in order in ke, by reversed rounds in kd.
  ghost predicate Filled(key: seq<bv8>, ke: array2<Column>, kd: array2<Column>, n: nat)
    reads ke, kd
    requires IsKey(key)
  {
    var rounds := Rounds(key);
    && ke != kd && ke.Length0 == kd.Length0 == rounds + 1 && ke.Length1 == kd.Length1 == 4
    && (forall r, c | 0 <= r <= rounds && 0 <= c < 4 && 4 * r + c < n :: ke[r, c] == W(key, 4 * r + c))
    && (forall r, c | 0 <= r <= rounds && 0 <= c < 4 && 4 * (rounds - r) + c < n ::
          kd[r, c] == W(key, 4 * (rounds - r) + c))
  }

  method PutWord(key: seq<bv8>, w: Column, t: nat, ke: array2<Column>, kd: array2<Column>)
    requires IsKey(key) && t < 4 * (Rounds(key) + 1)
    requires w == W(key, t) && Filled(key, ke, kd, t)
    modifies ke, kd
    ensures Filled(key, ke, kd, t + 1)
  {
    hide W;
    var rounds := Rounds(key);
    var r, c := t / 4, t % 4;
    assert t == 4 * r + c;
    ke[r, c] := w;
    kd[rounds - r, c] := w;
  }

  /** The copy loops of the constructor: the first hi words of tk become words t.. of both round-key arrays. */
  method CopyWords(key: seq<bv8>, tk: array<Column>, hi: nat, t: nat, ke: array2<Column>, kd: array2<Column>)
    requires IsKey(key) && hi <= tk.Length && t + hi <= 4 * (Rounds(key) + 1)
    requires Holds(key, tk[..], 0, tk.Length, t) && Filled(key, ke, kd, t)
    modifies ke, kd
    ensures Filled(key, ke, kd, t + hi)
  {
    hide W, Filled;
    for j := 0 to hi
      invariant Filled(key, ke, kd, t + j)
    {
      PutWord(key, tk[j], t + j, ke, kd);
    }
  }

  lemma GroupCount(nk: nat, rcon: nat)
    requires nk == 4 || nk == 6 || nk == 8
    requires (rcon + 1) * nk < 4 * (nk + 7)
    ensures rcon < 10
    ensures (rcon + 1) * nk + nk == (rcon + 2) * nk
  {
  }

  /** The key as big-endian words. */
  method KeyWords(key: seq<bv8>) returns (tk: array<Column>)
    requires IsKey(key)
    ensures fresh(tk) && tk.Length == |key| / 4 && Holds(key, tk[..], 0, tk.Length, 0)
  {
    hide Pack;
    var nk := |key| / 4;
    tk := new Column[nk];
    for i := 0 to nk
      invariant Holds(key, tk[..], 0, i, 0)
    {
      tk[i] := Pack(key[4 * i], key[4 * i + 1], key[4 * i + 2], key[4 * i + 3]);
    }
  }

  /** The constructor: both round-key arrays, for every legal key, as FIPS 197 defines them. */
  method ExpandKey(key: seq<bv8>) returns (ke: array2<Column>, kd: array2<Column>)
    requires IsKey(key)
    ensures fresh(ke) && fresh(kd) && ke != kd
    ensures ke.Length0 == kd.Length0 == Rounds(key) + 1 && ke.Length1 == kd.Length1 == 4
    ensures forall r, c | 0 <= r <= Rounds(key) && 0 <= c < 4 :: ke[r, c] == W(key, 4 * r + c)
    ensures forall r, c | 0 <= r <= Rounds(key) && 0 <= c < 4 :: kd[r, c] == D(key, r, c)
  {
    hide W, D, Holds;
    var rounds := Rounds(key);
    var count, nk := (rounds + 1) * 4, |key| / 4;
    ke := new Column[rounds + 1, 4];
    kd := new Column[rounds + 1, 4];
    var tk := KeyWords(key);
    CopyWords(key, tk, nk, 0, ke, kd);
    var rcon, t := 0, nk;
    while t < count
      invariant nk <= t <= count && Filled(key, ke, kd, t) && 0 <= rcon
      invariant t < count ==> t == (rcon + 1) * nk && Holds(key, tk[..], 0, nk, t - nk)
      decreases count - t
    {
      GroupCount(nk, rcon);
      NextGroup(key, tk, rcon, t);
      rcon := rcon + 1;
      var hi := if nk <= count - t then nk else count - t;
      CopyWords(key, tk, hi, t, ke, kd);
      t := t + hi;
    }
    InvertInnerKeys(key, ke, kd);
  }

  /** The last loop of the constructor: inner decryption round keys go through InvMixColumns. */
  method InvertInnerKeys(key: seq<bv8>, ke: array2<Column>, kd: array2<Column>)
    requires IsKey(key) && Filled(key, ke, kd, 4 * (Rounds(key) + 1))
    modifies kd
    ensures forall r, c | 0 <= r <= Rounds(key) && 0 <= c < 4 :: kd[r, c] == D(key, r, c)
  {
    hide InvMixColumn, U1, U2, U3, U4, B0, B1, B2, B3, W;
    var rounds := Rounds(key);
    for r := 1 to rounds
      invariant forall q, c | 0 <= q <= rounds && 0 <= c < 4 ::
          kd[q, c] == if q < r then D(key, q, c) else W(key, 4 * (rounds - q) + c)
    {
      for j := 0 to 4
        invariant forall q, c | 0 <= q <= rounds && 0 <= c < 4 ::
            kd[q, c] == if q < r || (q == r && c < j) then D(key, q, c) else W(key, 4 * (rounds - q) + c)
      {
        var tt := kd[r, j];
        KeyTables(tt);
        kd[r, j] := Add(Add(Add(U1(B0(tt)), U2(B1(tt))), U3(B2(tt))), U4(B3(tt)));
      }
    }
  }

  // ---------------------------------------------------------------- blocks

  // One column of a table round, without the round key.
  function EncColumn(p: Column, q: Column, r: Column, s: Column): Column {
    Add(Add(Add(T1(B0(p)), T2(B1(q))), T3(B2(r))), T4(B3(s)))
  }

  function DecColumn(p: Column, q: Column, r: Column, s: Column): Column {
    Add(Add(Add(T5(B0(p)), T6(B1(q))), T7(B2(r))), T8(B3(s)))
  }

  // The source indexes the columns of the state round the clock; these say which columns that is.
  lemma ShiftSubAt(t: State, i: nat)
    requires i < 4
    ensures ShiftSub(t)[i] == ShiftSubColumn(t[i], t[(i + 1) % 4], t[(i + 2) % 4], t[(i + 3) % 4])
  {
    hide ShiftSubColumn;
    if i == 0 {
    } else if i == 1 {
    } else if i == 2 {
    } else {
    }
  }

  lemma InvShiftSubAt(t: State, i: nat)
    requires i < 4
    ensures InvShiftSub(t)[i] == InvShiftSubColumn(t[i], t[(i + 3) % 4], t[(i + 2) % 4], t[(i + 1) % 4])
  {
    hide InvShiftSubColumn;
    if i == 0 {
    } else if i == 1 {
    } else if i == 2 {
    } else {
    }
  }

  lemma MixAt(t: State, i: nat)
    requires i < 4
    ensures Mix(t)[i] == MixColumn(t[i])
  {
    hide MixColumn;
  }

  lemma InvMixAt(t: State, i: nat)
    requires i < 4
    ensures InvMix(t)[i] == InvMixColumn(t[i])
  {
    hide InvMixColumn;
  }

  // The four bytes the last round appends for one column.
  function LastEncBytes(p: Column, q: Column, r: Column, s: Column, tt: Column): seq<bv8> {
    [XorByte(S(B0(p)), B0(tt)), XorByte(S(B1(q)), B1(tt)), XorByte(S(B2(r)), B2(tt)), XorByte(S(B3(s)), B3(tt))]
  }

  function LastDecBytes(p: Column, q: Column, r: Column, s: Column, tt: Column): seq<bv8> {
    [XorByte(Si(B0(p)), B0(tt)), XorByte(Si(B1(q)), B1(tt)), XorByte(Si(B2(r)), B2(tt)), XorByte(Si(B3(s)), B3(tt))]
  }

  lemma PackedXorBytes(a: bv8, b: bv8, c: bv8, d: bv8, k: Column)
    ensures ColumnBytes(Add(Pack(a, b, c, d), k)) == [XorByte(a, B0(k)), XorByte(b, B1(k)), XorByte(c, B2(k)), XorByte(d, B3(k))]
  {
    hide Add, XorByte, Pack, B0, B1, B2, B3;
    PackBytes(a, b, c, d, 0);
    Byte0OfSum(Pack(a, b, c, d), k);
    Byte1OfSum(Pack(a, b, c, d), k);
    Byte2OfSum(Pack(a, b, c, d), k);
    Byte3OfSum(Pack(a, b, c, d), k);
  }

  lemma LastEncColumn(p: Column, q: Column, r: Column, s: Column, tt: Column)
    ensures LastEncBytes(p, q, r, s, tt) == ColumnBytes(Add(ShiftSubColumn(p, q, r, s), tt))
  {
    hide Add, Pack, S, B0, B1, B2, B3, ColumnBytes, XorByte;
    PackedXorBytes(S(B0(p)), S(B1(q)), S(B2(r)), S(B3(s)), tt);
  }

  lemma LastDecColumn(p: Column, q: Column, r: Column, s: Column, tt: Column)
    ensures LastDecBytes(p, q, r, s, tt) == ColumnBytes(Add(InvShiftSubColumn(p, q, r, s), tt))
  {
    hide Add, Pack, Si, B0, B1, B2, B3, ColumnBytes, XorByte;
    PackedXorBytes(Si(B0(p)), Si(B1(q)), Si(B2(r)), Si(B3(s)), tt);
  }

  /** The AES object of the flasher: round keys filled once, then read by every block. */
  class AES {
    ghost const key: seq<bv8>
    const ke: array2<Column>
    const kd: array2<Column>

    ghost predicate Valid()
      reads this, ke, kd
    {
      && IsKey(key)
      && ke.Length0 == kd.Length0 == Rounds(key) + 1 && ke.Length1 == kd.Length1 == 4
      && (forall r, c | 0 <= r <= Rounds(key) && 0 <= c < 4 :: ke[r, c] == W(key, 4 * r + c))
      && (forall r, c | 0 <= r <= Rounds(key) && 0 <= c < 4 :: kd[r, c] == D(key, r, c))
    }

    constructor (key: seq<bv8>)
      requires IsKey(key)
      ensures Valid() && this.key == key && fresh(ke) && fresh(kd)
    {
      var ke', kd' := ExpandKey(key);
      this.key, ke, kd := key, ke', kd';
    }

    // One table round.
    method EncRound(t: State, r: nat) returns (a: State)
      requires Valid() && r <= Rounds(key)
      ensures a == AddState(Mix(ShiftSub(t)), EncKey(key, r))
    {
      hide W, D, Mix, ShiftSub, MixColumn, ShiftSubColumn, Add, EncColumn;
      a := [0, 0, 0, 0];
      for i := 0 to 4
        invariant forall j | 0 <= j < i :: a[j] == Add(Mix(ShiftSub(t))[j], EncKey(key, r)[j])
      {
        EncTables(t[i], t[(i + 1) % 4], t[(i + 2) % 4], t[(i + 3) % 4]);
        ShiftSubAt(t, i);
        MixAt(ShiftSub(t), i);
        a := a[i := Add(EncColumn(t[i], t[(i + 1) % 4], t[(i + 2) % 4], t[(i + 3) % 4]), ke[r, i])];
      }
    }

    // The last round, appending the result byte by byte.
    method EncLastRound(t: State) returns (result: seq<bv8>)
      requires Valid()
      ensures result == ToBlock(AddState(ShiftSub(t), EncKey(key, Rounds(key))))
    {
      hide W, D, ShiftSub, ShiftSubColumn, Add, LastEncBytes, ColumnBytes;
      var rounds := ke.Length0 - 1;
      ghost var s := AddState(ShiftSub(t), EncKey(key, rounds));
      result := [];
      for i := 0 to 4
        invariant result == FirstBytes(s, i)
      {
        var tt := ke[rounds, i];
        LastEncColumn(t[i], t[(i + 1) % 4], t[(i + 2) % 4], t[(i + 3) % 4], tt);
        ShiftSubAt(t, i);
        assert s[i] == Add(ShiftSub(t)[i], tt);
        result := result + LastEncBytes(t[i], t[(i + 1) % 4], t[(i + 2) % 4], t[(i + 3) % 4], tt);
      }
    }

    /** Encrypt of one block: the table rounds compute the FIPS 197 cipher; a wrong length raises. */
    method Encrypt(block: seq<bv8>) returns (r: Result<seq<bv8>>)
      requires Valid()
      ensures r.ValueError? <==> |block| != 16
      ensures r.Ok? ==> r.value == Cipher(key, block)
    {
      hide W, D, Mix, ShiftSub, Add, ToBlock, ToState;
      if |block| != 16 {
        return ValueError("wrong block length");
      }
      var rounds := ke.Length0 - 1;
      var words := ToState(block);
      var t: State := [Add(words[0], ke[0, 0]), Add(words[1], ke[0, 1]),
                       Add(words[2], ke[0, 2]), Add(words[3], ke[0, 3])];
      for r := 1 to rounds
        invariant t == Forward(key, block, r - 1)
      {
        t := EncRound(t, r);
      }
      var result := EncLastRound(t);
      r := Ok(result);
    }

    // One table round.
    method DecRound(t: State, r: nat) returns (a: State)
      requires Valid() && r <= Rounds(key)
      ensures a == AddState(InvMix(InvShiftSub(t)), DecKey(key, r))
    {
      hide W, D, InvMix, InvShiftSub, InvMixColumn, InvShiftSubColumn, Add, DecColumn;
      a := [0, 0, 0, 0];
      for i := 0 to 4
        invariant forall j | 0 <= j < i :: a[j] == Add(InvMix(InvShiftSub(t))[j], DecKey(key, r)[j])
      {
        DecTables(t[i], t[(i + 3) % 4], t[(i + 2) % 4], t[(i + 1) % 4]);
        InvShiftSubAt(t, i);
        InvMixAt(InvShiftSub(t), i);
        a := a[i := Add(DecColumn(t[i], t[(i + 3) % 4], t[(i + 2) % 4], t[(i + 1) % 4]), kd[r, i])];
      }
    }

    // The last round, appending the result byte by byte.
    method DecLastRound(t: State) returns (result: seq<bv8>)
      requires Valid()
      ensures result == ToBlock(AddState(InvShiftSub(t), DecKey(key, Rounds(key))))
    {
      hide W, D, InvShiftSub, InvShiftSubColumn, Add, LastDecBytes, ColumnBytes;
      var rounds := kd.Length0 - 1;
      ghost var s := AddState(InvShiftSub(t), DecKey(key, rounds));
      result := [];
      for i := 0 to 4
        invariant result == FirstBytes(s, i)
      {
        var tt := kd[rounds, i];
        LastDecColumn(t[i], t[(i + 3) % 4], t[(i + 2) % 4], t[(i + 1) % 4], tt);
        InvShiftSubAt(t, i);
        assert s[i] == Add(InvShiftSub(t)[i], tt);
        result := result + LastDecBytes(t[i], t[(i + 3) % 4], t[(i + 2) % 4], t[(i + 1) % 4], tt);
      }
    }

    /** Decrypt of one block: the table rounds compute the equivalent inverse cipher; a wrong length raises. */
    method Decrypt(block: seq<bv8>) returns (r: Result<seq<bv8>>)
      requires Valid()
      ensures r.ValueError? <==> |block| != 16
      ensures r.Ok? ==> r.value == InvCipher(key, block)
    {
      hide W, D, InvMix, InvShiftSub, Add, ToBlock, ToState;
      if |block| != 16 {
        return ValueError("wrong block length");
      }
      var rounds := kd.Length0 - 1;
      var words := ToState(block);
      var t: State := [Add(words[0], kd[0, 0]), Add(words[1], kd[0, 1]),
                       Add(words[2], kd[0, 2]), Add(words[3], kd[0, 3])];
      for r := 1 to rounds
        invariant t == Backward(key, block, r - 1)
      {
        t := DecRound(t, r);
      }
      var result := DecLastRound(t);
      r := Ok(result);
    }
  }
}
