/**
 The reference base32 codec of src/krux/bbqr.py:183-234 (section 6 of RFC 4648), as a repacking of
 one bit stream: eight-bit groups into five-bit groups and back.
 */
module Base32 {
  import opened Arith
  import opened Bytes

  // ---------------------------------------------------------------- bit strings

  type bit = b: int | 0 <= b <= 1
  type bits = seq<bit>

  function Pow2(n: nat): (r: nat)
    ensures r >= 1
  {
    if n == 0 then 1 else 2 * Pow2(n - 1)
  }

  // The number a bit string stands for, most significant bit first.
  function Val(b: bits): nat {
    if b == [] then 0 else 2 * Val(b[..|b| - 1]) + b[|b| - 1]
  }

  function ToBits(n: nat, width: nat): (r: bits)
    ensures |r| == width
  {
    if width == 0 then [] else ToBits(n / 2, width - 1) + [n % 2]
  }

  lemma {:induction false} ValBound(b: bits)
    ensures Val(b) < Pow2(|b|)
  {
    if b != [] {
      ValBound(b[..|b| - 1]);
    }
  }

  lemma {:induction false} ValOfToBits(n: nat, width: nat)
    requires n < Pow2(width)
    ensures Val(ToBits(n, width)) == n
  {
    if width > 0 {
      ValOfToBits(n / 2, width - 1);
      assert ToBits(n, width)[..width - 1] == ToBits(n / 2, width - 1);
    }
  }

  lemma {:induction false} ToBitsOfVal(b: bits)
    ensures ToBits(Val(b), |b|) == b
  {
    if b != [] {
      ToBitsOfVal(b[..|b| - 1]);
    }
  }

  lemma {:induction false} ValConcat(a: bits, b: bits)
    ensures Val(a + b) == Val(a) * Pow2(|b|) + Val(b)
  {
    if b == [] {
      assert a + b == a;
    } else {
      var init := b[..|b| - 1];
      assert (a + b)[..|a + b| - 1] == a + init;
      ValConcat(a, init);
      assert 2 * (Val(a) * Pow2(|init|)) == Val(a) * Pow2(|b|);
    }
  }

  // buffer >> n and buffer & ((1 << n) - 1) split a bit string at its last n bits.
  lemma SplitValue(a: bits, b: bits)
    ensures Val(a + b) / Pow2(|b|) == Val(a) && Val(a + b) % Pow2(|b|) == Val(b)
  {
    ValConcat(a, b);
    ValBound(b);
    DivModUnique(Val(a), Pow2(|b|), Val(b));
  }

  // ---------------------------------------------------------------- groups

  function Group(values: seq<nat>, width: nat): bits {
    if values == [] then [] else Group(values[..|values| - 1], width) + ToBits(values[|values| - 1], width)
  }

  lemma EmptyGroup(width: nat)
    ensures Group([], width) == []
  {
  }

  lemma {:induction false} GroupLength(values: seq<nat>, width: nat)
    ensures |Group(values, width)| == |values| * width
  {
    if values != [] {
      GroupLength(values[..|values| - 1], width);
      assert |values| * width == (|values| - 1) * width + width;
    }
  }

  // The values of the full groups of a bit string; what is left over is dropped.
  function Ungroup(b: bits, width: nat): (r: seq<nat>)
    requires width > 0
    ensures |r| == |b| / width
    ensures forall v | v in r :: v < Pow2(width)
    decreases |b|
  {
    if |b| < width then []
    else
      ValBound(b[..width]);
      UngroupLength(|b|, width);
      [Val(b[..width])] + Ungroup(b[width..], width)
  }

  lemma UngroupLength(n: nat, width: nat)
    requires 0 < width <= n
    ensures n / width == 1 + (n - width) / width
  {
    var q, r := (n - width) / width, (n - width) % width;
    assert n == (q + 1) * width + r;
    DivModUnique(q + 1, width, r);
  }

  lemma {:induction false} GroupConcat(a: seq<nat>, b: seq<nat>, width: nat)
    ensures Group(a + b, width) == Group(a, width) + Group(b, width)
  {
    hide ToBits;
    if b == [] {
      assert a + b == a;
    } else {
      var last := ToBits(b[|b| - 1], width);
      assert (a + b)[..|a + b| - 1] == a + b[..|b| - 1];
      GroupConcat(a, b[..|b| - 1], width);
      assert Group(a + b, width) == Group(a, width) + Group(b[..|b| - 1], width) + last;
    }
  }

  lemma {:induction false} UngroupConcat(k: nat, a: bits, b: bits, width: nat)
    requires width > 0 && |a| == k * width
    ensures Ungroup(a + b, width) == Ungroup(a, width) + Ungroup(b, width)
    decreases k
  {
    if k == 0 {
      assert a + b == b;
    } else {
      assert k * width == width + (k - 1) * width;
      assert |a| >= width;
      assert (a + b)[..width] == a[..width] && (a + b)[width..] == a[width..] + b;
      UngroupConcat(k - 1, a[width..], b, width);
    }
  }

  lemma LastGroup(v: nat, tail: bits, width: nat)
    requires |tail| < width && v < Pow2(width)
    ensures Ungroup(ToBits(v, width) + tail, width) == [v]
  {
    hide ToBits, Val, Pow2;
    var b := ToBits(v, width);
    assert (b + tail)[..width] == b && (b + tail)[width..] == tail;
    ValOfToBits(v, width);
  }

  /** Grouping is undone by ungrouping, whatever short tail follows. */
  lemma {:induction false} UngroupOfGroup(values: seq<nat>, tail: bits, width: nat)
    requires |tail| < width && forall v | v in values :: v < Pow2(width)
    ensures Ungroup(Group(values, width) + tail, width) == values
  {
    hide ToBits, Val, Pow2;
    if values == [] {
      assert Group(values, width) + tail == tail;
    } else {
      var n := |values| - 1;
      var init, last := values[..n], ToBits(values[n], width);
      GroupLength(init, width);
      assert Group(values, width) + tail == Group(init, width) + (last + tail);
      UngroupConcat(n, Group(init, width), last + tail, width);
      assert forall v | v in init :: v in values;
      UngroupOfGroup(init, [], width);
      assert Group(init, width) + [] == Group(init, width);
      assert values[n] in values;
      LastGroup(values[n], tail, width);
    }
  }

  /** Ungrouping whole groups loses nothing. */
  lemma {:induction false} GroupOfUngroup(k: nat, b: bits, width: nat)
    requires width > 0 && |b| == k * width
    ensures Group(Ungroup(b, width), width) == b
    decreases k
  {
    hide Val, ToBits, Pow2, Group;
    if k > 0 {
      assert k * width == width + (k - 1) * width && (k - 1) * width >= 0;
      var head, rest := b[..width], b[width..];
      GroupOfUngroup(k - 1, rest, width);
      GroupConcat([Val(head)], Ungroup(rest, width), width);
      ToBitsOfVal(head);
      SingleGroup(Val(head), width);
      assert head + rest == b;
    } else {
      EmptyGroup(width);
      assert b == [];
    }
  }

  // ---------------------------------------------------------------- the streaming loop

  lemma EmptyVal()
    ensures Val([]) == 0
  {
  }

  /**
   The loop both directions share: values of one width go in, values of the other come out as soon as the
   buffer holds enough bits.  No bit is lost, added or reordered.
   */
  method Repack(values: seq<nat>, inWidth: nat, outWidth: nat) returns (out: seq<nat>, buffer: nat, bitsLeft: nat)
    requires 0 < outWidth && forall v | v in values :: v < Pow2(inWidth)
    ensures bitsLeft < outWidth && buffer < Pow2(bitsLeft)
    ensures forall v | v in out :: v < Pow2(outWidth)
    ensures Group(out, outWidth) + ToBits(buffer, bitsLeft) == Group(values, inWidth)
  {
    hide ToBits, Val, Pow2;
    EmptyVal();
    out, buffer, bitsLeft := [], 0, 0;
    ghost var pending: bits := [];
    for i := 0 to |values|
      invariant |pending| == bitsLeft < outWidth && Val(pending) == buffer
      invariant forall v | v in out :: v < Pow2(outWidth)
      invariant Group(out, outWidth) + pending == Group(values[..i], inWidth)
    {
      assert values[i] in values;
      ghost var more := ToBits(values[i], inWidth);
      ValOfToBits(values[i], inWidth);
      ValConcat(pending, more);
      assert values[..i + 1][..i] == values[..i];
      assert Group(out, outWidth) + (pending + more) == Group(values[..i + 1], inWidth);
      pending := pending + more;
      buffer := buffer * Pow2(inWidth) + values[i];
      bitsLeft := bitsLeft + inWidth;
      while bitsLeft >= outWidth
        invariant |pending| == bitsLeft && Val(pending) == buffer
        invariant forall v | v in out :: v < Pow2(outWidth)
        invariant Group(out, outWidth) + pending == Group(values[..i + 1], inWidth)
      {
        bitsLeft := bitsLeft - outWidth;
        ghost var head, rest := pending[..outWidth], pending[outWidth..];
        assert pending == head + rest;
        SplitValue(head, rest);
        ValBound(head);
        ToBitsOfVal(head);
        assert Group(out, outWidth) + head + rest == Group(out, outWidth) + pending;
        var v := buffer / Pow2(bitsLeft);
        assert (out + [v])[..|out|] == out;
        out := out + [v];
        buffer := buffer % Pow2(bitsLeft);
        pending := rest;
      }
    }
    assert values[..|values|] == values;
    ToBitsOfVal(pending);
    ValBound(pending);
  }

  // ---------------------------------------------------------------- characters

  type quint = q: int | 0 <= q < 32

  // ABCDEFGHIJKLMNOPQRSTUVWXYZ234567
  function CharOf(q: quint): char {
    if q < 26 then ('A' as int + q) as char else ('2' as int + q - 26) as char
  }

  function QuintOf(c: char): Option<quint> {
    if 'A' <= c <= 'Z' then Some(c as int - 'A' as int)
    else if '2' <= c <= '7' then Some(c as int - '2' as int + 26)
    else None
  }

  lemma QuintOfCharOf(q: quint)
    ensures QuintOf(CharOf(q)) == Some(q)
  {
  }

  ghost predicate IsText(s: string) { forall c | c in s :: QuintOf(c).Some? }

  function Quints(s: string): (r: seq<nat>)
    requires IsText(s)
    ensures |r| == |s|
  {
    seq(|s|, i requires 0 <= i < |s| => assert s[i] in s; QuintOf(s[i]).value)
  }

  function Chars(qs: seq<nat>): (r: string)
    requires forall q | q in qs :: q < 32
    ensures |r| == |qs|
  {
    seq(|qs|, i requires 0 <= i < |qs| => assert qs[i] in qs; CharOf(qs[i]))
  }

  lemma QuintsOfChars(qs: seq<nat>)
    requires forall q | q in qs :: q < 32
    ensures IsText(Chars(qs)) && Quints(Chars(qs)) == qs
  {
    forall c | c in Chars(qs)
      ensures QuintOf(c).Some?
    {
      var i :| 0 <= i < |qs| && Chars(qs)[i] == c;
      assert qs[i] in qs;
      QuintOfCharOf(qs[i]);
    }
    forall i | 0 <= i < |qs|
      ensures Quints(Chars(qs))[i] == qs[i]
    {
      assert qs[i] in qs;
      QuintOfCharOf(qs[i]);
    }
  }

  lemma Widths()
    ensures Pow2(5) == 32 && Pow2(8) == 256
  {
  }

  // ---------------------------------------------------------------- codec

  function Zeros(n: nat): bits { Repeat<bit>(0, n) }

  function FillLength(n: nat): nat { (5 - n % 5) % 5 }

  // The bits of the data, filled with zeros to whole quints.
  function FilledBits(data: bytes): (r: bits)
    ensures |r| % 5 == 0
  {
    var b := Group(data, 8);
    b + Zeros(FillLength(|b|))
  }

  function Encoded(data: bytes): string {
    Widths();
    Chars(Ungroup(FilledBits(data), 5))
  }

  function Decoded(s: string): (r: bytes)
    requires IsText(s)
  {
    Widths();
    var r := Ungroup(Group(Quints(s), 5), 8);
    assert forall i | 0 <= i < |r| :: r[i] in r;
    r
  }

  /** Eight bits a byte, five a character, the last ones filled up: the length of the text. */
  lemma EncodedLength(data: bytes)
    ensures |Encoded(data)| == (8 * |data| + 4) / 5
  {
    hide Ungroup, Chars, Group;
    GroupLength(data, 8);
  }

  /** The alphabet is the one of section 6 of RFC 4648. */
  lemma AlphabetIsRfc4648(q: quint)
    ensures CharOf(q) == "ABCDEFGHIJKLMNOPQRSTUVWXYZ234567"[q]
    ensures forall c :: QuintOf(c) == Some(q) <==> c == "ABCDEFGHIJKLMNOPQRSTUVWXYZ234567"[q]
  {
  }

  /** Decoding undoes encoding, for every byte string. */
  lemma DecodedOfEncoded(data: bytes)
    ensures IsText(Encoded(data)) && Decoded(Encoded(data)) == data
  {
    hide Group, Ungroup, Pow2;
    Widths();
    var b := FilledBits(data);
    QuintsOfChars(Ungroup(b, 5));
    assert |b| == (|b| / 5) * 5;
    GroupOfUngroup(|b| / 5, b, 5);
    UngroupOfGroup(data, Zeros(FillLength(|Group(data, 8)|)), 8);
  }

  /** A text cut after a multiple of eight characters may be decoded in two pieces. */
  lemma DecodedByParts(a: string, b: string)
    requires IsText(a) && IsText(b) && |a| % 8 == 0
    ensures IsText(a + b) && Decoded(a + b) == Decoded(a) + Decoded(b)
  {
    hide Group, Ungroup, Pow2;
    assert Quints(a + b) == Quints(a) + Quints(b);
    GroupConcat(Quints(a), Quints(b), 5);
    GroupLength(Quints(a), 5);
    UngroupConcat(|a| / 8 * 5, Group(Quints(a), 5), Group(Quints(b), 5), 8);
  }

  method Encode(data: bytes) returns (s: string)
    ensures s == Encoded(data)
  {
    hide Group, Ungroup, Pow2;
    Widths();
    var quints, buffer, bitsLeft := Repack(data, 8, 5);
    GroupLength(data, 8);
    GroupLength(quints, 5);
    ghost var b := Group(data, 8);
    if bitsLeft > 0 {
      FillTail(quints, buffer, bitsLeft, b);
      var last := buffer * Pow2(5 - bitsLeft);
      quints := quints + [last];
    } else {
      assert ToBits(buffer, 0) == [];
      assert Group(quints, 5) + [] == Group(quints, 5);
      assert b + Zeros(0) == b;
    }
    assert Group(quints, 5) == FilledBits(data);
    UngroupOfGroup(quints, [], 5);
    assert Group(quints, 5) + [] == Group(quints, 5);
    s := Chars(quints);
  }

  // buffer <<= 5 - bits_left appends zero bits.
  lemma FillTail(quints: seq<nat>, buffer: nat, bitsLeft: nat, b: bits)
    requires 0 < bitsLeft < 5 && buffer < Pow2(bitsLeft)
    requires Group(quints, 5) + ToBits(buffer, bitsLeft) == b
    ensures var last := buffer * Pow2(5 - bitsLeft);
            last < 32 && |b| % 5 == bitsLeft && Group(quints + [last], 5) == b + Zeros(5 - bitsLeft)
  {
    hide Group, ToBits, Val, Pow2;
    Widths();
    var tail, fill := ToBits(buffer, bitsLeft), Zeros(5 - bitsLeft);
    ValOfToBits(buffer, bitsLeft);
    ValConcat(tail, fill);
    ValOfZeros(5 - bitsLeft);
    ValBound(tail + fill);
    var last := buffer * Pow2(5 - bitsLeft);
    ToBitsOfVal(tail + fill);
    GroupLength(quints, 5);
    GroupConcat(quints, [last], 5);
    SingleGroup(last, 5);
    assert Group(quints, 5) + (tail + fill) == b + fill;
  }

  lemma SingleGroup(v: nat, width: nat)
    ensures Group([v], width) == ToBits(v, width)
  {
    assert [v][..0] == [];
    assert Group([], width) + ToBits(v, width) == ToBits(v, width);
  }

  lemma {:induction false} ValOfZeros(n: nat)
    ensures Val(Zeros(n)) == 0
  {
    if n > 0 {
      assert Zeros(n)[..n - 1] == Zeros(n - 1);
      ValOfZeros(n - 1);
    }
  }

  // rstrip("=")
  function StripPadding(s: string): string {
    if s != [] && s[|s| - 1] == '=' then StripPadding(s[..|s| - 1]) else s
  }

  /** Decoding raises on a character outside the alphabet, and ignores trailing padding. */
  method Decode(encoded: string) returns (r: Option<bytes>)
    ensures var s := StripPadding(encoded);
            if IsText(s) then r == Some(Decoded(s)) else r == None
  {
    hide Group, Ungroup, Pow2;
    Widths();
    var s := StripPadding(encoded);
    var quints: seq<nat> := [];
    for i := 0 to |s|
      invariant IsText(s[..i]) && quints == Quints(s[..i])
    {
      var q := QuintOf(s[i]);
      if q == None {
        assert s[i] in s;
        return None;
      }
      assert s[..i + 1] == s[..i] + [s[i]];
      quints := quints + [q.value];
    }
    assert s[..|s|] == s;
    var out, buffer, bitsLeft := Repack(quints, 5, 8);
    UngroupOfGroup(out, ToBits(buffer, bitsLeft), 8);
    assert forall i | 0 <= i < |out| :: out[i] in out;
    var data: bytes := out;
    r := Some(data);
  }
}
