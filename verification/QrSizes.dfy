/** How many frames, and how large (src/krux/qr.py:35-38, 108-187). */
module QrSizes {
  import opened Arith
  import opened Bytes
  import opened Decimal
  import opened QrParser
  import opened QrTransport

  const CAPACITY_ALPHANUMERIC: seq<nat> :=
    [25, 47, 77, 114, 154, 195, 224, 279, 335, 395, 468, 535, 619, 667, 758, 854, 938, 1046, 1153, 1249]
  const CAPACITY_BYTE: seq<nat> :=
    [17, 32, 53, 78, 106, 134, 154, 192, 230, 271, 321, 367, 425, 458, 520, 586, 644, 718, 792, 858]

  // capacity_list[qr_version - 1] with Python's negative indices; past either end the last entry.
  function MaxQrBytes(maxWidth: int, capacities: seq<nat>): nat
    requires |capacities| == 20
  {
    var i := (maxWidth - 2 - 17) / 4 - 1;
    if 0 <= i < 20 then capacities[i] else if -20 <= i < 0 then capacities[20 + i] else capacities[19]
  }

  lemma CapacityBounds(maxWidth: int)
    ensures MaxQrBytes(maxWidth, CAPACITY_BYTE) >= 17 && MaxQrBytes(maxWidth, CAPACITY_ALPHANUMERIC) >= 25
  {
  }

  // The bytes a pMofN frame may have.
  function TextCapacity(maxWidth: int): (c: nat)
    ensures c >= 17
  {
    CapacityBounds(maxWidth);
    MaxQrBytes(maxWidth, CAPACITY_BYTE)
  }

  // The characters a BBQr frame may have.
  function Capacity(maxWidth: int): (c: nat)
    ensures c >= 16
  {
    CapacityBounds(maxWidth);
    MaxQrBytes(maxWidth, CAPACITY_ALPHANUMERIC)
  }

  datatype Split = Split(count: nat, size: nat)

  function CeilDiv(a: nat, b: nat): nat
    requires b > 0
  {
    (a + b - 1) / b
  }

  // None where the division by zero parts raises.
  function SplitPMofN(length: nat, capacity: nat): Option<Split>
    requires capacity > 8
  {
    var few := CeilDiv(length, capacity - 6);
    var n := if few > 9 then CeilDiv(length, capacity - 8) else few;
    if n == 0 then None else Some(Split(n, CeilDiv(length, n)))
  }

  function RoundUp8(n: nat): nat { ((n + 7) / 8) * 8 }

  function SplitBBQr(length: nat, capacity: nat): Split
    requires capacity >= 16
  {
    if length < capacity - 8 then Split(1, length)
    else
      var most := ((capacity - 8) / 8) * 8;
      var n := CeilDiv(length, most);
      assert n > 0 by { CeilDivFacts(length, most); }
      var size := RoundUp8(length / n);
      if size > most then Split(n + 1, RoundUp8(length / (n + 1))) else Split(n, size)
  }

  // ---------------------------------------------------------------- arithmetic

  lemma CeilDivFacts(a: nat, b: nat)
    requires b > 0
    ensures CeilDiv(a, b) * b >= a
    ensures a > 0 ==> CeilDiv(a, b) > 0 && (CeilDiv(a, b) - 1) * b < a
  {
    var n := CeilDiv(a, b);
    assert n * b <= a + b - 1 < n * b + b;
    assert (n - 1) * b == n * b - b;
  }

  // The least n with n * b >= a is at most any such n.
  lemma CeilDivLeast(a: nat, b: nat, n: nat)
    requires b > 0 && n * b >= a
    ensures CeilDiv(a, b) <= n
  {
    CeilDivFacts(a, b);
    if a > 0 && CeilDiv(a, b) > n {
      MulMonotone(n, CeilDiv(a, b) - 1, b);
    } else if a == 0 {
      assert CeilDiv(0, b) == 0;
    }
  }

  lemma DivBelow(a: nat, n: nat, m: nat)
    requires n > 0 && a <= n * m
    ensures a / n <= m
  {
    var q := a / n;
    assert q * n <= a && (m + 1) * n == n * m + n;
    if q > m {
      MulMonotone(m + 1, q, n);
    }
  }

  // ---------------------------------------------------------------- pMofN

  /** The pMofN split: every part but the last is full, and the last is not empty. */
  lemma SplitPMofNFacts(length: nat, capacity: nat)
    requires capacity >= 17 && length > 0
    ensures var s := SplitPMofN(length, capacity);
            && s.Some? && s.value.count > 0 && s.value.count * s.value.size >= length
            && s.value.size <= capacity - (if s.value.count <= 9 then 6 else 8)
            && (s.value.count - 1) * s.value.size < length
            && (s.value.count - 1) * (capacity - (if s.value.count <= 9 then 6 else 8)) < length
            && s.value.count * (s.value.size - 1) < length
  {
    hide CeilDiv;
    var few := CeilDiv(length, capacity - 6);
    CeilDivFacts(length, capacity - 6);
    if few > 9 {
      var n := CeilDiv(length, capacity - 8);
      EvenSplit(length, capacity - 8, n);
      MulMonotone(capacity - 8, capacity - 6, n);
      CeilDivLeast(length, capacity - 6, n);
    } else {
      EvenSplit(length, capacity - 6, few);
    }
  }

  // Spreading the data evenly over the parts makes no part larger than the limit they came from.
  lemma EvenSplit(length: nat, most: nat, n: nat)
    requires length > 0 && most > 0 && n == CeilDiv(length, most)
    ensures n > 0 && n * most >= length && n * CeilDiv(length, n) >= length && CeilDiv(length, n) <= most
    ensures (n - 1) * CeilDiv(length, n) < length && (n - 1) * most < length && n * (CeilDiv(length, n) - 1) < length
  {
    hide CeilDiv;
    CeilDivFacts(length, most);
    CeilDivFacts(length, n);
    assert n * most == most * n;
    CeilDivLeast(length, n, most);
    MulMonotone(CeilDiv(length, n), most, n - 1);
  }

  function HeaderLength(i: nat, n: nat): nat { 4 + |ToDecimal(i + 1)| + |ToDecimal(n)| }

  // A split whose parts but the last are full: the longest header before a full part, and the last frame.
  lemma FitsIfTwoFit(data: string, n: nat, size: nat, capacity: nat)
    requires n > 0 && (n - 1) * size <= |data|
    ensures (forall i: nat | i < n :: |PMofNFrame(data, n, size, i)| <= capacity) <==>
            && (n > 1 ==> HeaderLength(n - 2, n) + size <= capacity)
            && HeaderLength(n - 1, n) + (|data| - (n - 1) * size) <= capacity
  {
    hide PartOf, ToDecimal;
    LastPart(data, n, size);
    PMofNLength(data, n, size, n - 1);
    if n > 1 {
      InnerPart(data, n, size, n - 2);
      PMofNLength(data, n, size, n - 2);
    }
    forall i: nat | i < n - 1
      ensures |PMofNFrame(data, n, size, i)| <= HeaderLength(n - 2, n) + size
    {
      InnerPart(data, n, size, i);
      PMofNLength(data, n, size, i);
      DecimalLengthGrows(i + 1, n - 1);
    }
  }

  lemma PMofNLength(data: string, n: nat, size: nat, i: nat)
    requires i < n
    ensures |PMofNFrame(data, n, size, i)| == HeaderLength(i, n) + |PartOf(data, n, size, i)|
  {
    hide PartOf;
  }

  // The room the longest frames of a split need, in terms of the length of the data alone.
  predicate PMofNRoom(length: nat, capacity: nat)
    requires capacity >= 17 && length > 0
  {
    SplitPMofNFacts(length, capacity);
    var s := SplitPMofN(length, capacity).value;
    && (s.count > 1 ==> HeaderLength(s.count - 2, s.count) + s.size <= capacity)
    && HeaderLength(s.count - 1, s.count) + (length - (s.count - 1) * s.size) <= capacity
  }

  /** Every pMofN frame fits its QR code exactly when the last full frame and the last frame do. */
  lemma PMofNFitsExactly(data: string, capacity: nat)
    requires capacity >= 17 && data != []
    ensures var s := SplitPMofN(|data|, capacity);
            && s.Some?
            && ((forall i: nat | i < s.value.count ::
                   |PMofNFrame(data, s.value.count, s.value.size, i)| <= capacity) <==> PMofNRoom(|data|, capacity))
  {
    hide SplitPMofN, HeaderLength, PMofNFrame;
    SplitPMofNFacts(|data|, capacity);
    var s := SplitPMofN(|data|, capacity).value;
    FitsIfTwoFit(data, s.count, s.size, capacity);
  }

  /** Up to 99 parts they always do: the split leaves room for two digits on either side. */
  lemma UpTo99PartsFit(length: nat, capacity: nat)
    requires capacity >= 17 && length > 0
    ensures SplitPMofN(length, capacity).Some?
    ensures SplitPMofN(length, capacity).value.count <= 99 ==> PMofNRoom(length, capacity)
  {
    hide SplitPMofN, ToDecimal;
    SplitPMofNFacts(length, capacity);
    var s := SplitPMofN(length, capacity).value;
    var n := s.count;
    assert n * s.size == (n - 1) * s.size + s.size;
    DecimalLength(n);
    if n > 1 {
      DecimalLengthGrows(n - 1, n);
    }
  }

  /** From 100 parts on they need not: 900 characters at the smallest code make 100 parts that are too long. */
  lemma HundredPartsOverflow()
    ensures var capacity := MaxQrBytes(23, CAPACITY_BYTE);
            capacity == 17 && SplitPMofN(900, capacity) == Some(Split(100, 9)) && !PMofNRoom(900, capacity)
  {
    assert ToDecimal(10) == "10" && ToDecimal(100) == "100" by {
      assert ToDecimal(1) == "1";
    }
    assert ToDecimal(9) == "9" && ToDecimal(99) == "99";
  }

  /**
   pMofN end to end: every non-empty text, at every width, shown in any order and with any repetitions until every
   part has been seen, completes the parser and is what it joins; before that the parser is not complete.
   */
  lemma PMofNTransport(data: string, maxWidth: int, order: seq<nat>)
    requires data != [] && order != []
    requires var s := SplitPMofN(|data|, TextCapacity(maxWidth)); s.Some? ==> InRange(order, s.value.count)
    ensures SplitPMofN(|data|, TextCapacity(maxWidth)).Some?
    ensures var split := SplitPMofN(|data|, TextCapacity(maxWidth)).value;
            var frames := PMofNCycle(data, split.count, split.size);
            && Feed(FRESH, frames, order).Some?
            && var s := Feed(FRESH, frames, order).value;
            && (Complete(s) <==> forall i: nat | i < split.count :: i in order)
            && (Complete(s) ==> Joined(s.parts) == data)
  {
    hide SplitPMofN, PMofNCycle, PartsOf, Feed, Complete, Joined, Concat, Family;
    SplitPMofNFacts(|data|, TextCapacity(maxWidth));
    var split := SplitPMofN(|data|, TextCapacity(maxWidth)).value;
    PMofNFamily(data, split.count, split.size);
    OrderFree(PMofN, PMofNCycle(data, split.count, split.size), PartsOf(data, split.count, split.size), order);
  }

  // ---------------------------------------------------------------- BBQr

  /**
   The shape of a BBQr split: one part, or parts of a multiple of eight characters that all fit, with
   something left for the last one.  The correction for oversized parts is never taken.
   */
  lemma SplitBBQrFacts(length: nat, capacity: nat)
    requires capacity >= 16
    ensures var s := SplitBBQr(length, capacity);
            && s.count > 0
            && (s.count > 1 ==> s.size % 8 == 0 && s.size <= capacity - 8 && (s.count - 1) * s.size < length)
            && (s.count > 1 ==> length / s.count <= s.size < length / s.count + 8)
            && (s.count == 1 && length < capacity - 8 ==> s.size == length)
            && (length >= capacity - 8 ==> s.count == CeilDiv(length, ((capacity - 8) / 8) * 8))
  {
    if length >= capacity - 8 {
      var most := ((capacity - 8) / 8) * 8;
      var n := CeilDiv(length, most);
      CeilDivFacts(length, most);
      hide CeilDiv;
      DivBelow(length, n, most);
      EightfoldBelow(length / n, (capacity - 8) / 8);
      MulMonotone(RoundUp8(length / n), most, n - 1);
    }
  }

  lemma EightfoldBelow(x: nat, k: nat)
    requires x <= k * 8
    ensures RoundUp8(x) <= k * 8 && RoundUp8(x) % 8 == 0 && x <= RoundUp8(x) < x + 8
  {
  }

  lemma InnerPart(payload: string, n: nat, size: nat, i: nat)
    requires i < n - 1 && (n - 1) * size <= |payload|
    ensures |PartsOf(payload, n, size)[i]| == size && |PartOf(payload, n, size, i)| == size
  {
    MulMonotone(i + 1, n - 1, size);
    assert (i + 1) * size == i * size + size;
  }

  // A split whose parts other than the last fit.
  lemma FitsIfLastFits(encoding: char, fileType: char, payload: string, n: nat, size: nat, capacity: nat)
    requires 0 < n <= 1295 && (n - 1) * size <= |payload| && (n > 1 ==> size + 8 <= capacity)
    ensures (forall i: nat | i < n :: |BBQrFrame(encoding, fileType, payload, n, size, i)| <= capacity)
       <==> |payload| + 8 <= (n - 1) * size + capacity
  {
    hide PartOf, BBQrFrame;
    LastPart(payload, n, size);
    FrameLength(encoding, fileType, payload, n, size, n - 1);
    forall i: nat | i < n - 1
      ensures |BBQrFrame(encoding, fileType, payload, n, size, i)| <= capacity
    {
      InnerPart(payload, n, size, i);
      FrameLength(encoding, fileType, payload, n, size, i);
    }
  }

  /** Every BBQr frame fits its QR code exactly when the payload is short enough for the last one to. */
  lemma BBQrFitsExactly(encoding: char, fileType: char, payload: string, capacity: nat)
    requires capacity >= 16 && SplitBBQr(|payload|, capacity).count <= 1295
    ensures var s := SplitBBQr(|payload|, capacity);
            (forall i: nat | i < s.count :: |BBQrFrame(encoding, fileType, payload, s.count, s.size, i)| <= capacity)
            <==> |payload| + 8 <= (s.count - 1) * s.size + capacity
  {
    hide SplitBBQr, CeilDiv, PartOf, BBQrFrame;
    SplitBBQrFacts(|payload|, capacity);
    var s := SplitBBQr(|payload|, capacity);
    if s.count == 1 {
      assert 0 * s.size == 0;
    }
    FitsIfLastFits(encoding, fileType, payload, s.count, s.size, capacity);
  }

  lemma LastPart(payload: string, n: nat, size: nat)
    requires n > 0 && (n - 1) * size <= |payload|
    ensures |PartOf(payload, n, size, n - 1)| == |payload| - (n - 1) * size
  {
  }

  lemma FrameLength(encoding: char, fileType: char, payload: string, n: nat, size: nat, i: nat)
    requires i < n <= 1295
    ensures |BBQrFrame(encoding, fileType, payload, n, size, i)| == 8 + |PartOf(payload, n, size, i)|
  {
    Base36Length(n);
    Base36Length(i);
  }

  /** The last BBQr frame can be too large for its QR code; the other nineteen of this split fit. */
  lemma LastBBQrFrameCanOverflow()
    ensures Capacity(48) == 224 && TextCapacity(48) == 154
    ensures var capacity := Capacity(48);
            capacity == 224 && SplitBBQr(4178, capacity) == Split(20, 208) && 8 + (4178 - 19 * 208) > capacity
  {
    assert MaxQrBytes(48, CAPACITY_ALPHANUMERIC) == 224 && MaxQrBytes(48, CAPACITY_BYTE) == 154;
    assert CeilDiv(4178, 216) == 20 && RoundUp8(4178 / 20) == 208;
  }

  // ---------------------------------------------------------------- the frame generator

  // The part shown at step k of a cycle of n.
  function Turn(k: nat, n: nat): (r: nat)
    requires n > 0
    ensures r < n
  {
    k % n
  }

  /** What to_qr_codes is given: a text to send as pMofN, or a BBQr code. */
  datatype Content = Plain(text: string) | Coded(encoding: char, fileType: char, payload: string) {
    function Data(): string { if Plain? then text else payload }

    function Header(n: nat, i: nat): string
      requires i < n && (Coded? ==> n <= 1295)
    {
      if Plain? then PMofNHeader(i, n) else "B$" + [encoding, fileType] + ToBase36(n).value + ToBase36(i).value
    }

    function Frame(n: nat, size: nat, i: nat): string
      requires i < n && (Coded? ==> n <= 1295)
    {
      if Plain? then PMofNFrame(text, n, size, i) else BBQrFrame(encoding, fileType, payload, n, size, i)
    }
  }

  /** The first frames of the endless generator: it goes through the parts in order, again and again. */
  method ToQrCodes(c: Content, n: nat, size: nat, count: nat) returns (frames: seq<string>)
    requires n > 0 && (c.Coded? ==> n <= 1295)
    ensures |frames| == count
    ensures forall k | 0 <= k < count :: frames[k] == c.Frame(n, size, Turn(k, n))
  {
    frames := [];
    var partIndex := 0;
    for k := 0 to count
      invariant |frames| == k && partIndex == Turn(k, n)
      invariant forall j | 0 <= j < k :: frames[j] == c.Frame(n, size, Turn(j, n))
    {
      hide Turn, Start, Content.Frame, Content.Header, Content.Data;
      SlicesOfPart(c, n, size, partIndex);
      NextTurn(k, n);
      var part := c.Header(n, partIndex);
      var data := c.Data();
      if partIndex == n - 1 {
        part := part + data[Min(Start(partIndex, size), |data|)..];
        partIndex := 0;
      } else {
        part := part + Slice(data, Start(partIndex, size), Start(partIndex + 1, size));
        partIndex := partIndex + 1;
      }
      frames := frames + [part];
    }
  }

  function Start(i: nat, size: nat): nat { i * size }

  lemma SlicesOfPart(c: Content, n: nat, size: nat, i: nat)
    requires i < n && (c.Coded? ==> n <= 1295)
    ensures Start(i, size) <= Start(i + 1, size)
    ensures c.Frame(n, size, i) == c.Header(n, i) +
                                   if i == n - 1 then c.Data()[Min(Start(i, size), |c.Data()|)..] else Slice(c.Data(), Start(i, size), Start(i + 1, size))
  {
    hide ToBase36, PMofNHeader;
    MulMonotone(i, i + 1, size);
  }

  lemma NextTurn(k: nat, n: nat)
    requires n > 0
    ensures Turn(k + 1, n) == if Turn(k, n) == n - 1 then 0 else Turn(k, n) + 1
  {
    var q, r := k / n, k % n;
    assert k + 1 == q * n + (r + 1);
    if r == n - 1 {
      assert k + 1 == (q + 1) * n + 0;
      DivModUnique(q + 1, n, 0);
    } else {
      DivModUnique(q, n, r + 1);
    }
  }
}
