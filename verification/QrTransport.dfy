/**
 Splitting into animated QR frames (src/krux/qr.py:108-187; src/krux/bbqr.py:167-177) and what the parser
 makes of them, in any order and with any repetitions.
 */
module QrTransport {
  import opened Bytes
  import opened Decimal
  import opened KeySum
  import opened QrParser

  // ---------------------------------------------------------------- order-free reassembly

  /** Frames that all detect as one kind and parse to consecutive parts of one total. */
  ghost predicate Family(kind: Kind, frames: seq<string>, parts: seq<string>) {
    && 0 < |frames| == |parts|
    && forall i | 0 <= i < |frames| ::
         && Detect(frames[i]) == kind
         && ParseAs(kind, frames[i]) == Some(Part(parts[i], FirstIndex(kind) + i, |frames|))
  }

  function Concat(parts: seq<string>): string {
    if parts == [] then [] else parts[0] + Concat(parts[1..])
  }

  predicate InRange(order: seq<nat>, n: nat) { forall j | 0 <= j < |order| :: order[j] < n }

  ghost function Seen(order: seq<nat>): set<int> { set j | 0 <= j < |order| :: order[j] }

  // The parser after the frames with the given indices, in that order.
  function Feed(s: State, frames: seq<string>, order: seq<nat>): Option<State>
    requires InRange(order, |frames|)
  {
    if order == [] then Some(s)
    else
      var n := |order| - 1;
      var before := Feed(s, frames, order[..n]);
      if before.None? then None else Step(before.value, frames[order[n]])
  }

  ghost predicate Holds(s: State, kind: Kind, parts: seq<string>, seen: set<int>) {
    && s.kind == Some(kind) && s.total == |parts|
    && (forall i | i in seen :: 0 <= i < |parts|)
    && (forall k :: k in s.parts.Keys <==> k - FirstIndex(kind) in seen)
    && (forall k | k in s.parts.Keys :: 0 <= k - FirstIndex(kind) < |parts| && s.parts[k] == parts[k - FirstIndex(kind)])
  }

  lemma HoldsStep(s: State, kind: Kind, frames: seq<string>, parts: seq<string>, seen: set<int>, i: nat)
    requires Family(kind, frames, parts) && i < |frames|
    requires (s == FRESH && seen == {}) || Holds(s, kind, parts, seen)
    ensures Step(s, frames[i]).Some? && Holds(Step(s, frames[i]).value, kind, parts, seen + {i as int})
  {
    hide Detect, ParseAs;
    assert Detect(frames[i]) == kind && ParseAs(kind, frames[i]).Some?;
    var t := Step(s, frames[i]).value;
    assert t.parts == s.parts[FirstIndex(kind) + i := parts[i]];
    forall k
      ensures k in t.parts.Keys <==> k - FirstIndex(kind) in seen + {i as int}
    {
    }
  }

  // Feeding never fails and keeps exactly the parts seen so far.
  lemma {:induction false} FeedHolds(kind: Kind, frames: seq<string>, parts: seq<string>, order: seq<nat>)
    requires Family(kind, frames, parts) && order != [] && InRange(order, |frames|)
    ensures Feed(FRESH, frames, order).Some?
    ensures Holds(Feed(FRESH, frames, order).value, kind, parts, Seen(order))
  {
    hide Family, Holds, Step;
    var n := |order| - 1;
    var init, last := order[..n], order[n];
    assert Seen(order) == Seen(init) + {last as int} by {
      forall x | x in Seen(order)
        ensures x in Seen(init) + {last as int}
      {
        var j :| 0 <= j <= n && order[j] == x;
        if j < n {
          assert init[j] == x;
        }
      }
      assert order[n] in Seen(order);
      forall x | x in Seen(init)
        ensures x in Seen(order)
      {
        var j :| 0 <= j < n && init[j] == x;
        assert order[j] == x;
      }
    }
    if init == [] {
      assert Seen(init) == {};
      HoldsStep(FRESH, kind, frames, parts, {}, last);
    } else {
      FeedHolds(kind, frames, parts, init);
      HoldsStep(Feed(FRESH, frames, init).value, kind, frames, parts, Seen(init), last);
    }
  }

  lemma {:induction false} JoinedRange(s: map<int, string>, lo: int, parts: seq<string>)
    requires s.Keys == Range(lo, |parts|)
    requires forall i | 0 <= i < |parts| :: s[lo + i] == parts[i]
    ensures Joined(s) == Concat(parts)
    decreases |parts|
  {
    if parts == [] {
      assert s.Keys == {};
      assert s == map[];
    } else {
      assert lo in s;
      assert Least(s.Keys) == lo;
      var t := s - {lo};
      assert t.Keys == Range(lo + 1, |parts| - 1) by {
        assert t.Keys == s.Keys - {lo};
      }
      forall i | 0 <= i < |parts| - 1
        ensures t[lo + 1 + i] == parts[1..][i]
      {
        assert s[lo + (1 + i)] == parts[1 + i];
      }
      JoinedRange(t, lo + 1, parts[1..]);
    }
  }

  /**
   Order-free reassembly: whatever order and repetitions the frames come in, the parser is complete exactly
   when every part has been seen, and then its parts in key order are the original text.
   */
  lemma OrderFree(kind: Kind, frames: seq<string>, parts: seq<string>, order: seq<nat>)
    requires Family(kind, frames, parts) && order != [] && InRange(order, |frames|)
    ensures Feed(FRESH, frames, order).Some?
    ensures var s := Feed(FRESH, frames, order).value;
            && (Complete(s) <==> forall i: nat | i < |frames| :: i in order)
            && (Complete(s) ==>
                  && Joined(s.parts) == Concat(parts)
                  && s.parts.Keys == Range(FirstIndex(kind), |parts|)
                  && forall i | 0 <= i < |parts| :: s.parts[FirstIndex(kind) + i] == parts[i])
  {
    hide Family, Joined, Concat, Holds, Complete, Feed, Range, Seen;
    FeedHolds(kind, frames, parts, order);
    FamilySizes(kind, frames, parts);
    HoldsComplete(Feed(FRESH, frames, order).value, kind, parts, Seen(order));
    SeenIsOrder(order, |frames|);
  }

  lemma SeenIsOrder(order: seq<nat>, n: nat)
    ensures forall i: nat | i < n :: i in order <==> i in Seen(order)
  {
    forall i: nat | i < n
      ensures i in order <==> i in Seen(order)
    {
      if i in order {
        var j :| 0 <= j < |order| && order[j] == i;
        assert order[j] in Seen(order);
      }
    }
  }

  lemma KeysAreRange(s: State, kind: Kind, parts: seq<string>, seen: set<int>)
    requires Holds(s, kind, parts, seen)
    ensures s.parts.Keys == Range(FirstIndex(kind), |parts|) <==> forall i: nat | i < |parts| :: i in seen
  {
    var lo, n := FirstIndex(kind), |parts|;
    if s.parts.Keys == Range(lo, n) {
      forall i: nat | i < n
        ensures i in seen
      {
        assert lo + i in s.parts.Keys;
      }
    }
    if forall i: nat | i < n :: i in seen {
      assert forall k :: k in s.parts.Keys <==> k in Range(lo, n);
      assert s.parts.Keys == Range(lo, n);
    }
  }

  lemma HoldsComplete(s: State, kind: Kind, parts: seq<string>, seen: set<int>)
    requires Holds(s, kind, parts, seen) && parts != []
    ensures Complete(s) <==> forall i: nat | i < |parts| :: i in seen
    ensures Complete(s) ==> Joined(s.parts) == Concat(parts)
    ensures Complete(s) ==> s.parts.Keys == Range(FirstIndex(kind), |parts|)
    ensures Complete(s) ==> forall i | 0 <= i < |parts| :: s.parts[FirstIndex(kind) + i] == parts[i]
  {
    hide Joined, Concat, Sum, SumRange;
    var lo, n := FirstIndex(kind), |parts|;
    SumTestIsExact(s.parts.Keys, lo, n);
    assert |s.parts| == |s.parts.Keys|;
    assert Complete(s) <==> s.parts.Keys == Range(lo, n);
    KeysAreRange(s, kind, parts, seen);
    if s.parts.Keys == Range(lo, n) {
      PartsInOrder(s, kind, parts, seen);
    }
  }

  lemma PartsInOrder(s: State, kind: Kind, parts: seq<string>, seen: set<int>)
    requires Holds(s, kind, parts, seen) && s.parts.Keys == Range(FirstIndex(kind), |parts|)
    ensures Joined(s.parts) == Concat(parts)
    ensures forall i | 0 <= i < |parts| :: s.parts[FirstIndex(kind) + i] == parts[i]
  {
    hide Joined, Concat;
    var lo := FirstIndex(kind);
    forall i | 0 <= i < |parts|
      ensures s.parts[lo + i] == parts[i]
    {
      assert lo + i in s.parts.Keys;
    }
    JoinedRange(s.parts, lo, parts);
  }

  lemma FamilySizes(kind: Kind, frames: seq<string>, parts: seq<string>)
    requires Family(kind, frames, parts)
    ensures 0 < |frames| == |parts|
  {
  }

  // ---------------------------------------------------------------- one plain text

  /** What is taken for a multi-part frame, and for which format. */
  lemma DetectIs(data: string)
    ensures Detect(data).PMofN? ==> data != [] && data[0] == 'p' && FindOf(data[..FindSpace(data, 0)], 0) >= 2
    ensures Detect(data).BBQr? <==>
            |data| >= 4 && data[..2] == "B$" && KnownEncoding(data[2]) && KnownFileType(data[3])
    ensures Detect(data).BBQr? ==> Detect(data) == BBQr(data[2], data[3])
    ensures data == [] || (data[0] != 'p' && data[0] != 'B') ==> Detect(data) == Plain
  {
    assert |data| >= 4 ==> (data[..2] == "B$" <==> data[0] == 'B' && data[1] == '$');
  }

  /** A text without a header completes a fresh parser by itself, and is what it joins. */
  lemma PlainTransport(data: string)
    requires Detect(data) == Plain
    ensures var s := Feed(FRESH, [data], [0]);
            && s.Some? && Complete(s.value) && Joined(s.value.parts) == data && s.value.parts == map[1 := data]
  {
    assert Family(Plain, [data], [data]);
    OrderFree(Plain, [data], [data], [0]);
    assert Concat([data]) == data + Concat([]);
    var s := Feed(FRESH, [data], [0]).value;
    assert [0][..0] == [];
    assert Step(FRESH, data) == Some(State(map[1 := data], 1, Some(Plain)));
  }

  // ---------------------------------------------------------------- splitting

  // data[i * size : (i + 1) * size], the last part open-ended.
  function PartOf(data: string, n: nat, size: nat, i: nat): string
    requires i < n
  {
    var from := Min(i * size, |data|);
    if i == n - 1 then data[from..] else data[from..Min((i + 1) * size, |data|)]
  }

  function PartsOf(data: string, n: nat, size: nat): (r: seq<string>)
    ensures |r| == n
  {
    seq(n, i requires 0 <= i < n => PartOf(data, n, size, i))
  }

  lemma {:induction false} ConcatFrom(data: string, n: nat, size: nat, i: nat)
    requires i < n
    ensures Concat(PartsOf(data, n, size)[i..]) == data[Min(i * size, |data|)..]
    decreases n - i
  {
    var parts := PartsOf(data, n, size);
    assert parts[i..][0] == PartOf(data, n, size, i) && parts[i..][1..] == parts[i + 1..];
    if i < n - 1 {
      ConcatFrom(data, n, size, i + 1);
      assert i * size <= (i + 1) * size by { assert (i + 1) * size == i * size + size; }
      var from, to := Min(i * size, |data|), Min((i + 1) * size, |data|);
      assert data[from..to] + data[to..] == data[from..];
    } else {
      assert parts[i + 1..] == [];
    }
  }

  /** The parts of any split, in order, are the data. */
  lemma PartsCover(data: string, n: nat, size: nat)
    requires n > 0
    ensures Concat(PartsOf(data, n, size)) == data
  {
    ConcatFrom(data, n, size, 0);
    assert PartsOf(data, n, size)[0..] == PartsOf(data, n, size);
  }

  // ---------------------------------------------------------------- pMofN frames

  function PMofNHeader(i: nat, n: nat): string { "p" + ToDecimal(i + 1) + "of" + ToDecimal(n) + " " }

  function PMofNFrame(data: string, n: nat, size: nat, i: nat): string
    requires i < n
  {
    PMofNHeader(i, n) + PartOf(data, n, size, i)
  }

  lemma {:induction false} FindOfSkips(s: string, i: nat, k: nat)
    requires i <= k && k + 1 < |s| && s[k] == 'o' && s[k + 1] == 'f'
    requires forall j | i <= j < k :: s[j] != 'o'
    ensures FindOf(s, i) == k
    decreases k - i
  {
    if i < k {
      FindOfSkips(s, i + 1, k);
    }
  }

  lemma {:induction false} FindSpaceSkips(s: string, i: nat, k: nat)
    requires i <= k < |s| && s[k] == ' ' && forall j | i <= j < k :: s[j] != ' '
    ensures FindSpace(s, i) == k
    decreases k - i
  {
    if i < k {
      FindSpaceSkips(s, i + 1, k);
    }
  }

  lemma HeaderParses(i: nat, n: nat, text: string)
    ensures var frame := PMofNHeader(i, n) + text;
            Detect(frame) == PMofN && ParsePMofN(frame) == Some(Part(text, i + 1, n))
  {
    hide ToDecimal, ParseInt;
    var a, b := ToDecimal(i + 1), ToDecimal(n);
    var header := PMofNHeader(i, n);
    var frame := header + text;
    var of_, space := 1 + |a|, 3 + |a| + |b|;
    assert header == "p" + a + "of" + b + " ";
    assert frame[1..of_] == a && frame[of_ + 2..space] == b && frame[space + 1..] == text;
    assert frame[0] == 'p' && frame[of_] == 'o' && frame[of_ + 1] == 'f' && frame[space] == ' ';
    forall j | 0 <= j < space && j != of_ && j != of_ + 1
      ensures frame[j] != 'o' && frame[j] != ' '
    {
      if 1 <= j < of_ {
        assert frame[j] == a[j - 1] && IsDigit(a[j - 1]);
      } else if of_ + 2 <= j {
        assert frame[j] == b[j - of_ - 2] && IsDigit(b[j - of_ - 2]);
      }
    }
    FindOfSkips(frame, 0, of_);
    FindSpaceSkips(frame, 0, space);
    FindOfSkips(frame[..space], 0, of_);
    assert frame[..space][1..of_] == a;
    ParseOfDecimal(i + 1);
    ParseOfDecimal(n);
  }

  function PMofNCycle(data: string, n: nat, size: nat): (r: seq<string>)
    ensures |r| == n
  {
    seq(n, i requires 0 <= i < n => PMofNFrame(data, n, size, i))
  }

  /** The pMofN frames of any split of any text reassemble to that text in any order. */
  lemma PMofNFamily(data: string, n: nat, size: nat)
    requires n > 0
    ensures Family(PMofN, PMofNCycle(data, n, size), PartsOf(data, n, size))
    ensures Concat(PartsOf(data, n, size)) == data
  {
    hide Detect, ParsePMofN, PMofNHeader, PartOf, Concat;
    PartsCover(data, n, size);
    forall i | 0 <= i < n
      ensures Detect(PMofNFrame(data, n, size, i)) == PMofN
      ensures ParsePMofN(PMofNFrame(data, n, size, i)) == Some(Part(PartOf(data, n, size, i), i + 1, n))
    {
      HeaderParses(i, n, PartOf(data, n, size, i));
    }
  }

  // ---------------------------------------------------------------- BBQr frames

  function BBQrFrame(encoding: char, fileType: char, payload: string, n: nat, size: nat, i: nat): string
    requires i < n <= 1295
  {
    "B$" + [encoding, fileType] + ToBase36(n).value + ToBase36(i).value + PartOf(payload, n, size, i)
  }

  lemma BBQrParses(encoding: char, fileType: char, payload: string, n: nat, size: nat, i: nat)
    requires i < n <= 1295 && KnownEncoding(encoding) && KnownFileType(fileType)
    ensures var frame := BBQrFrame(encoding, fileType, payload, n, size, i);
            Detect(frame) == BBQr(encoding, fileType) &&
            ParseBBQr(frame) == Some(Part(PartOf(payload, n, size, i), i, n))
  {
    hide PartOf, ToBase36, ParseBase36;
    var frame := BBQrFrame(encoding, fileType, payload, n, size, i);
    assert |ToBase36(n).value| == 2 && |ToBase36(i).value| == 2 by { Base36Length(n); Base36Length(i); }
    assert frame[4..6] == ToBase36(n).value && frame[6..8] == ToBase36(i).value;
    assert frame[8..] == PartOf(payload, n, size, i);
    ParseOfBase36(n);
    ParseOfBase36(i);
  }

  lemma Base36Length(n: int)
    requires 0 <= n <= 1295
    ensures ToBase36(n).Some? && |ToBase36(n).value| == 2
  {
  }

  /** Which frames parse as BBQr, and to what: known letters, two numbers in base 36, and an index below the total. */
  lemma BBQrParsesExactly(data: string)
    ensures ParseBBQr(data).Some? <==>
            && |data| >= 8 && KnownEncoding(data[2]) && KnownFileType(data[3])
            && ParseBase36(data[4..6]).Some? && ParseBase36(data[6..8]).Some?
            && ParseBase36(data[6..8]).value < ParseBase36(data[4..6]).value
    ensures ParseBBQr(data).Some? ==>
              ParseBBQr(data).value == Part(data[8..], ParseBase36(data[6..8]).value, ParseBase36(data[4..6]).value)
  {
    hide ParseBase36;
  }

  function BBQrCycle(encoding: char, fileType: char, payload: string, n: nat, size: nat): (r: seq<string>)
    requires n <= 1295
    ensures |r| == n
  {
    seq(n, i requires 0 <= i < n => BBQrFrame(encoding, fileType, payload, n, size, i))
  }

  /** The BBQr frames of any split into at most 1295 parts reassemble to the payload in any order. */
  lemma BBQrFamily(encoding: char, fileType: char, payload: string, n: nat, size: nat)
    requires 0 < n <= 1295 && KnownEncoding(encoding) && KnownFileType(fileType)
    ensures Family(BBQr(encoding, fileType), BBQrCycle(encoding, fileType, payload, n, size), PartsOf(payload, n, size))
    ensures Concat(PartsOf(payload, n, size)) == payload
  {
    hide Detect, ParseBBQr, BBQrFrame, PartOf, Concat;
    PartsCover(payload, n, size);
    forall i | 0 <= i < n
      ensures Detect(BBQrFrame(encoding, fileType, payload, n, size, i)) == BBQr(encoding, fileType)
      ensures ParseBBQr(BBQrFrame(encoding, fileType, payload, n, size, i)) ==
              Some(Part(PartOf(payload, n, size, i), i, n))
    {
      BBQrParses(encoding, fileType, payload, n, size, i);
    }
  }
}
