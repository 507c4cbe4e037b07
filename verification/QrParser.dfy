/**
 Reassembling animated QR codes (src/krux/qr.py:41-105, 190-214; src/krux/bbqr.py:54-79): frame headers,
 format detection, and the stateful parser.
 */
module QrParser {
  import opened Bytes
  import opened Decimal
  import opened KeySum

  // FORMAT_NONE, FORMAT_PMOFN, and FORMAT_BBQR with the encoding and file type of the first frame.
  datatype Kind = Plain | PMofN | BBQr(encoding: char, fileType: char)

  datatype Part = Part(text: string, index: int, total: int)

  predicate KnownEncoding(c: char) { c == 'H' || c == '2' || c == 'Z' }
  predicate KnownFileType(c: char) { c == 'P' || c == 'T' || c == 'J' || c == 'U' }

  // ---------------------------------------------------------------- headers

  // s.index("of") and s.index(" "), from position i; the length of s where Python raises.
  function FindOf(s: string, i: nat): (n: nat)
    requires i <= |s|
    ensures i <= n <= |s| && (n < |s| ==> n + 1 < |s| && s[n] == 'o' && s[n + 1] == 'f')
    decreases |s| - i
  {
    if i == |s| then i
    else if i + 1 < |s| && s[i] == 'o' && s[i + 1] == 'f' then i
    else FindOf(s, i + 1)
  }

  function FindSpace(s: string, i: nat): (n: nat)
    requires i <= |s|
    ensures i <= n <= |s| && (n < |s| ==> s[n] == ' ')
    decreases |s| - i
  {
    if i == |s| || s[i] == ' ' then i else FindSpace(s, i + 1)
  }

  function ParsePMofN(data: string): Option<Part> {
    var of_, space := FindOf(data, 0), FindSpace(data, 0);
    if of_ == |data| || space == |data| then None
    else
      var index := ParseInt(if of_ < 1 then [] else data[1..of_]);
      var total := ParseInt(if space < of_ + 2 then [] else data[of_ + 2..space]);
      if index.None? || total.None? then None else Some(Part(data[space + 1..], index.value, total.value))
  }

  function ParseBBQr(data: string): Option<Part> {
    if |data| < 8 || !KnownEncoding(data[2]) || !KnownFileType(data[3]) then None
    else
      var total, index := ParseBase36(data[4..6]), ParseBase36(data[6..8]);
      if total.None? || index.None? || index.value >= total.value then None
      else Some(Part(data[8..], index.value, total.value))
  }

  function ParseAs(kind: Kind, data: string): Option<Part> {
    match kind
    case Plain => Some(Part(data, 1, 1))
    case PMofN => ParsePMofN(data)
    case BBQr(_, _) => ParseBBQr(data)
  }

  function Detect(data: string): Kind {
    if data != [] && data[0] == 'p' then
      var header := data[..FindSpace(data, 0)];
      var of_ := FindOf(header, 0);
      if of_ < |header| && 1 <= of_ && IsDigits(header[1..of_]) then PMofN else Plain
    else if |data| >= 4 && data[0] == 'B' && data[1] == '$' && KnownFileType(data[3]) && KnownEncoding(data[2]) then
      BBQr(data[2], data[3])
    else Plain
  }

  // ---------------------------------------------------------------- parser state

  datatype State = State(parts: map<int, string>, total: int, kind: Option<Kind>)

  const FRESH := State(map[], -1, None)

  // One call of parse; None where it raises.
  function Step(s: State, data: string): Option<State> {
    var kind := if s.kind.Some? then s.kind.value else Detect(data);
    match ParseAs(kind, data)
    case None => None
    case Some(p) => Some(State(s.parts[p.index := p.text], p.total, Some(kind)))
  }

  function FirstIndex(kind: Kind): int { if kind.BBQr? then 0 else 1 }

  ghost predicate Complete(s: State) {
    && s.total != -1
    && |s.parts| == s.total
    && s.kind.Some? && Sum(s.parts.Keys) == SumRange(FirstIndex(s.kind.value), s.total)
  }

  ghost function Least(keys: set<int>): (m: int)
    requires keys != {}
    ensures m in keys && forall k | k in keys :: m <= k
  {
    LeastExists(keys);
    var m :| m in keys && forall k | k in keys :: m <= k;
    m
  }

  lemma {:induction false} LeastExists(keys: set<int>)
    requires keys != {}
    ensures exists m :: m in keys && forall k | k in keys :: m <= k
  {
    HasElement(keys);
    var x :| x in keys;
    var rest := keys - {x};
    assert forall k | k in keys :: k == x || k in rest;
    if rest != {} {
      LeastExists(rest);
      var m :| m in rest && forall k | k in rest :: m <= k;
      if m < x {
        assert m in keys;
      }
    }
  }

  // The parts in the order of their keys.
  ghost function Joined(parts: map<int, string>): string
    decreases |parts|
  {
    if parts == map[] then []
    else
      KeysNotEmpty(parts);
      var m := Least(parts.Keys);
      RemoveShrinks(parts, m);
      parts[m] + Joined(parts - {m})
  }

  lemma KeysNotEmpty(parts: map<int, string>)
    requires parts != map[]
    ensures parts.Keys != {}
  {
    if parts.Keys == {} {
      assert false;
    }
  }

  lemma RemoveShrinks(parts: map<int, string>, k: int)
    requires k in parts
    ensures |parts - {k}| < |parts|
  {
    assert (parts - {k}).Keys == parts.Keys - {k};
  }

  // ---------------------------------------------------------------- the object

  class QRPartParser {
    var parts: map<int, string>
    var total: int
    var kind: Option<Kind>

    function Current(): State
      reads this
    {
      State(parts, total, kind)
    }

    constructor ()
      ensures Current() == FRESH
    {
      parts, total, kind := map[], -1, None;
    }

    /** Stores one frame; a frame that does not parse raises and leaves all but the format alone. */
    method Parse(data: string) returns (r: Option<Part>)
      modifies this
      ensures r.Some? <==> Step(old(Current()), data).Some?
      ensures r.Some? ==> Current() == Step(old(Current()), data).value
      ensures r.None? ==> parts == old(parts) && total == old(total)
      ensures r.Some? ==> parts == old(parts)[r.value.index := r.value.text] && total == r.value.total
      ensures kind == Some(if old(kind).Some? then old(kind).value else Detect(data))
    {
      if kind == None {
        kind := Some(Detect(data));
      }
      r := ParseAs(kind.value, data);
      if r.Some? {
        parts := parts[r.value.index := r.value.text];
        total := r.value.total;
      }
    }

    /** The completeness test, summing the keys one by one. */
    method IsComplete() returns (b: bool)
      ensures b <==> Complete(Current())
    {
      if kind == None || total == -1 || |parts| != total {
        return false;
      }
      var todo, sum := parts.Keys, 0;
      while todo != {}
        invariant sum + Sum(todo) == Sum(parts.Keys)
        decreases |todo|
      {
        HasElement(todo);
        var k :| k in todo;
        SumRemove(todo, k);
        sum, todo := sum + k, todo - {k};
      }
      return sum == SumRange(FirstIndex(kind.value), total);
    }

    /** The parts joined in key order. */
    method Result() returns (r: string)
      ensures r == Joined(parts)
    {
      var todo := parts;
      r := [];
      while todo != map[]
        invariant r + Joined(todo) == Joined(parts)
        decreases |todo|
      {
        KeysNotEmpty(todo);
        var m := LeastKey(todo.Keys);
        RemoveShrinks(todo, m);
        assert r + (todo[m] + Joined(todo - {m})) == r + todo[m] + Joined(todo - {m});
        r, todo := r + todo[m], todo - {m};
      }
    }
  }

  method LeastKey(keys: set<int>) returns (m: int)
    requires keys != {}
    ensures m == Least(keys)
  {
    HasElement(keys);
    m :| m in keys;
    var todo := keys - {m};
    while todo != {}
      invariant m in keys && todo <= keys && forall k | k in keys && k !in todo :: m <= k
      decreases |todo|
    {
      HasElement(todo);
      var k :| k in todo;
      m, todo := if k < m then k else m, todo - {k};
    }
  }

  // ---------------------------------------------------------------- the sum test on any run

  function FeedAll(s: State, data: seq<string>): Option<State> {
    if data == [] then Some(s)
    else
      var before := FeedAll(s, data[..|data| - 1]);
      if before.None? then None else Step(before.value, data[|data| - 1])
  }

  /**
   On any run whose keys start no lower than the format's first index, even one in which the announced total
   changes, completeness means that exactly the parts of the last announced total are there.
   */
  lemma CompleteMeansAll(data: seq<string>)
    requires data != [] && FeedAll(FRESH, data).Some?
    requires var s := FeedAll(FRESH, data).value; forall k | k in s.parts.Keys :: s.kind.Some? && FirstIndex(s.kind.value) <= k
    ensures var s := FeedAll(FRESH, data).value;
            s.kind.Some? && (Complete(s) <==> s.total >= 0 && s.parts.Keys == Range(FirstIndex(s.kind.value), s.total))
  {
    hide Sum, SumRange, ParseAs, Detect;
    var s := FeedAll(FRESH, data).value;
    assert |s.parts| == |s.parts.Keys|;
    if s.total >= 0 {
      SumTestIsExact(s.parts.Keys, FirstIndex(s.kind.value), s.total);
    }
  }

  lemma ShortHeader(d: char, c: char)
    requires IsDigit(d) && IsDigit(c)
    ensures var frame := ['p', d, 'o', 'f', '2', ' ', c];
            Detect(frame) == PMofN && ParsePMofN(frame) == Some(Part([c], DigitValue(d), 2))
  {
    var frame := ['p', d, 'o', 'f', '2', ' ', c];
    assert FindOf(frame, 2) == 2 && FindOf(frame, 1) == 2 && FindOf(frame, 0) == 2;
    assert FindSpace(frame, 5) == 5 && FindSpace(frame, 3) == 5 && FindSpace(frame, 1) == 5 && FindSpace(frame, 0) == 5;
    var header := frame[..5];
    assert header == ['p', d, 'o', 'f', '2'];
    assert FindOf(header, 2) == 2 && FindOf(header, 1) == 2 && FindOf(header, 0) == 2;
    assert frame[1..2] == [d] && frame[4..5] == ['2'] && header[1..2] == [d] && frame[6..] == [c];
    assert [d][..0] == [] && ['2'][..0] == [];
    assert Value([d]) == DigitValue(d) && Value(['2']) == 2;
  }

  /** A zero index fools it: frames 0 and 3 of 2 count as complete. */
  lemma ZeroIndexFools()
    ensures var s := FeedAll(FRESH, ["p0of2 8", "p3of2 9"]);
            s.Some? && Complete(s.value) && s.value.parts.Keys == {0, 3}
  {
    hide Detect, ParsePMofN;
    ShortHeader('0', '8');
    ShortHeader('3', '9');
    var data: seq<string> := ["p0of2 8", "p3of2 9"];
    assert data[..1] == ["p0of2 8"] && data[..1][..0] == [];
    assert data[0] == ['p', '0', 'o', 'f', '2', ' ', '8'] && data[1] == ['p', '3', 'o', 'f', '2', ' ', '9'];
    assert FeedAll(FRESH, data[..1]) == Some(State(map[0 := "8"], 2, Some(PMofN)));
    var s := FeedAll(FRESH, data).value;
    assert s == State(map[0 := "8", 3 := "9"], 2, Some(PMofN));
    assert s.parts.Keys == {0, 3};
    SumTestNeedsPositiveKeys();
  }
}
