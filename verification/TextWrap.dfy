/**
 Wrapping text into display lines (src/krux/display.py:273-355, the scanning path): one pass over the
 text against a layout described line by line.
 */
module TextWrap {
  import opened Bytes

  const ASIAN_MIN_CODEPOINT: int := 12288
  const ELLIPSIS: string := "\U{2026}"

  /** Usable pixels in a line, and the widths of narrow and wide glyphs. */
  datatype Screen = Screen(usable: nat, narrow: nat, wide: nat) {
    function Glyph(c: char): nat { if c as int >= ASIAN_MIN_CODEPOINT then wide else narrow }

    function Width(s: string): nat { if s == [] then 0 else Width(s[..|s| - 1]) + Glyph(s[|s| - 1]) }

    // text[s..e] can be one display line.
    predicate Fits(text: string, s: nat, e: nat)
      requires s <= e <= |text|
    {
      Width(text[s..e]) <= usable && forall i | s <= i < e :: text[i] != '\n'
    }

    /**
     Where a line starting at s should end: at the last word boundary up to which it fits, or, where not
     even the first word fits, after as many characters as do.
     */
    ghost predicate BestBreak(text: string, s: nat, e: nat) {
      && s <= e <= |text| && Fits(text, s, e)
      && (Boundary(text, e) ==> forall j | e < j <= |text| && Boundary(text, j) :: !Fits(text, s, j))
      && (!Boundary(text, e) ==>
            && (forall j | s <= j <= |text| && Boundary(text, j) :: !Fits(text, s, j))
            && (forall j | e < j <= |text| :: !Fits(text, s, j)))
    }

    /** Lines and where each starts; the last element of starts is how far the text was read. */
    ghost predicate Layout(text: string, lines: seq<string>, starts: seq<nat>) {
      && |starts| == |lines| + 1 && starts[0] == 0
      && (forall i | 0 <= i < |lines| :: LineAt(text, starts[i], lines[i], starts[i + 1]))
    }

    ghost predicate LineAt(text: string, s: nat, line: string, next: nat) {
      && s < |text| && BestBreak(text, s, s + |line|) && line == text[s..s + |line|]
      && next == AfterBreak(text, s + |line|)
    }

    // A layout that stops only at the end of the text or when the lines are used up.
    ghost predicate Complete(text: string, lines: seq<string>, starts: seq<nat>, maxLines: nat) {
      && Layout(text, lines, starts) && |lines| <= maxLines && starts[|lines|] <= |text|
      && (|lines| < maxLines ==> starts[|lines|] == |text|)
    }
  }

  predicate Boundary(text: string, e: nat)
    requires e <= |text|
  {
    e == |text| || text[e] == ' ' || text[e] == '\n'
  }

  // The next line starts after the blank or newline it was broken at.
  function AfterBreak(text: string, e: nat): nat
    requires e <= |text|
  {
    if e < |text| && Boundary(text, e) then e + 1 else e
  }

  // ---------------------------------------------------------------- widths

  lemma WidthSnoc(d: Screen, text: string, s: nat, e: nat)
    requires s <= e < |text|
    ensures d.Width(text[s..e + 1]) == d.Width(text[s..e]) + d.Glyph(text[e])
  {
    assert text[s..e + 1][..e - s] == text[s..e];
  }

  lemma {:induction false} WidthGrows(d: Screen, text: string, s: nat, e: nat, f: nat)
    requires s <= e <= f <= |text|
    ensures d.Width(text[s..e]) <= d.Width(text[s..f])
  {
    if e < f {
      WidthGrows(d, text, s, e, f - 1);
      WidthSnoc(d, text, s, f - 1);
    }
  }

  lemma FitsShrinks(d: Screen, text: string, s: nat, e: nat, f: nat)
    requires s <= e <= f <= |text| && d.Fits(text, s, f)
    ensures d.Fits(text, s, e)
  {
    WidthGrows(d, text, s, e, f);
  }

  // ---------------------------------------------------------------- the scan

  // Nothing beyond e fits, once e + 1 does not.
  lemma NothingBeyond(d: Screen, text: string, s: nat, e: nat)
    requires s <= e < |text| && !d.Fits(text, s, e + 1)
    ensures forall j | e < j <= |text| :: !d.Fits(text, s, j)
  {
    forall j | e < j <= |text|
      ensures !d.Fits(text, s, j)
    {
      if d.Fits(text, s, j) {
        FitsShrinks(d, text, s, e + 1, j);
      }
    }
  }

  // lastSpace as the scan keeps it: -1, or the last blank of text[start..end].
  ghost predicate LastBlank(text: string, start: nat, end: nat, lastSpace: int)
    requires start <= end <= |text|
  {
    if lastSpace == -1 then forall i | start <= i < end :: text[i] != ' '
    else start <= lastSpace < end && text[lastSpace] == ' ' && forall i | lastSpace < i < end :: text[i] != ' '
  }

  // The line that ends at a newline, or with the text.
  lemma WholeLine(d: Screen, text: string, s: nat, e: nat)
    requires s <= e <= |text| && s < |text| && d.Fits(text, s, e) && (e == |text| || text[e] == '\n')
    ensures d.LineAt(text, s, text[s..e], AfterBreak(text, e))
  {
    hide Screen.Width;
    if e < |text| {
      NothingBeyond(d, text, s, e);
    }
  }

  // The line that overflows at e.
  lemma BrokenLine(d: Screen, text: string, s: nat, e: nat, lastSpace: int)
    requires s <= e < |text| && d.Fits(text, s, e) && !d.Fits(text, s, e + 1) && text[e] != '\n'
    requires LastBlank(text, s, e + 1, lastSpace)
    ensures lastSpace == -1 || s <= lastSpace <= e
    ensures lastSpace == -1 ==> d.LineAt(text, s, text[s..e], e)
    ensures lastSpace >= 0 ==> d.LineAt(text, s, text[s..lastSpace], lastSpace + 1)
  {
    NothingBeyond(d, text, s, e);
    if lastSpace >= 0 {
      FitsShrinks(d, text, s, lastSpace, e);
    } else {
      hide Screen.Width;
    }
  }

  // The state of the scan at the start of a line, and after one more character.
  lemma FreshLine(d: Screen, text: string, s: nat)
    requires s <= |text|
    ensures d.Fits(text, s, s) && d.Width(text[s..s]) == 0 && LastBlank(text, s, s, -1)
  {
  }

  lemma OneMore(d: Screen, text: string, s: nat, e: nat, lastSpace: int)
    requires s <= e < |text| && d.Fits(text, s, e) && LastBlank(text, s, e, lastSpace) && text[e] != '\n'
    ensures LastBlank(text, s, e + 1, if text[e] == ' ' then e else lastSpace)
    ensures d.Width(text[s..e + 1]) == d.Width(text[s..e]) + d.Glyph(text[e])
    ensures d.Fits(text, s, e + 1) <==> d.Width(text[s..e + 1]) <= d.usable
  {
    WidthSnoc(d, text, s, e);
    hide Screen.Width;
  }

  lemma LayoutSnoc(d: Screen, text: string, lines: seq<string>, starts: seq<nat>, line: string, next: nat)
    requires d.Layout(text, lines, starts) && d.LineAt(text, starts[|lines|], line, next)
    ensures d.Layout(text, lines + [line], starts + [next])
  {
    hide Screen.LineAt;
  }

  /** The single pass over the text finds the best break of every line. */
  method Scan(d: Screen, text: string, maxLines: nat) returns (lines: seq<string>, end: nat, ghost starts: seq<nat>)
    ensures d.Complete(text, lines, starts, maxLines) && end == starts[|lines|]
  {
    lines, end, starts := [], 0, [0];
    assert d.Layout(text, lines, starts);
    var start, lastSpace, linePixels, lineCount := 0, -1, 0, 0;
    while end < |text| && lineCount < maxLines
      invariant lineCount == |lines| <= maxLines && |starts| == |lines| + 1 && starts[|lines|] == start
      invariant d.Layout(text, lines, starts)
      invariant start <= end <= |text| && d.Fits(text, start, end) && linePixels == d.Width(text[start..end])
      invariant lineCount == maxLines ==> start == end
      invariant LastBlank(text, start, end, lastSpace)
      decreases maxLines - lineCount, |text| - end
    {
      hide Screen.Width, Screen.Fits, Screen.LineAt, Screen.Layout, Screen.BestBreak, LastBlank;
      var c := text[end];
      if c == '\n' {
        WholeLine(d, text, start, end);
        LayoutSnoc(d, text, lines, starts, text[start..end], end + 1);
        lines, starts := lines + [text[start..end]], starts + [end + 1];
        end := end + 1;
        start, lastSpace, linePixels, lineCount := end, -1, 0, lineCount + 1;
        FreshLine(d, text, start);
        continue;
      }
      OneMore(d, text, start, end, lastSpace);
      if c == ' ' {
        lastSpace := end;
      }
      linePixels := linePixels + d.Glyph(c);
      if linePixels <= d.usable {
        end := end + 1;
        continue;
      }
      BrokenLine(d, text, start, end, lastSpace);
      if lastSpace >= 0 {
        LayoutSnoc(d, text, lines, starts, text[start..lastSpace], lastSpace + 1);
        lines, starts := lines + [text[start..lastSpace]], starts + [lastSpace + 1];
        end := lastSpace + 1;
        lastSpace := -1;
      } else {
        LayoutSnoc(d, text, lines, starts, text[start..end], end);
        lines, starts := lines + [text[start..end]], starts + [end];
      }
      start := end;
      linePixels := 0;
      lineCount := lineCount + 1;
      FreshLine(d, text, start);
    }
    if end > start {
      WholeLine(d, text, start, end);
      LayoutSnoc(d, text, lines, starts, text[start..end], end);
      lines, starts := lines + [text[start..end]], starts + [end];
    }
  }

  /** The characters of a line measured one by one. */
  method Measure(d: Screen, line: string, pixels: nat) returns (r: nat)
    ensures r == pixels + d.Width(line)
  {
    r := pixels;
    for i := 0 to |line|
      invariant r == pixels + d.Width(line[..i])
    {
      assert line[..i + 1][..i] == line[..i];
      r := r + d.Glyph(line[i]);
    }
    assert line[..|line|] == line;
  }

  // The last line as shown when text is left over.
  function Ellipsized(d: Screen, line: string): string {
    if d.Width(line) + d.narrow > d.usable then (if line == [] then [] else line[..|line| - 1]) + ELLIPSIS
    else line + ELLIPSIS
  }

  function WithEllipsis(d: Screen, lines: seq<string>): seq<string>
    requires lines != []
  {
    lines[..|lines| - 1] + [Ellipsized(d, lines[|lines| - 1])]
  }

  /**
   The lines to show: the complete layout, with an ellipsis on the last line exactly when text is left
   over.  Only with no lines at all to show and text to show in them does it raise.
   */
  method ToLines(d: Screen, text: string, maxLines: nat)
    returns (r: Option<seq<string>>, end: int, ghost lines: seq<string>, ghost starts: seq<nat>)
    ensures d.Complete(text, lines, starts, maxLines)
    ensures r == None <==> maxLines == 0 && text != []
    ensures starts[|lines|] == |text| ==> r == Some(lines) && end == |text|
    ensures starts[|lines|] < |text| && maxLines > 0 ==> lines != [] && r == Some(WithEllipsis(d, lines))
  {
    var shown, at, ghosts := Scan(d, text, maxLines);
    lines, starts, end := shown, ghosts, at;
    if |shown| == maxLines && end < |text| {
      if shown == [] {
        return None, end, lines, starts;
      }
      var last := shown[|shown| - 1];
      var pixels := Measure(d, last, 0);
      if pixels + d.narrow > d.usable {
        last := (if last == [] then [] else last[..|last| - 1]) + ELLIPSIS;
        end := end - 1;
      } else {
        last := last + ELLIPSIS;
      }
      shown := shown[..|shown| - 1] + [last];
    }
    r := Some(shown);
  }

  // ---------------------------------------------------------------- what a layout means

  /** There is only one complete layout of a text. */
  lemma {:induction false} LayoutIsUnique(d: Screen, text: string, lines: seq<string>, starts: seq<nat>,
                                          others: seq<string>, otherStarts: seq<nat>, maxLines: nat)
    requires d.Complete(text, lines, starts, maxLines) && d.Complete(text, others, otherStarts, maxLines)
    ensures lines == others && starts == otherStarts
  {
    var n := if |lines| <= |others| then |lines| else |others|;
    SamePrefix(d, text, lines, starts, others, otherStarts, n);
    assert starts[..n + 1][n] == otherStarts[..n + 1][n];
    if |lines| != |others| {
      LineHasText(d, text, lines, starts);
      LineHasText(d, text, others, otherStarts);
      assert false;
    }
  }

  lemma LineHasText(d: Screen, text: string, lines: seq<string>, starts: seq<nat>)
    requires d.Layout(text, lines, starts)
    ensures forall i | 0 <= i < |lines| :: starts[i] < |text|
  {
    forall i | 0 <= i < |lines|
      ensures starts[i] < |text|
    {
      assert d.LineAt(text, starts[i], lines[i], starts[i + 1]);
    }
  }

  lemma {:induction false} SamePrefix(d: Screen, text: string, lines: seq<string>, starts: seq<nat>,
                                      others: seq<string>, otherStarts: seq<nat>, n: nat)
    requires d.Layout(text, lines, starts) && d.Layout(text, others, otherStarts)
    requires n <= |lines| && n <= |others|
    ensures lines[..n] == others[..n] && starts[..n + 1] == otherStarts[..n + 1]
  {
    if n > 0 {
      var k := n - 1;
      SamePrefix(d, text, lines, starts, others, otherStarts, k);
      assert starts[..n][k] == otherStarts[..n][k];
      hide Screen.LineAt;
      assert d.LineAt(text, starts[k], lines[k], starts[n]) && d.LineAt(text, starts[k], others[k], otherStarts[n]);
      SameLine(d, text, starts[k], lines[k], starts[n], others[k], otherStarts[n]);
      assert lines[..n] == lines[..k] + [lines[k]] && others[..n] == others[..k] + [others[k]];
      assert starts[..n + 1] == starts[..n] + [starts[n]];
      assert otherStarts[..n + 1] == otherStarts[..n] + [otherStarts[n]];
    }
  }

  lemma SameLine(d: Screen, text: string, s: nat, line: string, next: nat, other: string, otherNext: nat)
    requires d.LineAt(text, s, line, next) && d.LineAt(text, s, other, otherNext)
    ensures line == other && next == otherNext
  {
    BreakIsUnique(d, text, s, s + |line|, s + |other|);
  }

  lemma BreakIsUnique(d: Screen, text: string, s: nat, e: nat, f: nat)
    requires d.BestBreak(text, s, e) && d.BestBreak(text, s, f)
    ensures e == f
  {
    hide Screen.Fits;
  }

  function Rejoined(lines: seq<string>, seps: seq<string>): string
    requires |lines| == |seps|
  {
    if lines == [] then []
    else Rejoined(lines[..|lines| - 1], seps[..|seps| - 1]) + lines[|lines| - 1] + seps[|seps| - 1]
  }

  predicate IsSeparator(s: string) { s == "" || s == " " || s == "\n" }

  /** The lines give back the text read: only single blanks or newlines between them are dropped. */
  lemma {:induction false} LinesGiveBack(d: Screen, text: string, lines: seq<string>, starts: seq<nat>)
    returns (seps: seq<string>)
    requires d.Layout(text, lines, starts)
    ensures |seps| == |lines| && (forall i | 0 <= i < |seps| :: IsSeparator(seps[i]))
    ensures starts[|lines|] <= |text| && Rejoined(lines, seps) == text[..starts[|lines|]]
  {
    if lines == [] {
      seps := [];
    } else {
      var k := |lines| - 1;
      assert d.LineAt(text, starts[k], lines[k], starts[k + 1]);
      assert d.Layout(text, lines[..k], starts[..k + 1]) by {
        hide Screen.LineAt;
      }
      hide Screen.Layout;
      var init := LinesGiveBack(d, text, lines[..k], starts[..k + 1]);
      var sep := LineSeparator(d, text, starts[k], lines[k], starts[k + 1]);
      seps := init + [sep];
      assert seps[..k] == init;
    }
  }

  lemma LineSeparator(d: Screen, text: string, s: nat, line: string, next: nat) returns (sep: string)
    requires d.LineAt(text, s, line, next)
    ensures IsSeparator(sep) && s <= next <= |text| && text[..next] == text[..s] + line + sep
  {
    hide Screen.Width;
    var e := s + |line|;
    sep := text[e..next];
    assert next > e ==> sep == [text[e]];
  }

  /**
   Nothing shown is too wide.  Laid out lines never are; the line with the ellipsis is not exactly when
   one narrow glyph fits the screen.
   */
  lemma ShownLinesFit(d: Screen, text: string, lines: seq<string>, starts: seq<nat>)
    requires d.Layout(text, lines, starts) && d.narrow <= d.wide
    ensures forall i | 0 <= i < |lines| :: d.Width(lines[i]) <= d.usable
    ensures lines != [] ==>
              ((forall i | 0 <= i < |lines| :: d.Width(WithEllipsis(d, lines)[i]) <= d.usable) <==> d.narrow <= d.usable)
  {
    forall i | 0 <= i < |lines|
      ensures d.Width(lines[i]) <= d.usable
    {
      assert d.LineAt(text, starts[i], lines[i], starts[i + 1]);
    }
    if lines != [] {
      EllipsisFits(d, lines[|lines| - 1]);
      var shown := WithEllipsis(d, lines);
      assert shown[|lines| - 1] == Ellipsized(d, lines[|lines| - 1]);
      assert forall i | 0 <= i < |lines| - 1 :: shown[i] == lines[i];
    }
  }

  lemma EllipsisFits(d: Screen, line: string)
    requires d.Width(line) <= d.usable && d.narrow <= d.wide
    ensures d.Width(Ellipsized(d, line)) <= d.usable <==> d.narrow <= d.usable
  {
    var kept := if d.Width(line) + d.narrow <= d.usable then line else if line == [] then [] else line[..|line| - 1];
    var r := Ellipsized(d, line);
    assert r == kept + ELLIPSIS && r[..|r| - 1] == kept;
    assert d.Width(r) == d.Width(kept) + d.narrow;
  }

  /** Where every glyph fits, each line reads on, so as many lines as characters always suffice. */
  lemma {:induction false} EveryLineReadsOn(d: Screen, text: string, lines: seq<string>, starts: seq<nat>, maxLines: nat)
    requires d.Complete(text, lines, starts, maxLines) && d.narrow <= d.usable && d.wide <= d.usable
    ensures forall i | 0 <= i < |lines| :: starts[i] < starts[i + 1]
    ensures |text| <= maxLines ==> starts[|lines|] == |text|
  {
    forall i | 0 <= i < |lines|
      ensures starts[i] < starts[i + 1]
    {
      var s := starts[i];
      assert d.LineAt(text, s, lines[i], starts[i + 1]);
      if lines[i] == [] && !Boundary(text, s) {
        FreshLine(d, text, s);
        WidthSnoc(d, text, s, s);
        assert d.Fits(text, s, s + 1);
      }
    }
    AtLeast(starts, |lines|);
  }

  lemma {:induction false} AtLeast(starts: seq<nat>, n: nat)
    requires n < |starts| && forall i | 0 <= i < n :: starts[i] < starts[i + 1]
    ensures n <= starts[n]
  {
    if n > 0 {
      AtLeast(starts, n - 1);
    }
  }

  // ---------------------------------------------------------------- glyphs

  // How many characters are below U+3000.
  function Narrow(s: string): nat {
    if s == [] then 0 else Narrow(s[..|s| - 1]) + if s[|s| - 1] as int < 0x3000 then 1 else 0
  }

  /** A text is as wide as its characters: narrow ones below U+3000, wide ones from there on. */
  lemma {:induction false} WidthIsCount(d: Screen, s: string)
    ensures Narrow(s) <= |s| && d.Width(s) == Narrow(s) * d.narrow + (|s| - Narrow(s)) * d.wide
  {
    if s != [] {
      var init := s[..|s| - 1];
      WidthIsCount(d, init);
      assert (Narrow(init) + 1) * d.narrow == Narrow(init) * d.narrow + d.narrow;
      assert (|init| - Narrow(init) + 1) * d.wide == (|init| - Narrow(init)) * d.wide + d.wide;
    }
  }

  /** The line with the ellipsis keeps as much of the line as fits beside it. */
  lemma EllipsisKeepsMost(d: Screen, line: string)
    requires d.Width(line) <= d.usable && d.narrow <= d.wide && d.narrow <= d.usable
    ensures exists k: nat ::
              && k <= |line| && Ellipsized(d, line) == line[..k] + "\U{2026}" && d.Width(line[..k] + "\U{2026}") <= d.usable
              && forall j: nat | k < j <= |line| :: d.Width(line[..j] + "\U{2026}") > d.usable
  {
    EllipsisFits(d, line);
    var k: nat := if d.Width(line) + d.narrow > d.usable then |line| - 1 else |line|;
    assert line[..|line|] == line;
    WithOne(d, line);
    assert Ellipsized(d, line) == line[..k] + ELLIPSIS;
  }

  lemma WithOne(d: Screen, line: string)
    ensures d.Width(line + ELLIPSIS) == d.Width(line) + d.narrow
  {
    assert (line + ELLIPSIS)[..|line|] == line;
  }
}
