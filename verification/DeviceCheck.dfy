/** The chunked search of is_this_device (src/krux/firmware.py:221-238). */
module DeviceCheck {
  import opened Bytes
  import opened Chunks

  const OVERLAP := 20

  ghost predicate OccursAt(hay: bytes, pat: bytes, i: int) {
    0 <= i && i + |pat| <= |hay| && hay[i..i + |pat|] == pat
  }

  ghost predicate Occurs(hay: bytes, pat: bytes) {
    exists i :: OccursAt(hay, pat, i)
  }

  // What the loop searches in turn i: the end of the previous chunk, then chunk i.
  function Window(chunks: seq<bytes>, i: nat): bytes
    requires i < |chunks|
  {
    (if i == 0 then [] else Last(chunks[i - 1], OVERLAP)) + chunks[i]
  }

  // data.find(pattern) != -1, as a left-to-right scan.
  method Find(hay: bytes, pat: bytes) returns (found: bool)
    ensures found <==> Occurs(hay, pat)
  {
    var i := 0;
    while i + |pat| <= |hay|
      invariant 0 <= i && forall j | 0 <= j < i :: !OccursAt(hay, pat, j)
      decreases |hay| - i
    {
      if hay[i..i + |pat|] == pat {
        assert OccursAt(hay, pat, i);
        return true;
      }
      i := i + 1;
    }
    return false;
  }

  /** The loop over the reads of the file; the empty read that ends it is not among the chunks. */
  method IsThisDevice(chunks: seq<bytes>, pat: bytes) returns (found: bool)
    ensures found <==> exists i | 0 <= i < |chunks| :: Occurs(Window(chunks, i), pat)
  {
    var lastChunk: bytes := [];
    for i := 0 to |chunks|
      invariant lastChunk == if i == 0 then [] else Last(chunks[i - 1], OVERLAP)
      invariant forall j | 0 <= j < i :: !Occurs(Window(chunks, j), pat)
    {
      var data := lastChunk + chunks[i];
      lastChunk := Last(chunks[i], OVERLAP);
      var here := Find(data, pat);
      assert data == Window(chunks, i);
      if here {
        return true;
      }
    }
    return false;
  }

  lemma OccursInside(pre: bytes, hay: bytes, suf: bytes, pat: bytes, i: int)
    requires OccursAt(hay, pat, i)
    ensures OccursAt(pre + hay + suf, pat, |pre| + i)
  {
    assert (pre + hay + suf)[|pre| + i..|pre| + i + |pat|] == hay[i..i + |pat|];
  }

  lemma OccursAfter(pre: bytes, hay: bytes, pat: bytes, i: int)
    requires OccursAt(pre + hay, pat, i) && |pre| <= i
    ensures OccursAt(hay, pat, i - |pre|)
  {
    assert (pre + hay)[i..i + |pat|] == hay[i - |pre|..i - |pre| + |pat|];
  }

  lemma OccursBefore(hay: bytes, suf: bytes, pat: bytes, i: int)
    requires OccursAt(hay + suf, pat, i) && i + |pat| <= |hay|
    ensures OccursAt(hay, pat, i)
  {
    assert (hay + suf)[i..i + |pat|] == hay[i..i + |pat|];
  }

  // The window of turn i sits at the end of the first i + 1 chunks.
  lemma WindowIsSuffix(chunks: seq<bytes>, i: nat)
    requires i < |chunks|
    ensures var all := Concat(chunks[..i + 1]);
            |Window(chunks, i)| <= |all| && all[|all| - |Window(chunks, i)|..] == Window(chunks, i)
            && all == Concat(chunks[..i]) + chunks[i]
  {
    assert chunks[..i + 1][..i] == chunks[..i];
    if i > 0 {
      assert chunks[..i][..i - 1] == chunks[..i - 1];
      var prev := chunks[i - 1];
      assert prev == DropLast(prev, OVERLAP) + Last(prev, OVERLAP);
      assert Concat(chunks[..i + 1]) == Concat(chunks[..i - 1]) + DropLast(prev, OVERLAP) + Window(chunks, i);
    }
  }

  // Soundness: what a window contains, the file contains.
  lemma WindowInFile(chunks: seq<bytes>, i: nat, pat: bytes)
    requires i < |chunks| && Occurs(Window(chunks, i), pat)
    ensures Occurs(Concat(chunks), pat)
  {
    hide Window, Concat, OccursAt;
    WindowIsSuffix(chunks, i);
    ConcatPrefix(chunks, i + 1);
    var file, all, w := Concat(chunks), Concat(chunks[..i + 1]), Window(chunks, i);
    var j :| OccursAt(w, pat, j);
    var pre := all[..|all| - |w|];
    assert all == pre + w;
    assert file == all + file[|all|..];
    OccursInside(pre, w, file[|all|..], pat, j);
  }

  // ---------------------------------------------------------------- when the overlap is enough

  /**
   What is kept of every read but the last is enough for a pattern of n bytes: all of the first read or n - 1
   bytes of it, and n - 1 bytes of every later one.
   */
  ghost predicate Overlaps(chunks: seq<bytes>, n: nat) {
    forall c | 0 <= c < |chunks| - 1 :: KeepsEnough(chunks, c, n)
  }

  predicate KeepsEnough(chunks: seq<bytes>, c: nat, n: nat)
    requires c < |chunks|
  {
    (c == 0 && |chunks[c]| <= OVERLAP) || Min(OVERLAP, |chunks[c]|) >= n - 1
  }

  // Completeness: the turn whose chunk holds the last byte of a match sees all of it.
  lemma {:induction false} FileInWindow(chunks: seq<bytes>, n: nat, pat: bytes, at: int) returns (i: nat)
    requires n <= |chunks| && pat != [] && Overlaps(chunks, |pat|)
    requires OccursAt(Concat(chunks[..n]), pat, at)
    ensures i < n && Occurs(Window(chunks, i), pat)
  {
    var m := n - 1;
    assert chunks[..n][..m] == chunks[..m];
    var before := Concat(chunks[..m]);
    WindowIsSuffix(chunks, m);
    if at + |pat| <= |before| {
      OccursBefore(before, chunks[m], pat, at);
      i := FileInWindow(chunks, m, pat, at);
    } else {
      i := m;
      var all, w := Concat(chunks[..n]), Window(chunks, m);
      var pre := all[..|all| - |w|];
      assert all == pre + w;
      if m > 0 {
        assert KeepsEnough(chunks, m - 1, |pat|);
      }
      if m == 1 {
        assert chunks[..1][..0] == [];
        assert before == chunks[0];
      }
      OccursAfter(pre, w, pat, at);
    }
  }

  /** Chunked search refines whole-file search wherever enough of every read is kept. */
  lemma SearchIsExact(chunks: seq<bytes>, pat: bytes)
    requires pat != [] && Overlaps(chunks, |pat|)
    ensures (exists i | 0 <= i < |chunks| :: Occurs(Window(chunks, i), pat)) <==> Occurs(Concat(chunks), pat)
  {
    assert chunks[..|chunks|] == chunks;
    if Occurs(Concat(chunks), pat) {
      var at :| OccursAt(Concat(chunks), pat, at);
      var i := FileInWindow(chunks, |chunks|, pat, at);
    }
    forall i | 0 <= i < |chunks| && Occurs(Window(chunks, i), pat)
      ensures Occurs(Concat(chunks), pat)
    {
      WindowInFile(chunks, i, pat);
    }
  }

  /** That covers full reads of 1024 bytes and a short last one, for patterns of at most 21 bytes. */
  lemma FullReadsOverlap(chunks: seq<bytes>, n: nat)
    requires n <= OVERLAP + 1 && forall c | 0 <= c < |chunks| - 1 :: |chunks[c]| == 1024
    ensures Overlaps(chunks, n)
  {
  }

  // ---------------------------------------------------------------- when it is not

  function Start(chunks: seq<bytes>, i: nat): nat
    requires i <= |chunks|
  {
    |Concat(chunks[..i])|
  }

  function WindowStart(chunks: seq<bytes>, i: nat): int
    requires i < |chunks|
  {
    Start(chunks, i) - if i == 0 then 0 else Min(OVERLAP, |chunks[i - 1]|)
  }

  // Turn i searches all of positions at up to at + n of the file.
  predicate Covers(chunks: seq<bytes>, i: nat, at: int, n: nat)
    requires i < |chunks|
  {
    WindowStart(chunks, i) <= at && at + n <= Start(chunks, i + 1)
  }

  lemma StartNext(chunks: seq<bytes>, i: nat)
    requires i < |chunks|
    ensures Start(chunks, i + 1) == Start(chunks, i) + |chunks[i]|
  {
    assert chunks[..i + 1][..i] == chunks[..i];
  }

  lemma {:induction false} StartGrows(chunks: seq<bytes>, i: nat, j: nat)
    requires i <= j <= |chunks|
    ensures Start(chunks, i) <= Start(chunks, j)
    decreases j - i
  {
    if i < j {
      StartGrows(chunks, i, j - 1);
      StartNext(chunks, j - 1);
    }
  }

  // Where too little of read c is kept, some position is searched by no turn.
  lemma UncoveredPosition(chunks: seq<bytes>, c: nat, n: nat) returns (at: nat)
    requires c < |chunks| - 1 && !KeepsEnough(chunks, c, n) && chunks[c + 1] != [] && chunks[0] != []
    requires n <= Start(chunks, |chunks|)
    ensures at + n <= Start(chunks, |chunks|) && forall i | 0 <= i < |chunks| :: !Covers(chunks, i, at, n)
  {
    hide Start;
    var kept := Min(OVERLAP, |chunks[c]|);
    var end, total := Start(chunks, c + 1), Start(chunks, |chunks|);
    StartNext(chunks, c);
    StartNext(chunks, c + 1);
    StartGrows(chunks, c + 2, |chunks|);
    FirstBefore(chunks, c);
    at := Min(end - kept - 1, total - n);
    forall i | 0 <= i < |chunks|
      ensures !Covers(chunks, i, at, n)
    {
      if i <= c {
        StartGrows(chunks, i + 1, c + 1);
      } else if i > c + 1 {
        StartGrows(chunks, c + 1, i - 1);
        StartNext(chunks, i - 1);
      }
    }
  }

  // Unless all of the first read is kept, something comes before what is kept of read c.
  lemma FirstBefore(chunks: seq<bytes>, c: nat)
    requires c < |chunks| - 1 && (c == 0 ==> |chunks[0]| > OVERLAP) && (c > 0 ==> chunks[0] != [])
    ensures Start(chunks, c + 1) > Min(OVERLAP, |chunks[c]|)
  {
    StartNext(chunks, c);
    StartNext(chunks, 0);
    if c > 0 {
      StartGrows(chunks, 1, c);
    }
  }

  // A match that is the only one in the file is found exactly by a turn that searches all of it.
  lemma OnlyMatch(chunks: seq<bytes>, pat: bytes, at: nat, i: nat)
    requires i < |chunks| && forall k | OccursAt(Concat(chunks), pat, k) :: k == at
    requires Occurs(Window(chunks, i), pat)
    ensures Covers(chunks, i, at, |pat|)
  {
    hide Concat;
    WindowIsSuffix(chunks, i);
    ConcatPrefix(chunks, i + 1);
    var file, all, w := Concat(chunks), Concat(chunks[..i + 1]), Window(chunks, i);
    var j :| OccursAt(w, pat, j);
    var pre := all[..|all| - |w|];
    assert all == pre + w && file == all + file[|all|..];
    OccursInside(pre, w, file[|all|..], pat, j);
    assert |pre| == WindowStart(chunks, i);
  }

  // A file of the given length with one match.
  function OneMatch(pat: bytes, at: nat, total: nat, filler: byte): (r: bytes)
    requires at + |pat| <= total
    ensures |r| == total
  {
    Repeat(filler, at) + pat + Repeat(filler, total - at - |pat|)
  }

  lemma OneMatchFacts(pat: bytes, at: nat, total: nat, filler: byte)
    requires pat != [] && at + |pat| <= total && filler !in pat
    ensures forall k :: OccursAt(OneMatch(pat, at, total, filler), pat, k) <==> k == at
  {
    var file := OneMatch(pat, at, total, filler);
    assert file[at..at + |pat|] == pat;
    forall k | OccursAt(file, pat, k)
      ensures k == at
    {
      var found := file[k..k + |pat|];
      assert found[0] == file[k] && found[|pat| - 1] == file[k + |pat| - 1];
    }
  }

  // The file cut into reads of the same sizes.
  function Recut(file: bytes, chunks: seq<bytes>): (r: seq<bytes>)
    requires |file| == |Concat(chunks)|
    ensures |r| == |chunks| && Concat(r) == file && forall c | 0 <= c < |r| :: |r[c]| == |chunks[c]|
    decreases |chunks|
  {
    if chunks == [] then []
    else
      var init, n := chunks[..|chunks| - 1], |Concat(chunks[..|chunks| - 1])|;
      var r := Recut(file[..n], init) + [file[n..]];
      assert r[..|r| - 1] == Recut(file[..n], init);
      r
  }

  lemma {:induction false} SameStarts(a: seq<bytes>, b: seq<bytes>, i: nat)
    requires |a| == |b| && i <= |a| && forall c | 0 <= c < |a| :: |a[c]| == |b[c]|
    ensures Start(a, i) == Start(b, i)
  {
    if i > 0 {
      SameStarts(a, b, i - 1);
      StartNext(a, i - 1);
      StartNext(b, i - 1);
    }
  }

  /**
   The condition is exact: with reads of any sizes that keep too little, there is a file, read in those sizes, in which
   the pattern occurs and is not found.
   */
  lemma TooLittleKeptMisses(chunks: seq<bytes>, pat: bytes, filler: byte) returns (missed: seq<bytes>)
    requires pat != [] && filler !in pat && !Overlaps(chunks, |pat|) && |pat| <= |Concat(chunks)|
    requires forall c | 0 <= c < |chunks| :: chunks[c] != []
    ensures |missed| == |chunks| && forall c | 0 <= c < |chunks| :: |missed[c]| == |chunks[c]|
    ensures Occurs(Concat(missed), pat) && !exists i | 0 <= i < |chunks| :: Occurs(Window(missed, i), pat)
  {
    hide Concat, Window, OccursAt, Start, OneMatch;
    var c :| 0 <= c < |chunks| - 1 && !KeepsEnough(chunks, c, |pat|);
    assert Start(chunks, |chunks|) == |Concat(chunks)| by { WholeStart(chunks); }
    var at := UncoveredPosition(chunks, c, |pat|);
    var file := OneMatch(pat, at, |Concat(chunks)|, filler);
    OneMatchFacts(pat, at, |Concat(chunks)|, filler);
    missed := Recut(file, chunks);
    assert OccursAt(Concat(missed), pat, at);
    forall i | 0 <= i < |chunks|
      ensures !Occurs(Window(missed, i), pat)
    {
      SameStarts(missed, chunks, i);
      SameStarts(missed, chunks, i + 1);
      assert !Covers(chunks, i, at, |pat|);
      if Occurs(Window(missed, i), pat) {
        OnlyMatch(missed, pat, at, i);
      }
    }
  }

  lemma WholeStart(chunks: seq<bytes>)
    ensures Start(chunks, |chunks|) == |Concat(chunks)|
  {
    assert chunks[..|chunks|] == chunks;
  }

  /** Short reads in the middle break it: a match over three one-byte reads is missed. */
  lemma ShortReadsMiss()
    ensures Occurs(Concat([[1], [2], [3]]), [1, 2, 3])
    ensures !exists i | 0 <= i < 3 :: Occurs(Window([[1], [2], [3]], i), [1, 2, 3])
  {
    var chunks: seq<bytes> := [[1], [2], [3]];
    assert chunks[..2] == [[1], [2]] && chunks[..2][..1] == [[1]] && chunks[..2][..1][..0] == [];
    assert Concat([[1]]) == [1];
    assert Concat([[1], [2]]) == [1, 2];
    assert Concat(chunks) == [1, 2, 3];
    assert OccursAt(Concat(chunks), [1, 2, 3], 0);
    assert |Window(chunks, 0)| < 3 && |Window(chunks, 1)| < 3 && |Window(chunks, 2)| < 3;
  }
}
