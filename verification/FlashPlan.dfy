/**
 The parameters of one call of the flash writer (src/krux/firmware.py:92-160), the layout they ask for, and
 what the stream being read does to it.
 */
module FlashPlan {
  import opened Arith
  import opened Bytes

  // ---------------------------------------------------------------- the stream being read

  /** A stream whose n-th read may return fewer bytes than asked for, as sizes says. */
  class Reader {
    const data: bytes
    const sizes: nat -> nat
    var pos: nat
    var calls: nat

    constructor (data: bytes, sizes: nat -> nat)
      ensures this.data == data && this.sizes == sizes && pos == 0 && calls == 0
    {
      this.data, this.sizes, pos, calls := data, sizes, 0, 0;
    }

    method Read(n: nat) returns (r: bytes)
      requires pos <= |data|
      modifies this
      ensures pos == old(pos) + |r| && pos <= |data| && r == data[old(pos)..pos] && calls == old(calls) + 1
      ensures |r| == Min(n, Min(sizes(old(calls)), |data| - old(pos)))
    {
      var k := Min(n, Min(sizes(calls), |data| - pos));
      r := data[pos..pos + k];
      pos, calls := pos + k, calls + 1;
    }
  }

  // ---------------------------------------------------------------- what ends up in flash

  function ToLittle(n: nat, width: nat): (r: bytes)
    ensures |r| == width
  {
    if width == 0 then [] else [n % 256] + ToLittle(n / 256, width - 1)
  }

  // The parameters of one call, and the flash layout they ask for.
  datatype Plan = Plan(address: nat, data: bytes, chunkSize: nat, header: bool, suffix: Option<bytes>) {

    predicate Ok() { |Tail()| + 5 <= chunkSize && 5 < chunkSize && (header ==> |data| < 0x1_0000_0000) }

    function Tail(): bytes { if suffix.Some? then suffix.value else [] }

    function Payload(): bytes { data + Tail() }

    function Head(): (r: bytes)
      ensures |r| == if header then 5 else 0
    {
      if header then [0] + ToLittle(|data|, 4) else []
    }

    // The contiguous image: header, data, suffix.
    function Image(): bytes { Head() + Payload() }

    function HeadOf(c: nat): bytes { if c == 0 then Head() else [] }

    function Cap(c: nat): (n: int)
      requires Ok()
      ensures 0 < n <= chunkSize && chunkSize - 5 <= n
    {
      chunkSize - |HeadOf(c)|
    }

    // Chunk c as written: header bytes in the first one, payload, zero fill.
    function ChunkImage(c: nat, payload: bytes): (r: bytes)
      requires Ok() && |payload| <= Cap(c)
      ensures |r| == chunkSize
    {
      HeadOf(c) + payload + Nul(Cap(c) - |payload|)
    }

    ghost predicate Fits(chunks: seq<bytes>)
      requires Ok()
    {
      forall c | 0 <= c < |chunks| :: |chunks[c]| <= Cap(c)
    }

    // Where chunk n starts, relative to the address.
    function Offset(n: nat): nat { n * chunkSize }

    function Region(chunks: seq<bytes>): (r: bytes)
      requires Ok() && Fits(chunks)
      ensures |r| == Offset(|chunks|)
    {
      if chunks == [] then []
      else Region(chunks[..|chunks| - 1]) + ChunkImage(|chunks| - 1, chunks[|chunks| - 1])
    }

    // All of the first n chunks are full.
    ghost predicate Full(chunks: seq<bytes>, n: int)
      requires Ok() && n <= |chunks|
    {
      forall c | 0 <= c < n :: |chunks[c]| == Cap(c)
    }
  }

  // ---------------------------------------------------------------- the image, byte by byte

  // The four bytes from at on, as the boot loader reads a size: the first counts least.
  function SizeAt(m: bytes, at: nat): nat
    requires at + 4 <= |m|
  {
    m[at] as int + 256 * (m[at + 1] as int) + 65536 * (m[at + 2] as int) + 16777216 * (m[at + 3] as int)
  }

  lemma LittleBytes(n: nat)
    requires n < 0x1_0000_0000
    ensures SizeAt(ToLittle(n, 4), 0) == n
  {
    var a: nat, b: nat, c: nat := n / 256, n / 256 / 256, n / 256 / 256 / 256;
    assert ToLittle(n, 4) == [n % 256] + ToLittle(a, 3);
    assert ToLittle(a, 3) == [a % 256] + ToLittle(b, 2);
    assert ToLittle(b, 2) == [b % 256] + ToLittle(c, 1);
    assert ToLittle(c, 1) == [c % 256] + ToLittle(c / 256, 0);
    assert n == n % 256 + 256 * a && a == a % 256 + 256 * b && b == b % 256 + 256 * c && c < 256;
  }

  /** Where the image starts, the flash holds a zero and the size of the data, then the data, then the suffix. */
  lemma ImageLayout(p: Plan, m: bytes)
    requires p.Ok() && p.Image() <= m
    ensures p.header ==> m[0] == 0 && SizeAt(m, 1) == |p.data|
    ensures var from := if p.header then 5 else 0;
            m[from..from + |p.data|] == p.data && m[from + |p.data|..from + |p.data| + |p.Tail()|] == p.Tail()
  {
    if p.header {
      LittleBytes(|p.data|);
      var head := p.Head();
      assert head == [0] + ToLittle(|p.data|, 4);
      assert forall i | 0 <= i < 4 :: m[1 + i] == ToLittle(|p.data|, 4)[i];
    }
    assert m[..|p.Image()|] == p.Image();
  }

  // ---------------------------------------------------------------- which reads stall

  // What a chunk still takes at a position of the data, as long as every chunk before it is full.
  function Room(p: Plan, pos: nat): (n: nat)
    requires p.Ok()
    ensures 0 < n <= p.chunkSize
  {
    p.chunkSize - (|p.Head()| + pos) % p.chunkSize
  }

  predicate AtStart(p: Plan, pos: nat)
    requires p.Ok()
  {
    pos == 0 || (|p.Head()| + pos) % p.chunkSize == 0
  }

  function ChunkAt(p: Plan, pos: nat): nat
    requires p.Ok()
  {
    (|p.Head()| + pos) / p.chunkSize
  }

  // The position before read k.
  function Pos(p: Plan, sizes: nat -> nat, k: nat): (n: nat)
    requires p.Ok()
    ensures n <= |p.data|
  {
    if k == 0 then 0
    else
      var at := Pos(p, sizes, k - 1);
      at + Min(Room(p, at), Min(sizes(k - 1), |p.data| - at))
  }

  predicate IsEmpty(p: Plan, sizes: nat -> nat, k: nat)
    requires p.Ok()
  {
    Pos(p, sizes, k) < |p.data| && sizes(k) == 0
  }

  /** Read k returns nothing in the middle of a chunk. */
  predicate Stall(p: Plan, sizes: nat -> nat, k: nat)
    requires p.Ok()
  {
    IsEmpty(p, sizes, k) && !AtStart(p, Pos(p, sizes, k))
  }

  ghost predicate NoStall(p: Plan, sizes: nat -> nat, n: nat)
    requires p.Ok()
  {
    forall j: nat | j < n :: !Stall(p, sizes, j)
  }

  // How many of the first k reads return nothing at the start of a chunk.
  function Empties(p: Plan, sizes: nat -> nat, k: nat): nat
    requires p.Ok()
  {
    if k == 0 then 0
    else Empties(p, sizes, k - 1) + if IsEmpty(p, sizes, k - 1) && AtStart(p, Pos(p, sizes, k - 1)) then 1 else 0
  }

  /**
   Read k is the first one to stall, and the run gets there: at most five reads before it were empty, and its
   chunk lies inside the flash.
   */
  ghost predicate StallsAt(p: Plan, sizes: nat -> nat, flash: nat, k: nat)
    requires p.Ok()
  {
    && Stall(p, sizes, k) && NoStall(p, sizes, k) && Empties(p, sizes, k) <= 5
    && p.address + p.Offset(ChunkAt(p, Pos(p, sizes, k)) + 1) <= flash
  }

  ghost predicate Stalls(p: Plan, sizes: nat -> nat, flash: nat)
    requires p.Ok()
  {
    exists k: nat :: StallsAt(p, sizes, flash, k)
  }

  /** The data is read to its end without a stall and with at most five empty reads. */
  ghost predicate ReadsThrough(p: Plan, sizes: nat -> nat)
    requires p.Ok()
  {
    exists n: nat :: Pos(p, sizes, n) == |p.data| && NoStall(p, sizes, n) && Empties(p, sizes, n) <= 5
  }

  // ---------------------------------------------------------------- how many chunks are written

  // Where the loop stands: chunks written, bytes in the buffer, bytes of the payload used, reads made, empty reads.
  datatype Cursor = Cursor(chunks: nat, pending: nat, total: nat, calls: nat, attempts: nat) {
    predicate Ok(p: Plan)
      requires p.Ok()
    {
      && pending < p.Cap(chunks) && total <= |p.Payload()| && attempts <= 5
      && (pending > 0 ==> total < |p.data|)
    }

    // What the next read gives: the rest of the suffix once the data is used up, what the stream has before that.
    function Gets(p: Plan, sizes: nat -> nat): nat
      requires p.Ok() && Ok(p)
    {
      if total >= |p.data| then |p.Payload()| - total
      else Min(p.Cap(chunks) - pending, Min(sizes(calls), |p.data| - total))
    }

    // How much of the suffix then joins the chunk.
    function Joins(p: Plan, n: nat): nat
      requires p.Ok() && pending + n <= p.Cap(chunks) && total + n <= |p.Payload()|
    {
      if total + n >= |p.data| then Min(p.Cap(chunks) - pending - n, |p.Payload()| - total - n) else 0
    }
  }

  const START := Cursor(0, 0, 0, 0, 0)

  datatype Run = Run(chunks: nat, ok: bool)

  /** How a run goes on: the chunks it will have written and whether it ends normally, from reads and flash size alone. */
  function RunFrom(p: Plan, sizes: nat -> nat, flash: nat, at: Cursor): Run
    requires p.Ok() && at.Ok(p)
    decreases |p.Payload()| - at.total, 5 - at.attempts, at.pending
  {
    var Cursor(i, pending, total, calls, attempts) := at;
    if total == |p.Payload()| then Run(i, true)
    else
      var n := at.Gets(p, sizes);
      var next := if total < |p.data| then calls + 1 else calls;
      if n == 0 && pending == 0 then
        if attempts == 5 then Run(i, false) else RunFrom(p, sizes, flash, Cursor(i, 0, total, next, attempts + 1))
      else if n > 0 && pending + n < p.Cap(i) && total + n < |p.data| then
        RunFrom(p, sizes, flash, Cursor(i, pending + n, total + n, next, attempts))
      else if p.address + p.Offset(i + 1) > flash then Run(i, false)
      else RunFrom(p, sizes, flash, Cursor(i + 1, 0, total + n + at.Joins(p, n), next, attempts))
  }

  // One turn of the loop.
  lemma RunStep(p: Plan, sizes: nat -> nat, flash: nat, at: Cursor, n: nat, next: nat)
    requires p.Ok() && at.Ok(p) && at.total < |p.Payload()| && n == at.Gets(p, sizes)
    requires next == if at.total < |p.data| then at.calls + 1 else at.calls
    ensures at.pending + n <= p.Cap(at.chunks) && at.total + n <= |p.Payload()|
    ensures var Cursor(i, pending, total, calls, attempts) := at;
            RunFrom(p, sizes, flash, at) ==
            if n == 0 && pending == 0 then
              if attempts == 5 then Run(i, false) else RunFrom(p, sizes, flash, Cursor(i, 0, total, next, attempts + 1))
            else if n > 0 && pending + n < p.Cap(i) && total + n < |p.data| then
              RunFrom(p, sizes, flash, Cursor(i, pending + n, total + n, next, attempts))
            else if p.address + p.Offset(i + 1) > flash then Run(i, false)
            else RunFrom(p, sizes, flash, Cursor(i + 1, 0, total + n + at.Joins(p, n), next, attempts))
  {
    hide Plan.Head, Plan.HeadOf, Plan.Cap, Plan.Offset;
  }

  lemma RunStarts(p: Plan, sizes: nat -> nat, flash: nat)
    requires p.Ok()
    ensures Runs(p, sizes, flash) == if p.Payload() == [] then Run(0, false) else RunFrom(p, sizes, flash, START)
  {
  }

  lemma RunEnds(p: Plan, sizes: nat -> nat, flash: nat, at: Cursor)
    requires p.Ok() && at.Ok(p) && at.total == |p.Payload()|
    ensures RunFrom(p, sizes, flash, at) == Run(at.chunks, true)
  {
  }

  // An empty payload makes the writer divide by zero before its first read.
  function Runs(p: Plan, sizes: nat -> nat, flash: nat): Run
    requires p.Ok()
  {
    if p.Payload() == [] then Run(0, false) else RunFrom(p, sizes, flash, START)
  }

  lemma ReadNext(p: Plan, sizes: nat -> nat, k: nat)
    requires p.Ok()
    ensures var at := Pos(p, sizes, k);
            && Pos(p, sizes, k + 1) == at + Min(Room(p, at), Min(sizes(k), |p.data| - at))
            && Empties(p, sizes, k + 1) ==
               Empties(p, sizes, k) + if IsEmpty(p, sizes, k) && AtStart(p, at) then 1 else 0
  {
    hide Room, AtStart;
  }

  lemma {:induction false} ReadsGrow(p: Plan, sizes: nat -> nat, j: nat, k: nat)
    requires p.Ok() && j <= k
    ensures Pos(p, sizes, j) <= Pos(p, sizes, k) && Empties(p, sizes, j) <= Empties(p, sizes, k)
    decreases k - j
  {
    hide Room, AtStart;
    if j < k {
      ReadsGrow(p, sizes, j, k - 1);
    }
  }

  // Once the data is read there is nothing left to stall on.
  lemma EndOfData(p: Plan, sizes: nat -> nat, n: nat, flash: nat)
    requires p.Ok() && Pos(p, sizes, n) == |p.data| && NoStall(p, sizes, n)
    ensures !Stalls(p, sizes, flash)
  {
    hide Pos, Empties, AtStart, ChunkAt;
    forall k: nat
      ensures !StallsAt(p, sizes, flash, k)
    {
      if n <= k {
        ReadsGrow(p, sizes, n, k);
      }
    }
  }

  // The sixth empty read ends the run.
  lemma OutOfAttempts(p: Plan, sizes: nat -> nat, n: nat, flash: nat)
    requires p.Ok() && Pos(p, sizes, n) < |p.data| && NoStall(p, sizes, n) && Empties(p, sizes, n) > 5
    ensures !Stalls(p, sizes, flash) && !ReadsThrough(p, sizes)
  {
    hide Pos, Empties, AtStart, ChunkAt;
    forall k: nat
      ensures !StallsAt(p, sizes, flash, k) && (Pos(p, sizes, k) == |p.data| ==> Empties(p, sizes, k) > 5)
    {
      if n <= k {
        ReadsGrow(p, sizes, n, k);
      } else {
        ReadsGrow(p, sizes, k, n);
      }
    }
  }

  // So does a chunk outside the flash.
  lemma OutOfFlash(p: Plan, sizes: nat -> nat, n: nat, flash: nat)
    requires p.Ok() && NoStall(p, sizes, n) && p.address + p.Offset(ChunkAt(p, Pos(p, sizes, n)) + 1) > flash
    ensures !Stalls(p, sizes, flash)
  {
    hide Pos, Empties, AtStart, ChunkAt, Plan.Offset;
    forall k: nat
      ensures !StallsAt(p, sizes, flash, k)
    {
      if n <= k {
        ReadsGrow(p, sizes, n, k);
        ChunksGrow(p, Pos(p, sizes, n), Pos(p, sizes, k));
      }
    }
  }

  lemma ChunksGrow(p: Plan, a: nat, b: nat)
    requires p.Ok() && a <= b
    ensures p.Offset(ChunkAt(p, a) + 1) <= p.Offset(ChunkAt(p, b) + 1)
  {
    DivMonotone(|p.Head()| + a, |p.Head()| + b, p.chunkSize);
    hide ChunkAt;
    MulMonotone(ChunkAt(p, a) + 1, ChunkAt(p, b) + 1, p.chunkSize);
  }

  lemma StallStops(p: Plan, sizes: nat -> nat, k: nat)
    requires p.Ok() && Stall(p, sizes, k)
    ensures !ReadsThrough(p, sizes)
  {
    hide Pos, Empties, AtStart;
    forall n: nat
      ensures !(Pos(p, sizes, n) == |p.data| && NoStall(p, sizes, n))
    {
      if n <= k {
        ReadsGrow(p, sizes, n, k);
      }
    }
  }

  lemma OneStall(p: Plan, sizes: nat -> nat, flash: nat, j: nat, k: nat)
    requires p.Ok() && StallsAt(p, sizes, flash, j) && StallsAt(p, sizes, flash, k)
    ensures j == k
  {
    hide Stall, Pos, Empties, ChunkAt;
  }

  /** A reader that is empty at most five times, and only between chunks, is read to the end. */
  lemma FiveEmptyReadsAreFine(p: Plan, sizes: nat -> nat)
    requires p.Ok() && forall k: nat :: !Stall(p, sizes, k) && Empties(p, sizes, k) <= 5
    ensures ReadsThrough(p, sizes)
  {
    var n := |p.data| + 5;
    Advances(p, sizes, n);
  }

  // Every read is empty or moves on.
  lemma {:induction false} Advances(p: Plan, sizes: nat -> nat, n: nat)
    requires p.Ok() && NoStall(p, sizes, n)
    ensures Pos(p, sizes, n) == |p.data| || Pos(p, sizes, n) + Empties(p, sizes, n) >= n
  {
    hide Room, AtStart;
    if n > 0 {
      Advances(p, sizes, n - 1);
      assert !Stall(p, sizes, n - 1);
    }
  }

  /** For instance one that has nothing to give for its first few reads. */
  lemma LateReader(p: Plan, sizes: nat -> nat, n: nat)
    requires p.Ok() && n <= 5 && forall k: nat :: sizes(k) == 0 <==> k < n
    ensures ReadsThrough(p, sizes)
  {
    forall k: nat
      ensures !Stall(p, sizes, k) && Empties(p, sizes, k) <= 5
    {
      LateStart(p, sizes, n, k);
    }
    FiveEmptyReadsAreFine(p, sizes);
  }

  lemma {:induction false} LateStart(p: Plan, sizes: nat -> nat, n: nat, k: nat)
    requires p.Ok() && forall j: nat :: sizes(j) == 0 <==> j < n
    ensures k <= n ==> Pos(p, sizes, k) == 0 && Empties(p, sizes, k) <= k
    ensures Empties(p, sizes, k) <= n
  {
    hide Room;
    if k > 0 {
      LateStart(p, sizes, n, k - 1);
      assert sizes(k - 1) == 0 <==> k - 1 < n;
    }
  }

  lemma NeverEmpty(p: Plan, sizes: nat -> nat)
    requires p.Ok() && forall k: nat :: sizes(k) > 0
    ensures ReadsThrough(p, sizes)
  {
    LateReader(p, sizes, 0);
  }
}
