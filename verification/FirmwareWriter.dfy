/** The chunked flash writer (src/krux/firmware.py:92-160). */
module FirmwareWriter {
  import opened Arith
  import opened Bytes
  import opened Chunks
  import opened Flash
  import opened FlashPlan

  function Splice(mem: bytes, at: nat, data: bytes): (r: bytes)
    requires at + |data| <= |mem|
    ensures |r| == |mem|
  {
    mem[..at] + data + mem[at + |data|..]
  }

  lemma SpliceNext(mem: bytes, at: nat, a: bytes, b: bytes)
    requires at + |a| + |b| <= |mem|
    ensures Splice(Splice(mem, at, a), at + |a|, b) == Splice(mem, at, a + b)
  {
  }

  // What the two flash operations do, as splices.
  lemma ErasedIsSplice(mem: bytes, at: nat, n: nat)
    requires at + n <= |mem|
    ensures Apply(mem, Erase(at, n)) == Splice(mem, at, Repeat<byte>(0xff, n))
  {
  }

  lemma WriteOnErased(mem: bytes, at: nat, data: bytes)
    requires at + |data| <= |mem| && forall i | at <= i < at + |data| :: mem[i] == 0xff
    ensures Apply(mem, Write(at, data)) == Splice(mem, at, data)
  {
    hide Program;
    var r := Apply(mem, Write(at, data));
    forall i | 0 <= i < |mem|
      ensures r[i] == Splice(mem, at, data)[i]
    {
      if at <= i < at + |data| {
        ProgramErased(data[i - at]);
      }
    }
  }

  lemma EraseThenWrite(mem: bytes, at: nat, head: bytes, rest: bytes)
    requires at + |head| + |rest| <= |mem|
    ensures var erased := Apply(mem, Erase(at, |head| + |rest|));
            var headed := Apply(erased, Write(at, head));
            && (head == [] ==> headed == erased)
            && Apply(headed, Write(at + |head|, rest)) == Splice(mem, at, head + rest)
  {
    hide Apply, Splice;
    var ones := Repeat<byte>(0xff, |head| + |rest|);
    ErasedIsSplice(mem, at, |head| + |rest|);
    WriteHead(mem, at, head, ones);
    WriteRest(mem, at, head, ones[|head|..], rest);
    assert ones[|head|..][|rest|..] == [] && head + rest + [] == head + rest;
  }

  lemma WriteHead(mem: bytes, at: nat, head: bytes, ones: bytes)
    requires at + |ones| <= |mem| && |head| <= |ones| && forall i | 0 <= i < |ones| :: ones[i] == 0xff
    ensures var headed := Apply(Splice(mem, at, ones), Write(at, head));
            headed == Splice(mem, at, head + ones[|head|..]) && (head == [] ==> headed == Splice(mem, at, ones))
  {
    hide Apply;
    SpliceTwice(mem, at, [], ones, head);
    assert [] + head == head && [] + ones == ones;
    WriteOnErased(Splice(mem, at, ones), at, head);
    assert head == [] ==> head + ones[|head|..] == ones;
  }

  lemma WriteRest(mem: bytes, at: nat, head: bytes, ones: bytes, rest: bytes)
    requires at + |head| + |ones| <= |mem| && |rest| <= |ones| && forall i | 0 <= i < |ones| :: ones[i] == 0xff
    ensures Apply(Splice(mem, at, head + ones), Write(at + |head|, rest)) ==
            Splice(mem, at, head + rest + ones[|rest|..])
  {
    hide Apply;
    SpliceTwice(mem, at, head, ones, rest);
    WriteOnErased(Splice(mem, at, head + ones), at + |head|, rest);
  }

  // Splicing over part of what was spliced in before.
  lemma SpliceTwice(mem: bytes, at: nat, pre: bytes, under: bytes, over: bytes)
    requires at + |pre| + |under| <= |mem| && |over| <= |under|
    ensures Splice(Splice(mem, at, pre + under), at + |pre|, over) == Splice(mem, at, pre + over + under[|over|..])
  {
  }

  /** One chunk: erase it, write the header bytes if any, write the rest. */
  method FlushChunk(chip: Chip, at: nat, head: bytes, rest: bytes)
    requires chip.Valid() && at + |head| + |rest| <= chip.mem.Length
    modifies chip, chip.mem
    ensures chip.Valid()
    ensures chip.mem[..] == Splice(old(chip.mem[..]), at, head + rest)
    ensures old(chip.log) <= chip.log
    ensures AllWithin(chip.log[|old(chip.log)|..], at, at + |head| + |rest|)
    ensures Erase(at, |head| + |rest|) in chip.log[|old(chip.log)|..]
  {
    hide Apply, Splice, Chip.Valid;
    var n := |head| + |rest|;
    EraseThenWrite(chip.mem[..], at, head, rest);
    chip.EraseRange(at, n);
    if head != [] {
      chip.WriteRange(at, head);
    }
    chip.WriteRange(at + |head|, rest);
    assert chip.log[|old(chip.log)|..] ==
           [Erase(at, n)] + (if head != [] then [Write(at, head)] else []) + [Write(at + |head|, rest)];
  }

  // buffer[at : at + len(data)] = data
  method Store(buffer: array<byte>, at: nat, data: bytes)
    requires at + |data| <= buffer.Length
    modifies buffer
    ensures buffer[..] == Splice(old(buffer[..]), at, data)
    ensures buffer[..at + |data|] == old(buffer[..at]) + data
  {
    for i := 0 to |data|
      invariant forall j | 0 <= j < buffer.Length ::
          buffer[j] == if at <= j < at + i then data[j - at] else old(buffer[j])
    {
      buffer[at + i] := data[i];
    }
  }

  // The chunks written so far, and how far they reach into the payload.
  ghost predicate Progress(p: Plan, chunks: seq<bytes>, pending: bytes, total: nat, stalled: bool)
    requires p.Ok()
  {
    && p.Fits(chunks) && total <= |p.Payload()|
    && Concat(chunks) + pending == p.Payload()[..total]
    && (!stalled ==> p.Full(chunks, |chunks|) ||
                     (pending == [] && total == |p.Payload()| && p.Full(chunks, |chunks| - 1)))
  }

  lemma ProgressStarts(p: Plan)
    requires p.Ok()
    ensures Progress(p, [], [], 0, false)
  {
  }

  lemma ProgressEnds(p: Plan, chunks: seq<bytes>, pending: bytes, total: nat, stalled: bool)
    requires p.Ok() && Progress(p, chunks, pending, total, stalled)
    ensures p.Fits(chunks)
    ensures !stalled ==> Concat(chunks) <= p.Payload() && p.Full(chunks, |chunks| - 1)
    ensures pending == [] && total == |p.Payload()| ==> Concat(chunks) == p.Payload()
  {
    PrefixOfPrefix(Concat(chunks), pending, p.Payload(), total);
    hide Concat, Plan.Payload, Plan.Cap;
  }

  lemma PrefixOfPrefix(a: bytes, b: bytes, s: bytes, n: nat)
    requires n <= |s| && a + b == s[..n]
    ensures a <= s && (b == [] && n == |s| ==> a == s)
  {
    assert a == s[..n][..|a|];
  }

  lemma ProgressExtends(p: Plan, chunks: seq<bytes>, pending: bytes, total: nat, more: nat, stalled: bool)
    requires p.Ok() && Progress(p, chunks, pending, total, stalled)
    requires total + more <= |p.Payload()|
    ensures Progress(p, chunks, pending + p.Payload()[total..total + more], total + more, stalled)
  {
    var part := p.Payload()[total..total + more];
    assert Concat(chunks) + (pending + part) == p.Payload()[..total] + part == p.Payload()[..total + more];
    if more == 0 {
      assert pending + part == pending;
    }
  }

  lemma ProgressFlush(p: Plan, chunks: seq<bytes>, pending: bytes, total: nat, stalled: bool, stalls: bool)
    requires p.Ok() && Progress(p, chunks, pending, total, stalled)
    requires |pending| <= p.Cap(|chunks|)
    requires pending != [] && (stalls <==> |pending| < p.Cap(|chunks|) && total < |p.Payload()|)
    ensures Progress(p, chunks + [pending], [], total, stalled || stalls)
  {
    var next := chunks + [pending];
    assert next[..|next| - 1] == chunks;
    assert Concat(next) == Concat(chunks) + pending;
    if !stalled && !stalls {
      assert p.Full(next, |chunks|);
    }
  }

  lemma OffsetZero(p: Plan)
    ensures p.Offset(0) == 0
  {
  }

  lemma OffsetNext(p: Plan, n: nat)
    ensures p.Offset(n + 1) == p.Offset(n) + p.chunkSize
  {
  }

  lemma {:induction false} FullLength(p: Plan, chunks: seq<bytes>)
    requires p.Ok() && p.Full(chunks, |chunks|) && chunks != []
    ensures |Concat(chunks)| + |p.Head()| == p.Offset(|chunks|)
  {
    var init := chunks[..|chunks| - 1];
    if init != [] {
      FullLength(p, init);
      assert (|init| + 1) * p.chunkSize == |init| * p.chunkSize + p.chunkSize;
    } else {
      assert Concat(init) == [];
    }
  }

  // The number of chunks the image takes.
  function ChunkCount(p: Plan): nat
    requires p.Ok()
  {
    (|p.Image()| + p.chunkSize - 1) / p.chunkSize
  }

  lemma MulCancel(a: nat, b: nat, c: nat)
    requires a * c < b * c
    ensures a < b
  {
    if b <= a {
      MulMonotone(b, a, c);
    }
  }

  lemma NextChunkFits(p: Plan, n: nat)
    requires p.Ok() && p.Offset(n) < |p.Image()|
    ensures p.Offset(n + 1) <= p.Offset(ChunkCount(p))
  {
    var q, count := p.chunkSize, ChunkCount(p);
    assert (n + 1) * q == n * q + q && (count + 1) * q == count * q + q;
    MulCancel(n + 1, count + 1, q);
    MulMonotone(n + 1, count, q);
  }

  // One more flush stays inside the image's chunks as long as nothing stalled.
  lemma FlushFits(p: Plan, chunks: seq<bytes>, pending: bytes, total: nat)
    requires p.Ok() && Progress(p, chunks, pending, total, false) && pending != []
    ensures p.Offset(|chunks| + 1) <= p.Offset(ChunkCount(p))
  {
    if chunks == [] {
      assert 0 * p.chunkSize == 0;
    } else {
      FullLength(p, chunks);
    }
    NextChunkFits(p, |chunks|);
  }

  // While no chunk is short, the position in the data tells the position in the chunk.
  lemma WhereReading(p: Plan, chunks: seq<bytes>, pending: bytes, total: nat)
    requires p.Ok() && Progress(p, chunks, pending, total, false) && total < |p.data| && |pending| < p.Cap(|chunks|)
    ensures Room(p, total) == p.Cap(|chunks|) - |pending| && ChunkAt(p, total) == |chunks|
    ensures AtStart(p, total) <==> pending == []
  {
    assert |p.Payload()[..total]| == total;
    if chunks != [] {
      FullLength(p, chunks);
    }
    DivModUnique(|chunks|, p.chunkSize, |p.HeadOf(|chunks|)| + |pending|);
  }

  lemma RegionNext(p: Plan, mem: bytes, chunks: seq<bytes>, pending: bytes)
    requires p.Ok() && p.Fits(chunks) && |pending| <= p.Cap(|chunks|)
    requires p.address + p.Offset(|chunks| + 1) <= |mem|
    ensures p.Fits(chunks + [pending]) && p.Offset(|chunks| + 1) == p.Offset(|chunks|) + p.chunkSize
    ensures Splice(Splice(mem, p.address, p.Region(chunks)), p.address + p.Offset(|chunks|),
                   p.ChunkImage(|chunks|, pending)) ==
            Splice(mem, p.address, p.Region(chunks + [pending]))
  {
    hide Splice, Plan.ChunkImage, Plan.Offset, Plan.Head, Plan.Payload;
    var next := chunks + [pending];
    assert next[..|next| - 1] == chunks;
    OffsetNext(p, |chunks|);
    assert p.Region(next) == p.Region(chunks) + p.ChunkImage(|chunks|, pending);
    SpliceNext(mem, p.address, p.Region(chunks), p.ChunkImage(|chunks|, pending));
  }

  lemma SuffixSlice(p: Plan, at: nat, n: nat)
    requires |p.data| <= at && at + n <= |p.Payload()|
    ensures p.Payload()[at..at + n] == p.Tail()[at - |p.data|..at - |p.data| + n]
  {
  }

  lemma DataSlice(p: Plan, at: nat, n: nat)
    requires at + n <= |p.data|
    ensures p.Payload()[at..at + n] == p.data[at..at + n]
  {
  }

  // One read: from the suffix once the data is used up, from the stream before that.
  method ReadMore(file: Reader, p: Plan, buffer: array<byte>, chunkRead: nat, totalRead: nat, cap: nat)
    returns (numRead: nat)
    requires p.Ok() && file.data == p.data && file.pos == Min(totalRead, |p.data|)
    requires buffer.Length == p.chunkSize && chunkRead < cap <= p.chunkSize && p.chunkSize - 5 <= cap
    requires totalRead < |p.Payload()| && (chunkRead > 0 ==> totalRead < |p.data|)
    modifies file, buffer
    ensures chunkRead + numRead <= cap && totalRead + numRead <= |p.Payload()|
    ensures file.pos == Min(totalRead + numRead, |p.data|)
    ensures buffer[..chunkRead + numRead] == old(buffer[..chunkRead]) + p.Payload()[totalRead..totalRead + numRead]
    ensures totalRead >= |p.data| ==> totalRead + numRead == |p.Payload()| && file.calls == old(file.calls)
    ensures totalRead < |p.data| ==>
              && numRead == Min(cap - chunkRead, Min(file.sizes(old(file.calls)), |p.data| - totalRead))
              && file.calls == old(file.calls) + 1
  {
    if p.suffix.Some? && totalRead >= |p.data| {
      var rest := p.Tail()[totalRead - |p.data|..];
      numRead := |rest|;
      Store(buffer, 0, rest);
      SuffixSlice(p, totalRead, numRead);
      assert rest == p.Tail()[totalRead - |p.data|..totalRead - |p.data| + numRead];
    } else {
      var read := file.Read(cap - chunkRead);
      numRead := |read|;
      Store(buffer, chunkRead, read);
      DataSlice(p, totalRead, numRead);
    }
  }

  // Once the data is used up, as much of the suffix as still fits joins the chunk.
  method AppendSuffix(p: Plan, buffer: array<byte>, chunkRead: nat, totalRead: nat, cap: nat) returns (remainder: nat)
    requires p.Ok() && buffer.Length == p.chunkSize && chunkRead <= cap <= p.chunkSize
    requires totalRead <= |p.Payload()|
    modifies buffer
    ensures chunkRead + remainder <= cap && totalRead + remainder <= |p.Payload()|
    ensures buffer[..chunkRead + remainder] == old(buffer[..chunkRead]) + p.Payload()[totalRead..totalRead + remainder]
    ensures remainder == if totalRead >= |p.data| then Min(cap - chunkRead, |p.Payload()| - totalRead) else 0
  {
    remainder := 0;
    if p.suffix.Some? && totalRead >= |p.data| {
      var index := totalRead - |p.data|;
      remainder := Min(cap - chunkRead, |p.Tail()[index..]|);
      var part := p.Tail()[index..index + remainder];
      Store(buffer, chunkRead, part);
      SuffixSlice(p, totalRead, remainder);
    }
  }

  lemma LogExtends(start: seq<Op>, before: seq<Op>, after: seq<Op>, at: nat, offset: nat, size: nat)
    requires start <= before <= after
    requires AllWithin(before[|start|..], at, at + offset)
    requires AllWithin(after[|before|..], at + offset, at + offset + size)
    ensures AllWithin(after[|start|..], at, at + offset + size)
    ensures forall op | op in before[|start|..] || op in after[|before|..] :: op in after[|start|..]
  {
    assert after[|start|..] == before[|start|..] + after[|before|..];
  }

  lemma FilledChunk(p: Plan, c: nat, payload: bytes)
    requires p.Ok() && |payload| <= p.Cap(c)
    ensures p.HeadOf(c) + (payload + Nul(p.Cap(c) - |payload|)) == p.ChunkImage(c, payload)
  {
  }

  // The end of a chunk: zero fill, erase, write.
  method FlushPending(chip: Chip, p: Plan, buffer: array<byte>, i: nat, chunkRead: nat,
                      ghost mem: bytes, ghost chunks: seq<bytes>)
    requires chip.Valid() && p.Ok() && buffer.Length == p.chunkSize && buffer != chip.mem
    requires i == |chunks| && p.Fits(chunks) && chunkRead <= p.Cap(i)
    requires p.address + p.Offset(i) + p.chunkSize <= chip.mem.Length == |mem|
    requires chip.mem[..] == Splice(mem, p.address, p.Region(chunks))
    modifies chip, chip.mem, buffer
    ensures chip.Valid() && p.Fits(chunks + [old(buffer[..chunkRead])])
    ensures chip.mem[..] == Splice(mem, p.address, p.Region(chunks + [old(buffer[..chunkRead])]))
    ensures old(chip.log) <= chip.log
    ensures AllWithin(chip.log[|old(chip.log)|..], p.address + p.Offset(i), p.address + p.Offset(i) + p.chunkSize)
    ensures Erase(p.address + p.Offset(i), p.chunkSize) in chip.log[|old(chip.log)|..]
  {
    hide Splice, Plan.Region, Plan.ChunkImage, Plan.Offset, Chip.Valid, AllWithin;
    ghost var pending := buffer[..chunkRead];
    var cap := p.Cap(i);
    Store(buffer, chunkRead, Nul(cap - chunkRead));
    FilledChunk(p, i, pending);
    OffsetNext(p, i);
    RegionNext(p, mem, chunks, pending);
    FlushChunk(chip, p.address + p.Offset(i), p.HeadOf(i), buffer[..cap]);
  }

  // The flash as it is after the given chunks, and nothing else, were written.
  ghost predicate Written(chip: Chip, p: Plan, mem: bytes, log: seq<Op>, chunks: seq<bytes>)
    reads chip, chip.mem
    requires p.Ok()
  {
    && chip.Valid() && |mem| == chip.mem.Length && p.Fits(chunks)
    && p.address + p.Offset(|chunks|) <= chip.mem.Length
    && chip.mem[..] == Splice(mem, p.address, p.Region(chunks))
    && log <= chip.log && AllWithin(chip.log[|log|..], p.address, p.address + p.Offset(|chunks|))
    && (forall c | 0 <= c < |chunks| :: Erase(p.address + p.Offset(c), p.chunkSize) in chip.log[|log|..])
  }

  // The second half of the loop body: complete the chunk and flush it.
  method FinishChunk(chip: Chip, p: Plan, buffer: array<byte>, i: nat, chunkRead: nat, totalRead: nat,
                     ghost mem: bytes, ghost log: seq<Op>, ghost chunks: seq<bytes>, ghost stalled: bool)
    returns (flushed: bool, total: nat, ghost chunk: bytes, ghost stalls: bool)
    requires p.Ok() && buffer.Length == p.chunkSize && buffer != chip.mem && i == |chunks|
    requires 0 < chunkRead <= p.Cap(i) && totalRead <= |p.Payload()|
    requires Progress(p, chunks, buffer[..chunkRead], totalRead, stalled) && Written(chip, p, mem, log, chunks)
    modifies chip, chip.mem, buffer
    ensures totalRead <= total <= |p.Payload()|
    ensures !flushed ==> Written(chip, p, mem, log, chunks) && Progress(p, chunks, chunk, total, stalled)
    ensures !flushed && !stalled ==> p.address + p.Offset(ChunkCount(p)) > |mem|
    ensures flushed ==> Written(chip, p, mem, log, chunks + [chunk])
    ensures flushed ==> Progress(p, chunks + [chunk], [], total, stalled || stalls)
    ensures flushed && !stalled ==> p.Offset(|chunks + [chunk]|) <= p.Offset(ChunkCount(p))
    ensures stalls <==> chunkRead < p.Cap(i) && totalRead < |p.data|
    ensures totalRead < |p.data| ==> total == totalRead && chunk == old(buffer[..chunkRead])
    ensures total == totalRead + if totalRead >= |p.data| then Min(p.Cap(i) - chunkRead, |p.Payload()| - totalRead) else 0
    ensures flushed <==> p.address + p.Offset(i + 1) <= |mem|
  {
    hide Progress, ChunkCount, Splice, Plan.Region, Plan.ChunkImage, Plan.Offset, Concat, Chip.Valid;
    hide Plan.Head, Plan.HeadOf, Plan.Image, Plan.Fits;
    var cap := p.Cap(i);
    ghost var pending := buffer[..chunkRead];
    var remainder := AppendSuffix(p, buffer, chunkRead, totalRead, cap);
    ProgressExtends(p, chunks, pending, totalRead, remainder, stalled);
    total := totalRead + remainder;
    chunk := buffer[..chunkRead + remainder];
    stalls := |chunk| < cap && total < |p.Payload()|;
    assert Progress(p, chunks, chunk, total, stalled);
    if !stalled {
      FlushFits(p, chunks, chunk, total);
    }
    OffsetNext(p, i);
    assert p.Offset(0) == 0 by { OffsetZero(p); }
    if p.address + p.Offset(i) + p.chunkSize > chip.mem.Length {
      flushed := false;
    } else {
      ghost var before := chip.log;
      FlushPending(chip, p, buffer, i, chunkRead + remainder, mem, chunks);
      LogExtends(log, before, chip.log, p.address, p.Offset(i), p.chunkSize);
      ProgressFlush(p, chunks, chunk, total, stalled, stalls);
      flushed := true;
    }
  }

  // ---------------------------------------------------------------- following the reader

  // What is known of the reads made so far, as long as none of them stalled.
  ghost predicate Reading(p: Plan, sizes: nat -> nat, calls: nat, total: nat, attempts: nat)
    requires p.Ok()
  {
    && Pos(p, sizes, calls) == Min(total, |p.data|) && NoStall(p, sizes, calls)
    && Empties(p, sizes, calls) == attempts
  }

  /** The first chunk that is not full ends at position at of the data. */
  ghost predicate FirstShort(p: Plan, chunks: seq<bytes>, at: nat)
    requires p.Ok()
  {
    exists c | 0 <= c < |chunks| :: p.Full(chunks, c) && |chunks[c]| < p.Cap(c) && |Concat(chunks[..c + 1])| == at
  }

  ghost predicate StallSeen(p: Plan, sizes: nat -> nat, flash: nat, chunks: seq<bytes>)
    requires p.Ok()
  {
    exists k: nat :: StallsAt(p, sizes, flash, k) && FirstShort(p, chunks, Pos(p, sizes, k))
  }

  lemma ReadStep(p: Plan, sizes: nat -> nat, chunks: seq<bytes>, pending: bytes, calls: nat, total: nat, attempts: nat,
                 numRead: nat)
    requires p.Ok() && Progress(p, chunks, pending, total, false) && total < |p.data| && |pending| < p.Cap(|chunks|)
    requires Reading(p, sizes, calls, total, attempts)
    requires numRead == Min(p.Cap(|chunks|) - |pending|, Min(sizes(calls), |p.data| - total))
    ensures Pos(p, sizes, calls) == total && ChunkAt(p, total) == |chunks|
    ensures if numRead == 0 && pending != [] then Stall(p, sizes, calls)
            else Reading(p, sizes, calls + 1, total + numRead, attempts + if numRead == 0 then 1 else 0)
  {
    hide Room, AtStart, ChunkAt, Progress, Reading, Stall, Pos, Plan.Cap;
    WhereReading(p, chunks, pending, total);
    ReadingNext(p, sizes, calls, total, attempts, numRead);
  }

  lemma ReadingNext(p: Plan, sizes: nat -> nat, calls: nat, total: nat, attempts: nat, numRead: nat)
    requires p.Ok() && Reading(p, sizes, calls, total, attempts) && total < |p.data|
    requires numRead == Min(Room(p, total), Min(sizes(calls), |p.data| - total))
    ensures Pos(p, sizes, calls) == total
    ensures if numRead == 0 && !AtStart(p, total) then Stall(p, sizes, calls)
            else Reading(p, sizes, calls + 1, total + numRead, attempts + if numRead == 0 then 1 else 0)
  {
    ReadNext(p, sizes, calls);
    hide Room, AtStart, Pos, Empties;
    assert IsEmpty(p, sizes, calls) <==> numRead == 0;
  }

  lemma StallBegins(p: Plan, sizes: nat -> nat, flash: nat, chunks: seq<bytes>, chunk: bytes, k: nat, total: nat,
                    attempts: nat)
    requires p.Ok() && Progress(p, chunks, chunk, total, false) && total < |p.data| && |chunk| < p.Cap(|chunks|)
    requires Reading(p, sizes, k, total, attempts) && attempts <= 5 && Stall(p, sizes, k)
    requires ChunkAt(p, total) == |chunks| && p.address + p.Offset(|chunks| + 1) <= flash
    ensures StallSeen(p, sizes, flash, chunks + [chunk])
  {
    hide Stall, Pos, Empties, ChunkAt;
    var next := chunks + [chunk];
    assert next[..|chunks|] == chunks && next[..|chunks| + 1] == next;
    assert |Concat(next)| == |p.Payload()[..total]| == total;
    assert p.Full(next, |chunks|) && |next[|chunks|]| < p.Cap(|chunks|);
    assert StallsAt(p, sizes, flash, k);
  }

  lemma StallStays(p: Plan, sizes: nat -> nat, flash: nat, chunks: seq<bytes>, chunk: bytes)
    requires p.Ok() && StallSeen(p, sizes, flash, chunks)
    ensures StallSeen(p, sizes, flash, chunks + [chunk])
  {
    hide StallsAt, Pos, Concat, Plan.Head, Plan.HeadOf, Plan.Payload;
    var next := chunks + [chunk];
    var k: nat :| StallsAt(p, sizes, flash, k) && FirstShort(p, chunks, Pos(p, sizes, k));
    var c :| 0 <= c < |chunks| && p.Full(chunks, c) && |chunks[c]| < p.Cap(c) &&
             |Concat(chunks[..c + 1])| == Pos(p, sizes, k);
    assert next[..c + 1] == chunks[..c + 1];
    assert p.Full(next, c) && |next[c]| < p.Cap(c);
  }

  lemma StallOutcome(p: Plan, sizes: nat -> nat, flash: nat, chunks: seq<bytes>)
    requires p.Ok() && StallSeen(p, sizes, flash, chunks)
    ensures Stalls(p, sizes, flash) && !ReadsThrough(p, sizes)
    ensures forall k: nat | StallsAt(p, sizes, flash, k) :: FirstShort(p, chunks, Pos(p, sizes, k))
  {
    var k: nat :| StallsAt(p, sizes, flash, k) && FirstShort(p, chunks, Pos(p, sizes, k));
    StallStops(p, sizes, k);
    hide FirstShort, StallsAt, ReadsThrough;
    forall j: nat | StallsAt(p, sizes, flash, j)
      ensures j == k
    {
      OneStall(p, sizes, flash, j, k);
    }
  }

  // Both, depending on whether a read has stalled.
  ghost predicate Followed(p: Plan, sizes: nat -> nat, flash: nat, chunks: seq<bytes>, stalled: bool,
                           calls: nat, total: nat, attempts: nat)
    requires p.Ok()
  {
    if stalled then StallSeen(p, sizes, flash, chunks) else Reading(p, sizes, calls, total, attempts)
  }

  /** How a run ends, told from the pattern of reads alone. */
  ghost predicate Outcome(p: Plan, sizes: nat -> nat, flash: nat, chunks: seq<bytes>, stalled: bool, ok: bool)
    requires p.Ok()
  {
    && (ok ==> Concat(chunks) == p.Payload())
    && (!stalled ==> Concat(chunks) <= p.Payload() && p.Full(chunks, |chunks| - 1))
    && (stalled <==> Stalls(p, sizes, flash))
    && (forall k: nat | StallsAt(p, sizes, flash, k) :: FirstShort(p, chunks, Pos(p, sizes, k)))
    && (ok && !stalled <==>
        p.Payload() != [] && ReadsThrough(p, sizes) && p.address + p.Offset(ChunkCount(p)) <= flash)
  }

  lemma NothingRead(p: Plan, sizes: nat -> nat, flash: nat)
    requires p.Ok()
    ensures Followed(p, sizes, flash, [], false, 0, 0, 0)
    ensures p.Payload() == [] ==> Outcome(p, sizes, flash, [], false, false)
  {
    if p.Payload() == [] {
      EndOfData(p, sizes, 0, flash);
    }
  }

  // One read: the reader is followed unless it returned nothing in mid-chunk.
  lemma FollowRead(p: Plan, sizes: nat -> nat, flash: nat, chunks: seq<bytes>, stalled: bool,
                   pending: bytes, calls: nat, next: nat, total: nat, attempts: nat, numRead: nat)
    requires p.Ok() && Progress(p, chunks, pending, total, stalled) && |pending| < p.Cap(|chunks|)
    requires Followed(p, sizes, flash, chunks, stalled, calls, total, attempts)
    requires if total < |p.data|
             then next == calls + 1 && numRead == Min(p.Cap(|chunks|) - |pending|, Min(sizes(calls), |p.data| - total))
             else next == calls && numRead > 0
    ensures numRead > 0 || pending == [] ==>
              Followed(p, sizes, flash, chunks, stalled, next, total + numRead, attempts + if numRead == 0 then 1 else 0)
  {
    hide Progress, StallSeen;
    if !stalled && total < |p.data| {
      ReadStep(p, sizes, chunks, pending, calls, total, attempts, numRead);
    }
  }

  // The flush after a read that returned nothing in mid-chunk, and every flush after that one.
  lemma FollowStall(p: Plan, sizes: nat -> nat, flash: nat, chunks: seq<bytes>, chunk: bytes, calls: nat, total: nat,
                    attempts: nat)
    requires p.Ok() && Progress(p, chunks, chunk, total, false) && attempts <= 5 && chunk != []
    requires Followed(p, sizes, flash, chunks, false, calls, total, attempts)
    requires p.address + p.Offset(|chunks| + 1) <= flash
    requires total < |p.data| && |chunk| < p.Cap(|chunks|) && sizes(calls) == 0
    ensures StallSeen(p, sizes, flash, chunks + [chunk])
  {
    ReadStep(p, sizes, chunks, chunk, calls, total, attempts, 0);
    StallBegins(p, sizes, flash, chunks, chunk, calls, total, attempts);
  }

  lemma StallIsFollowed(p: Plan, sizes: nat -> nat, flash: nat, chunks: seq<bytes>, calls: nat, total: nat, attempts: nat)
    requires p.Ok()
    ensures StallSeen(p, sizes, flash, chunks) <==> Followed(p, sizes, flash, chunks, true, calls, total, attempts)
  {
  }

  // The suffix is not read from the stream.
  lemma FollowSuffix(p: Plan, sizes: nat -> nat, flash: nat, chunks: seq<bytes>, next: seq<bytes>, calls: nat,
                     total: nat, more: nat, attempts: nat)
    requires p.Ok() && Followed(p, sizes, flash, chunks, false, calls, total, attempts)
    requires total < |p.data| ==> more == 0
    ensures Followed(p, sizes, flash, next, false, calls, total + more, attempts)
  {
  }

  lemma GaveUp(p: Plan, sizes: nat -> nat, flash: nat, chunks: seq<bytes>, stalled: bool, calls: nat, total: nat)
    requires p.Ok() && Followed(p, sizes, flash, chunks, stalled, calls, total, 6) && total < |p.data|
    requires Progress(p, chunks, [], total, stalled)
    ensures Outcome(p, sizes, flash, chunks, stalled, false)
  {
    ProgressEnds(p, chunks, [], total, stalled);
    if stalled {
      StallOutcome(p, sizes, flash, chunks);
    } else {
      OutOfAttempts(p, sizes, calls, flash);
    }
  }

  lemma NoFlashLeft(p: Plan, sizes: nat -> nat, flash: nat, chunks: seq<bytes>, stalled: bool, pending: bytes,
                    chunk: bytes, calls: nat, total: nat, end: nat, attempts: nat)
    requires p.Ok() && Followed(p, sizes, flash, chunks, stalled, calls, total, attempts)
    requires Progress(p, chunks, pending, total, stalled) && |pending| < p.Cap(|chunks|)
    requires Progress(p, chunks, chunk, end, stalled)
    requires p.address + p.Offset(|chunks| + 1) > flash && (!stalled ==> p.address + p.Offset(ChunkCount(p)) > flash)
    ensures Outcome(p, sizes, flash, chunks, stalled, false)
  {
    hide ChunkCount, Plan.Offset;
    ProgressEnds(p, chunks, chunk, end, stalled);
    if stalled {
      StallOutcome(p, sizes, flash, chunks);
    } else if total < |p.data| {
      WhereReading(p, chunks, pending, total);
      OutOfFlash(p, sizes, calls, flash);
    } else {
      EndOfData(p, sizes, calls, flash);
    }
  }

  lemma AllRead(p: Plan, sizes: nat -> nat, flash: nat, chunks: seq<bytes>, stalled: bool, calls: nat, attempts: nat)
    requires p.Ok() && Followed(p, sizes, flash, chunks, stalled, calls, |p.Payload()|, attempts) && attempts <= 5
    requires Progress(p, chunks, [], |p.Payload()|, stalled) && p.Payload() != []
    requires p.address + p.Offset(|chunks|) <= flash && (!stalled ==> p.Offset(|chunks|) <= p.Offset(ChunkCount(p)))
    ensures Outcome(p, sizes, flash, chunks, stalled, true)
  {
    ProgressEnds(p, chunks, [], |p.Payload()|, stalled);
    if stalled {
      StallOutcome(p, sizes, flash, chunks);
    } else {
      hide Pos, Empties, Plan.Offset, Plan.Region, ChunkCount;
      EndOfData(p, sizes, calls, flash);
      FullChunksHoldImage(p, chunks);
    }
  }

  /**
   A chunk is complete, after read number call at position start: it is flushed and the reader followed on, or
   the run ends for lack of flash.
   */
  method CloseChunk(chip: Chip, p: Plan, buffer: array<byte>, i: nat, chunkRead: nat, totalRead: nat,
                    ghost mem: bytes, ghost log: seq<Op>, ghost chunks: seq<bytes>, ghost stalled: bool,
                    ghost sizes: nat -> nat, ghost pending: bytes, ghost call: nat, ghost calls: nat, ghost start: nat,
                    ghost attempts: nat)
    returns (flushed: bool, total: nat, ghost next: seq<bytes>, ghost stalls: bool)
    requires p.Ok() && buffer.Length == p.chunkSize && buffer != chip.mem && i == |chunks| && attempts <= 5
    requires 0 < chunkRead <= p.Cap(i) && totalRead <= |p.Payload()|
    requires Progress(p, chunks, buffer[..chunkRead], totalRead, stalled) && Written(chip, p, mem, log, chunks)
    requires Progress(p, chunks, pending, start, stalled) && |pending| < p.Cap(i)
    requires Followed(p, sizes, chip.mem.Length, chunks, stalled, call, start, attempts)
    requires chunkRead < p.Cap(i) && totalRead < |p.data| ==> sizes(call) == 0 && totalRead == start
    requires !(chunkRead < p.Cap(i) && totalRead < |p.data|) ==>
               Followed(p, sizes, chip.mem.Length, chunks, stalled, calls, totalRead, attempts)
    modifies chip, chip.mem, buffer
    ensures totalRead <= total <= |p.Payload()|
    ensures total == totalRead + if totalRead >= |p.data| then Min(p.Cap(i) - chunkRead, |p.Payload()| - totalRead) else 0
    ensures flushed <==> p.address + p.Offset(i + 1) <= chip.mem.Length
    ensures !flushed ==> next == chunks && stalls == stalled && Outcome(p, sizes, chip.mem.Length, chunks, stalled, false)
    ensures Written(chip, p, mem, log, next)
    ensures flushed ==> |next| == i + 1 && Progress(p, next, [], total, stalls)
    ensures flushed ==> Followed(p, sizes, chip.mem.Length, next, stalls, calls, total, attempts)
    ensures flushed && !stalls ==> p.Offset(|next|) <= p.Offset(ChunkCount(p))
  {
    hide Progress, Written, ChunkCount, Plan.Offset, Outcome, Followed, StallSeen;
    hide Plan.Head, Plan.HeadOf, Plan.Image, Plan.Fits;
    ghost var flash := chip.mem.Length;
    WrittenFits(chip, p, mem, log, chunks);
    ghost var chunk, short;
    flushed, total, chunk, short := FinishChunk(chip, p, buffer, i, chunkRead, totalRead, mem, log, chunks, stalled);
    next, stalls := chunks, stalled;
    if !flushed {
      NoFlashLeft(p, sizes, flash, chunks, stalled, pending, chunk, call, start, total, attempts);
      return;
    }
    next, stalls := chunks + [chunk], stalled || short;
    WrittenFits(chip, p, mem, log, next);
    if stalled {
      StallIsFollowed(p, sizes, flash, chunks, call, start, attempts);
      StallStays(p, sizes, flash, chunks, chunk);
      StallIsFollowed(p, sizes, flash, next, calls, total, attempts);
    } else if short {
      FollowStall(p, sizes, flash, chunks, chunk, call, start, attempts);
      StallIsFollowed(p, sizes, flash, next, calls, total, attempts);
    } else {
      FollowSuffix(p, sizes, flash, chunks, next, calls, totalRead, total - totalRead, attempts);
    }
  }

  /**
   Writes header, data and suffix, chunk by chunk.  Whatever the reader does, the flash changes only in
   the chunks written, and those hold what was read; after a normal exit they hold the whole payload.  A stall
   happens exactly when the pattern of reads has one before the run ends, and it leaves the first short chunk
   where that read was made.  Without one, the run succeeds exactly when the data can be read with at most five
   empty reads and the image fits the flash.
   */
  method WriteData(chip: Chip, file: Reader, p: Plan) returns (ok: bool, ghost chunks: seq<bytes>, ghost stalled: bool)
    requires chip.Valid() && p.Ok() && p.address <= chip.mem.Length
    requires file.data == p.data && file.pos == 0 && file.calls == 0
    modifies chip, chip.mem, file
    ensures Written(chip, p, old(chip.mem[..]), old(chip.log), chunks)
    ensures Outcome(p, file.sizes, chip.mem.Length, chunks, stalled, ok)
    ensures Run(|chunks|, ok) == Runs(p, file.sizes, chip.mem.Length)
    ensures !stalled ==> p.Offset(|chunks|) <= p.Offset(ChunkCount(p))
  {
    hide Progress, Written, ChunkCount, Plan.Offset, Outcome, Followed, StallSeen;
    hide Plan.Head, Plan.HeadOf, Plan.Image, Plan.Fits, RunFrom, Runs;
    ok, chunks, stalled := false, [], false;
    ghost var mem, log, flash, sizes := chip.mem[..], chip.log, chip.mem.Length, file.sizes;
    ProgressStarts(p);
    NothingWritten(chip, p);
    NothingRead(p, sizes, flash);
    RunStarts(p, sizes, flash);
    var goal := |p.data| + |p.Tail()|;
    if goal == 0 {
      return;
    }
    var buffer := new byte[p.chunkSize];
    var i: nat, chunkRead: nat, totalRead: nat, readAttempts: nat := 0, 0, 0, 0;
    while totalRead != goal
      invariant i == |chunks| && totalRead <= goal && file.pos == Min(totalRead, |p.data|) && readAttempts <= 5
      invariant chunkRead < p.Cap(i) && (chunkRead > 0 ==> totalRead < |p.data|)
      invariant Progress(p, chunks, buffer[..chunkRead], totalRead, stalled)
      invariant Written(chip, p, mem, log, chunks)
      invariant !stalled ==> p.Offset(|chunks|) <= p.Offset(ChunkCount(p))
      invariant Followed(p, sizes, flash, chunks, stalled, file.calls, totalRead, readAttempts)
      invariant RunFrom(p, sizes, flash, Cursor(i, chunkRead, totalRead, file.calls, readAttempts)) == Runs(p, sizes, flash)
      decreases goal - totalRead, 5 - readAttempts, chunkRead
    {
      var cap := p.Cap(i);
      ghost var pending, call, start := buffer[..chunkRead], file.calls, totalRead;
      ghost var at := Cursor(i, chunkRead, totalRead, file.calls, readAttempts);
      var numRead := ReadMore(file, p, buffer, chunkRead, totalRead, cap);
      RunStep(p, sizes, flash, at, numRead, file.calls);
      ProgressExtends(p, chunks, pending, start, numRead, stalled);
      FollowRead(p, sizes, flash, chunks, stalled, pending, call, file.calls, start, readAttempts, numRead);
      totalRead, chunkRead := totalRead + numRead, chunkRead + numRead;
      assert Progress(p, chunks, buffer[..chunkRead], totalRead, stalled);
      if chunkRead == 0 {
        if readAttempts < 5 {
          readAttempts := readAttempts + 1;
          continue;
        }
        GaveUp(p, sizes, flash, chunks, stalled, file.calls, totalRead);
        return;
      }
      if numRead > 0 && chunkRead < cap && totalRead < |p.data| {
        continue;
      }
      var flushed;
      flushed, totalRead, chunks, stalled := CloseChunk(chip, p, buffer, i, chunkRead, totalRead, mem, log, chunks, stalled,
                                                        sizes, pending, call, file.calls, start, readAttempts);
      if !flushed {
        return;
      }
      i, chunkRead := i + 1, 0;
      assert buffer[..0] == [];
    }
    WrittenFits(chip, p, mem, log, chunks);
    AllRead(p, sizes, flash, chunks, stalled, file.calls, readAttempts);
    RunEnds(p, sizes, flash, Cursor(i, chunkRead, totalRead, file.calls, readAttempts));
    ok := true;
  }

  lemma WrittenFits(chip: Chip, p: Plan, mem: bytes, log: seq<Op>, chunks: seq<bytes>)
    requires p.Ok() && Written(chip, p, mem, log, chunks)
    ensures p.Fits(chunks) && p.address + p.Offset(|chunks|) <= chip.mem.Length == |mem|
  {
  }

  lemma NothingWritten(chip: Chip, p: Plan)
    requires p.Ok() && chip.Valid() && p.address <= chip.mem.Length
    ensures Written(chip, p, chip.mem[..], chip.log, [])
    ensures p.Offset(0) <= p.Offset(ChunkCount(p)) && p.Full([], -1) && Concat([]) == []
  {
    assert p.Region([]) == [];
    assert Splice(chip.mem[..], p.address, []) == chip.mem[..];
    assert chip.log[|chip.log|..] == [];
    MulMonotone(0, ChunkCount(p), p.chunkSize);
  }

  // ---------------------------------------------------------------- the image

  lemma LaterChunk(p: Plan, c: nat, payload: bytes)
    requires p.Ok() && |payload| <= p.Cap(c)
    ensures p.ChunkImage(c, payload) == (if c == 0 then p.Head() else []) + payload + Nul(p.Cap(c) - |payload|)
    ensures c > 0 ==> p.ChunkImage(c, payload) == payload + Nul(p.Cap(c) - |payload|)
  {
  }

  lemma {:induction false} FullRegion(p: Plan, chunks: seq<bytes>)
    requires p.Ok() && p.Fits(chunks) && p.Full(chunks, |chunks|) && chunks != []
    ensures p.Region(chunks) == p.Head() + Concat(chunks)
  {
    hide Plan.Head, Plan.Offset, Plan.ChunkImage;
    var n := |chunks| - 1;
    var init, last := chunks[..n], chunks[n];
    LaterChunk(p, n, last);
    if n > 0 {
      FullRegion(p, init);
      Regroup(p.Head(), Concat(init), last, Nul(0));
    } else {
      assert Concat(init) == [] && p.Region(init) == [];
      assert [] + last == last;
      assert [] + p.ChunkImage(n, last) == p.ChunkImage(n, last);
    }
    assert p.Head() + Concat(chunks) + Nul(0) == p.Head() + Concat(chunks);
  }

  lemma Regroup(a: bytes, b: bytes, c: bytes, d: bytes)
    ensures (a + b) + (c + d) == (a + (b + c)) + d
  {
  }

  lemma RegionOfFull(p: Plan, chunks: seq<bytes>)
    requires p.Ok() && p.Fits(chunks) && p.Full(chunks, |chunks| - 1) && chunks != []
    ensures var last := chunks[|chunks| - 1];
            p.Region(chunks) == p.Head() + Concat(chunks) + Nul(p.Cap(|chunks| - 1) - |last|)
  {
    hide Plan.Head, Plan.Offset, Plan.ChunkImage;
    var n := |chunks| - 1;
    var init, last := chunks[..n], chunks[n];
    var fill := Nul(p.Cap(n) - |last|);
    LaterChunk(p, n, last);
    if n > 0 {
      FullRegion(p, init);
      Regroup(p.Head(), Concat(init), last, fill);
    } else {
      assert Concat(init) == [] && p.Region(init) == [];
      assert [] + last == last;
      assert [] + p.ChunkImage(n, last) == p.ChunkImage(n, last);
    }
  }

  lemma RegionIsImage(p: Plan, chunks: seq<bytes>)
    requires p.Ok() && p.Fits(chunks) && p.Full(chunks, |chunks| - 1) && chunks != [] && Concat(chunks) == p.Payload()
    ensures var last := chunks[|chunks| - 1];
            p.Region(chunks) == p.Image() + Nul(p.Cap(|chunks| - 1) - |last|)
  {
    RegionOfFull(p, chunks);
  }

  /**
   With every chunk before the last one full, the flash holds header, data and suffix without a gap, zero
   fill after them, in exactly as many chunks as that takes.
   */
  lemma FullChunksHoldImage(p: Plan, chunks: seq<bytes>)
    requires p.Ok() && p.Fits(chunks) && p.Full(chunks, |chunks| - 1) && Concat(chunks) == p.Payload() != []
    requires p.Offset(|chunks|) <= p.Offset(ChunkCount(p))
    ensures |chunks| == ChunkCount(p)
    ensures |p.Image()| <= p.Offset(|chunks|)
    ensures p.Region(chunks) == p.Image() + Nul(p.Offset(|chunks|) - |p.Image()|)
  {
    hide Plan.Head, Plan.Offset, Plan.Payload, Plan.Region, ChunkCount;
    RegionIsImage(p, chunks);
    CountIsExact(p, |chunks|);
  }

  lemma CountBounds(p: Plan)
    requires p.Ok()
    ensures |p.Image()| <= p.Offset(ChunkCount(p)) < |p.Image()| + p.chunkSize
  {
    var n, q := |p.Image()| + p.chunkSize - 1, p.chunkSize;
    assert n == (n / q) * q + n % q;
  }

  lemma CountIsExact(p: Plan, n: nat)
    requires p.Ok() && |p.Image()| <= p.Offset(n) <= p.Offset(ChunkCount(p))
    ensures n == ChunkCount(p)
  {
    CountBounds(p);
    hide ChunkCount, Plan.Image, Plan.Offset;
    var count := ChunkCount(p);
    OffsetNext(p, n);
    OffsetNext(p, count);
    OffsetOrder(p, count, n + 1);
    OffsetOrder(p, n, count + 1);
  }

  lemma OffsetOrder(p: Plan, a: nat, b: nat)
    requires p.Offset(a) < p.Offset(b)
    ensures a < b
  {
    MulCancel(a, b, p.chunkSize);
  }

  lemma GapByte(p: Plan, c: nat, payload: bytes)
    requires p.Ok() && |payload| < p.Cap(c)
    ensures p.ChunkImage(c, payload)[|p.HeadOf(c)| + |payload|] == 0
  {
  }

  // Where the payload of chunk c ends, when the chunks before it are full.
  lemma ChunkEnd(p: Plan, chunks: seq<bytes>, c: nat)
    requires p.Ok() && c < |chunks| && p.Full(chunks, c)
    ensures |p.Head()| + |Concat(chunks[..c + 1])| == p.Offset(c) + |p.HeadOf(c)| + |chunks[c]|
  {
    hide Plan.Offset;
    var upto, before := chunks[..c + 1], chunks[..c];
    assert upto[..c] == before;
    assert Concat(upto) == Concat(before) + chunks[c];
    if c > 0 {
      FullLength(p, before);
    } else {
      assert Concat(before) == [];
      OffsetZero(p);
    }
  }

  /**
   A short chunk leaves a gap: where the image has its next payload byte the flash holds a zero, so unless that
   byte is zero too the image is damaged.
   */
  lemma ShortChunkLeavesGap(p: Plan, chunks: seq<bytes>, c: nat)
    requires p.Ok() && p.Fits(chunks) && c < |chunks| && p.Full(chunks, c) && |chunks[c]| < p.Cap(c)
    ensures var end := |Concat(chunks[..c + 1])|;
            && |p.Head()| + end < p.Offset(|chunks|) && p.Region(chunks)[|p.Head()| + end] == 0
            && (end < |p.Payload()| && p.Payload()[end] != 0 ==> !(p.Image() <= p.Region(chunks)))
  {
    hide Plan.Head, Plan.HeadOf, Plan.Offset, Plan.ChunkImage, Plan.Payload, Concat;
    var upto, before := chunks[..c + 1], chunks[..c];
    var end := |Concat(upto)|;
    var at := |p.Head()| + end;
    ChunkEnd(p, chunks, c);
    OffsetNext(p, c);
    assert upto[..c] == before;
    assert p.Region(upto) == p.Region(before) + p.ChunkImage(c, chunks[c]);
    GapByte(p, c, chunks[c]);
    RegionPrefix(p, chunks, c + 1);
    if end < |p.Payload()| {
      assert p.Image()[at] == p.Payload()[end];
    }
  }

  // Past the gap every byte written is fill, or a payload byte that belongs further to the front.
  ghost predicate Displaced(p: Plan, whole: bytes, region: bytes, end: nat, j: int)
    requires 0 <= j < |region|
  {
    region[j] == 0 || exists i :: end <= i < j - |p.Head()| && i < |whole| && region[j] == whole[i]
  }

  lemma {:induction false} PastTheGap(p: Plan, chunks: seq<bytes>, c: nat, n: nat, j: nat)
    requires p.Ok() && p.Fits(chunks) && c < n <= |chunks| && p.Full(chunks, c) && |chunks[c]| < p.Cap(c)
    requires |p.Head()| + |Concat(chunks[..c + 1])| <= j < |p.Region(chunks[..n])|
    ensures Displaced(p, Concat(chunks), p.Region(chunks[..n]), |Concat(chunks[..c + 1])|, j)
    decreases n
  {
    hide Plan.Head, Plan.Offset, Plan.Region, Concat, Plan.ChunkImage;
    var upto, before := chunks[..n], chunks[..n - 1];
    assert upto[..n - 1] == before;
    if n == c + 1 {
      RegionOfFull(p, upto);
    } else {
      RegionSnoc(p, upto);
      if j < |p.Region(before)| {
        PastTheGap(p, chunks, c, n - 1, j);
      } else {
        ChunkIsDisplaced(p, chunks, c, n - 1, j - |p.Region(before)|);
      }
    }
  }

  lemma RegionSnoc(p: Plan, chunks: seq<bytes>)
    requires p.Ok() && p.Fits(chunks) && chunks != []
    ensures var n := |chunks| - 1;
            p.Fits(chunks[..n]) && p.Region(chunks) == p.Region(chunks[..n]) + p.ChunkImage(n, chunks[n])
  {
    hide Plan.ChunkImage;
  }

  // A chunk after the short one starts further on in the flash than its payload does in the image.
  lemma ChunkIsDisplaced(p: Plan, chunks: seq<bytes>, c: nat, n: nat, t: nat)
    requires p.Ok() && p.Fits(chunks) && c < n < |chunks| && |chunks[c]| < p.Cap(c) && t < p.chunkSize
    ensures var b := p.ChunkImage(n, chunks[n])[t];
            b == 0 || exists i :: |Concat(chunks[..c + 1])| <= i < |p.Region(chunks[..n])| + t - |p.Head()| &&
                                  i < |Concat(chunks)| && b == Concat(chunks)[i]
  {
    var before, here := chunks[..n], chunks[n];
    ShortageAtLeast(p, before, c);
    RegionIsImageAndShortage(p, before);
    hide Plan.Head, Plan.Offset, Plan.Region, Concat, Shortage;
    LaterChunk(p, n, here);
    if t < |here| {
      var i := |Concat(before)| + t;
      PrefixLength(chunks, c + 1, n);
      ByteOfChunk(chunks, n, t);
      assert p.ChunkImage(n, here)[t] == Concat(chunks)[i];
    }
  }

  lemma PrefixLength(chunks: seq<bytes>, a: nat, b: nat)
    requires a <= b <= |chunks|
    ensures |Concat(chunks[..a])| <= |Concat(chunks[..b])|
  {
    assert chunks[..b][..a] == chunks[..a];
    ConcatPrefix(chunks[..b], a);
  }

  lemma ByteOfChunk(chunks: seq<bytes>, n: nat, t: nat)
    requires n < |chunks| && t < |chunks[n]|
    ensures |Concat(chunks[..n])| + t < |Concat(chunks)| && Concat(chunks)[|Concat(chunks[..n])| + t] == chunks[n][t]
  {
    assert chunks[..n + 1][..n] == chunks[..n];
    assert Concat(chunks[..n + 1]) == Concat(chunks[..n]) + chunks[n];
    ConcatPrefix(chunks, n + 1);
  }

  ghost predicate ZeroFrom(s: bytes, from: nat) { forall i | from <= i < |s| :: s[i] == 0 }

  // If the image is there nevertheless, each byte past the gap is one that comes before it, or zero.
  lemma {:induction false} ZeroUpTo(p: Plan, region: bytes, end: nat, i: nat)
    requires p.Image() <= region && end <= i < |p.Payload()|
    requires forall j | |p.Head()| + end <= j < |region| :: Displaced(p, p.Payload(), region, end, j)
    ensures p.Payload()[i] == 0
    decreases i
  {
    var j := |p.Head()| + i;
    assert p.Image()[j] == p.Payload()[i];
    assert Displaced(p, p.Payload(), region, end, j);
    if region[j] != 0 {
      var i' :| end <= i' < j - |p.Head()| && i' < |p.Payload()| && region[j] == p.Payload()[i'];
      ZeroUpTo(p, region, end, i');
    }
  }

  /**
   What a short chunk does to the image, exactly: a run that wrote the whole payload leaves the image if and only if
   every payload byte from the gap on is zero.
   */
  lemma GapIsHarmlessIffZero(p: Plan, chunks: seq<bytes>, c: nat)
    requires p.Ok() && p.Fits(chunks) && c < |chunks| && p.Full(chunks, c) && |chunks[c]| < p.Cap(c)
    requires Concat(chunks) == p.Payload()
    ensures p.Image() <= p.Region(chunks) <==> ZeroFrom(p.Payload(), |Concat(chunks[..c + 1])|)
  {
    var region, end := p.Region(chunks), |Concat(chunks[..c + 1])|;
    assert chunks[..|chunks|] == chunks;
    hide Plan.Head, Plan.Offset, Plan.Region, Plan.Payload, Concat;
    forall j | |p.Head()| + end <= j < |region|
      ensures Displaced(p, p.Payload(), region, end, j)
    {
      PastTheGap(p, chunks, c, |chunks|, j);
    }
    hide Displaced;
    UpToTheGap(p, chunks, c);
    RegionIsImageAndShortage(p, chunks);
    if p.Image() <= region {
      forall i | end <= i < |p.Payload()|
        ensures p.Payload()[i] == 0
      {
        ZeroUpTo(p, region, end, i);
      }
    } else if ZeroFrom(p.Payload(), end) {
      ZeroTail(p, region, end);
    }
  }

  lemma ZeroTail(p: Plan, region: bytes, end: nat)
    requires |p.Image()| <= |region| && end <= |p.Payload()| && ZeroFrom(p.Payload(), end)
    requires region[..|p.Head()| + end] == p.Image()[..|p.Head()| + end]
    requires forall j | |p.Head()| + end <= j < |region| :: Displaced(p, p.Payload(), region, end, j)
    ensures p.Image() <= region
  {
    hide Plan.Head, Plan.Payload;
    var at := |p.Head()| + end;
    forall j | 0 <= j < |p.Image()|
      ensures p.Image()[j] == region[j]
    {
      if j < at {
        assert p.Image()[j] == p.Image()[..at][j] == region[..at][j];
      } else {
        assert Displaced(p, p.Payload(), region, end, j);
        assert p.Image()[j] == p.Payload()[j - |p.Head()|];
      }
    }
  }

  lemma UpToTheGap(p: Plan, chunks: seq<bytes>, c: nat)
    requires p.Ok() && p.Fits(chunks) && c < |chunks| && p.Full(chunks, c) && Concat(chunks) == p.Payload()
    ensures var at := |p.Head()| + |Concat(chunks[..c + 1])|;
            at <= |p.Image()| && at <= |p.Region(chunks)| && p.Region(chunks)[..at] == p.Image()[..at]
  {
    hide Plan.Head, Plan.Offset, Plan.Region, Concat, Plan.Payload;
    var upto := chunks[..c + 1];
    RegionOfFull(p, upto);
    RegionPrefix(p, chunks, c + 1);
    ConcatPrefix(chunks, c + 1);
    var at := |p.Head()| + |Concat(upto)|;
    assert p.Region(chunks)[..at] == p.Region(upto)[..at] == p.Head() + Concat(upto);
    assert p.Image()[..at] == p.Head() + p.Payload()[..|Concat(upto)|];
  }

  /** So a stalled run that wrote the whole payload leaves the image if and only if the rest of the payload is zero. */
  lemma StallIsHarmlessIffZero(p: Plan, sizes: nat -> nat, k: nat, chunks: seq<bytes>)
    requires p.Ok() && p.Fits(chunks) && FirstShort(p, chunks, Pos(p, sizes, k)) && Concat(chunks) == p.Payload()
    ensures p.Image() <= p.Region(chunks) <==> ZeroFrom(p.Payload(), Pos(p, sizes, k))
  {
    hide Pos, Plan.Head, Plan.Payload, Plan.Region, Plan.Offset;
    var end := Pos(p, sizes, k);
    var c :| 0 <= c < |chunks| && p.Full(chunks, c) && |chunks[c]| < p.Cap(c) && |Concat(chunks[..c + 1])| == end;
    GapIsHarmlessIffZero(p, chunks, c);
  }

  /** A stall in front of a byte that is not zero damages the image at that byte, even if the run fails later. */
  lemma StallDamages(p: Plan, sizes: nat -> nat, flash: nat, k: nat, chunks: seq<bytes>)
    requires p.Ok() && StallsAt(p, sizes, flash, k) && p.Fits(chunks) && FirstShort(p, chunks, Pos(p, sizes, k))
    ensures p.data[Pos(p, sizes, k)] != 0 ==>
              var at := |p.Head()| + Pos(p, sizes, k);
              at < |p.Image()| && at < |p.Region(chunks)| && p.Image()[at] != p.Region(chunks)[at]
  {
    hide Plan.Head, Plan.Offset, Plan.Region, Pos, Empties, ChunkAt, NoStall;
    var end := Pos(p, sizes, k);
    var c :| 0 <= c < |chunks| && p.Full(chunks, c) && |chunks[c]| < p.Cap(c) && |Concat(chunks[..c + 1])| == end;
    ShortChunkLeavesGap(p, chunks, c);
    assert p.Image()[|p.Head()| + end] == p.data[end];
  }

  const STALLING: Plan := Plan(0, [1, 2], 6, false, None)

  function OneThenNothing(n: nat): nat { if n == 0 then 1 else if n == 1 then 0 else 6 }

  /** Such a reader: one byte, then nothing, then the rest.  Its two chunks are the payload but not the image. */
  lemma StallingReader()
    ensures StallsAt(STALLING, OneThenNothing, 12, 1) && Pos(STALLING, OneThenNothing, 1) == 1
    ensures var chunks: seq<bytes> := [[1], [2]];
            && STALLING.Fits(chunks) && FirstShort(STALLING, chunks, 1) && Concat(chunks) == STALLING.Payload()
            && !(STALLING.Image() <= STALLING.Region(chunks))
  {
    var p := STALLING;
    assert p.Head() == [] && Pos(p, OneThenNothing, 0) == 0;
    assert Room(p, 0) == 6;
    assert Pos(p, OneThenNothing, 1) == 1;
    var chunks: seq<bytes> := [[1], [2]];
    assert chunks[..1] == [[1]] && chunks[..1][..0] == [];
    assert Concat([[1]]) == [1];
    assert Concat(chunks) == [1, 2];
    assert p.Payload() == [1, 2];
    assert p.Full(chunks, 0) && |chunks[0]| < p.Cap(0) && |Concat(chunks[..0 + 1])| == 1;
    ShortChunkLeavesGap(p, chunks, 0);
  }

  // What the chunks leave unused.
  function Shortage(p: Plan, chunks: seq<bytes>): nat
    requires p.Ok() && p.Fits(chunks)
  {
    if chunks == [] then 0
    else
      var n := |chunks| - 1;
      assert p.Fits(chunks[..n]);
      Shortage(p, chunks[..n]) + p.Cap(n) - |chunks[n]|
  }

  /** Conservation: the flash written is the image and what the chunks leave unused. */
  lemma {:induction false} RegionIsImageAndShortage(p: Plan, chunks: seq<bytes>)
    requires p.Ok() && p.Fits(chunks) && chunks != []
    ensures p.Offset(|chunks|) == |p.Head()| + |Concat(chunks)| + Shortage(p, chunks)
  {
    var n := |chunks| - 1;
    var init := chunks[..n];
    OffsetNext(p, n);
    if n > 0 {
      RegionIsImageAndShortage(p, init);
    } else {
      OffsetZero(p);
      assert Concat(init) == [];
    }
  }

  lemma {:induction false} ShortageAtLeast(p: Plan, chunks: seq<bytes>, c: nat)
    requires p.Ok() && p.Fits(chunks) && c < |chunks|
    ensures Shortage(p, chunks) >= p.Cap(c) - |chunks[c]|
  {
    var n := |chunks| - 1;
    assert p.Fits(chunks[..n]);
    if c < n {
      ShortageAtLeast(p, chunks[..n], c);
    }
  }

  /** A stalled run takes at least the room of the stalled chunk more than the image. */
  lemma StallTakesMore(p: Plan, sizes: nat -> nat, flash: nat, k: nat, chunks: seq<bytes>)
    requires p.Ok() && StallsAt(p, sizes, flash, k) && p.Fits(chunks) && FirstShort(p, chunks, Pos(p, sizes, k))
    requires Concat(chunks) == p.Payload()
    ensures p.Offset(|chunks|) >= |p.Image()| + Room(p, Pos(p, sizes, k))
  {
    hide Plan.Offset, Pos, Empties, ChunkAt, NoStall, Concat, Plan.Payload;
    var end := Pos(p, sizes, k);
    var c :| 0 <= c < |chunks| && p.Full(chunks, c) && |chunks[c]| < p.Cap(c) && |Concat(chunks[..c + 1])| == end;
    RegionIsImageAndShortage(p, chunks);
    ShortageAtLeast(p, chunks, c);
    RoomOfShort(p, chunks, c);
  }

  lemma RoomOfShort(p: Plan, chunks: seq<bytes>, c: nat)
    requires p.Ok() && c < |chunks| && p.Full(chunks, c) && |chunks[c]| < p.Cap(c)
    ensures Room(p, |Concat(chunks[..c + 1])|) == p.Cap(c) - |chunks[c]|
  {
    ChunkEnd(p, chunks, c);
    DivModUnique(c, p.chunkSize, |p.HeadOf(c)| + |chunks[c]|);
  }

  lemma {:induction false} RegionPrefix(p: Plan, chunks: seq<bytes>, n: nat)
    requires p.Ok() && p.Fits(chunks) && n <= |chunks|
    ensures p.Region(chunks[..n]) <= p.Region(chunks)
  {
    if n == |chunks| {
      assert chunks[..n] == chunks;
    } else {
      var init := chunks[..|chunks| - 1];
      assert init[..n] == chunks[..n];
      RegionPrefix(p, init, n);
    }
  }
}
