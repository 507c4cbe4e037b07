/**
 SLIP framing in the host flasher (package/ktool.py:439-473, 761-804; the "Protocol" section of
 RFC 1055): the writer's escaping by two replacements, the streaming reader, and the
 one-frame receiver.
 */
module Slip {
  import opened Bytes
  import opened Chunks

  const END: byte := 0xc0
  const ESC: byte := 0xdb
  const ESC_END: byte := 0xdc
  const ESC_ESC: byte := 0xdd

  datatype Error = InvalidHead | InvalidEscape | TimedOut

  // ---------------------------------------------------------------- writer

  // Python's s.replace(b, rep) for a single byte b.
  function Replace(s: bytes, b: byte, rep: bytes): bytes {
    if s == [] then [] else (if s[0] == b then rep else [s[0]]) + Replace(s[1..], b, rep)
  }

  function Escape(p: bytes): bytes {
    Replace(Replace(p, ESC, [ESC, ESC_ESC]), END, [ESC, ESC_END])
  }

  function Frame(p: bytes): bytes { [END] + Escape(p) + [END] }

  function Stream(packets: seq<bytes>): bytes {
    if packets == [] then [] else Frame(packets[0]) + Stream(packets[1..])
  }

  function EscapeByte(b: byte): bytes {
    if b == ESC then [ESC, ESC_ESC] else if b == END then [ESC, ESC_END] else [b]
  }

  lemma {:induction false} ReplaceConcat(s: bytes, t: bytes, b: byte, rep: bytes)
    ensures Replace(s + t, b, rep) == Replace(s, b, rep) + Replace(t, b, rep)
  {
    if s == [] {
      assert s + t == t;
    } else {
      assert (s + t)[1..] == s[1..] + t;
      ReplaceConcat(s[1..], t, b, rep);
    }
  }

  /** The two successive replacements escape each byte on its own, in one pass. */
  lemma EscapeIsOnePass(p: bytes)
    ensures p == [] ==> Escape(p) == []
    ensures p != [] ==> Escape(p) == EscapeByte(p[0]) + Escape(p[1..])
  {
    if p != [] {
      var first := if p[0] == ESC then [ESC, ESC_ESC] else [p[0]];
      var rest := Replace(p[1..], ESC, [ESC, ESC_ESC]);
      ReplaceConcat(first, rest, END, [ESC, ESC_END]);
      assert Replace(first, END, [ESC, ESC_END]) == EscapeByte(p[0]) by {
        assert first[1..] == if p[0] == ESC then [ESC_ESC] else [];
        assert Replace([ESC_ESC], END, [ESC, ESC_END]) == [ESC_ESC];
      }
    }
  }

  // ---------------------------------------------------------------- streaming reader

  // The generator's variables: partial_packet (None while waiting for a head) and in_escape.
  datatype State = State(partial: Option<bytes>, inEscape: bool)

  const IDLE := State(None, false)

  datatype Step = Next(state: State, yielded: seq<bytes>) | Fail(error: Error)

  function ReadByte(s: State, b: byte): Step {
    match s.partial
    case None => if b == END then Next(State(Some([]), s.inEscape), []) else Fail(InvalidHead)
    case Some(p) =>
      if s.inEscape then
        if b == ESC_END then Next(State(Some(p + [END]), false), [])
        else if b == ESC_ESC then Next(State(Some(p + [ESC]), false), [])
        else Fail(InvalidEscape)
      else if b == ESC then Next(State(Some(p), true), [])
      else if b == END then Next(State(None, false), [p])
      else Next(State(Some(p + [b]), false), [])
  }

  function Prepend(out: seq<bytes>, r: Step): Step {
    if r.Fail? then r else Next(r.state, out + r.yielded)
  }

  lemma PrependTwice(a: seq<bytes>, b: seq<bytes>, r: Step)
    ensures Prepend(a, Prepend(b, r)) == Prepend(a + b, r)
  {
    if r.Next? {
      assert a + (b + r.yielded) == a + b + r.yielded;
    }
  }

  // The reader over a whole byte string: its last state and everything it yielded.
  function Read(s: State, input: bytes): Step
    decreases |input|
  {
    if input == [] then Next(s, [])
    else
      match ReadByte(s, input[0])
      case Fail(e) => Fail(e)
      case Next(s', out) => Prepend(out, Read(s', input[1..]))
  }

  lemma {:induction false} ReadConcat(s: State, a: bytes, b: bytes)
    ensures Read(s, a + b) ==
            match Read(s, a)
            case Fail(e) => Fail(e)
            case Next(s', out) => Prepend(out, Read(s', b))
    decreases |a|
  {
    hide ReadByte;
    if a == [] {
      assert a + b == b;
      PrependTwice([], [], Read(s, b));
      assert Read(s, b).Next? ==> [] + Read(s, b).yielded == Read(s, b).yielded;
    } else {
      assert (a + b)[1..] == a[1..] + b;
      match ReadByte(s, a[0])
      case Fail(e) =>
      case Next(s', out) =>
        ReadConcat(s', a[1..], b);
        var r := Read(s', a[1..]);
        if r.Next? {
          PrependTwice(out, r.yielded, Read(r.state, b));
        }
    }
  }

  lemma ReadEscapedByte(b: byte, done: bytes)
    ensures Read(State(Some(done), false), EscapeByte(b)) == Next(State(Some(done + [b]), false), [])
  {
    var s := State(Some(done), false);
    if b == ESC || b == END {
      var second := if b == ESC then ESC_ESC else ESC_END;
      assert EscapeByte(b)[1..] == [second] && [second][1..] == [];
      assert Read(State(Some(done), true), [second]) == Next(State(Some(done + [b]), false), []);
    } else {
      assert EscapeByte(b)[1..] == [];
    }
  }

  lemma {:induction false} ReadEscaped(p: bytes, done: bytes)
    ensures Read(State(Some(done), false), Escape(p)) == Next(State(Some(done + p), false), [])
    decreases |p|
  {
    EscapeIsOnePass(p);
    if p == [] {
      assert done + p == done;
    } else {
      var s := State(Some(done), false);
      ReadConcat(s, EscapeByte(p[0]), Escape(p[1..]));
      ReadEscapedByte(p[0], done);
      ReadEscaped(p[1..], done + [p[0]]);
      assert done + [p[0]] + p[1..] == done + p;
    }
  }

  lemma ReadFrame(p: bytes)
    ensures Read(IDLE, Frame(p)) == Next(IDLE, [p])
  {
    var head := State(Some([]), false);
    ReadConcat(IDLE, [END] + Escape(p), [END]);
    ReadConcat(IDLE, [END], Escape(p));
    ReadEscaped(p, []);
    assert [END][1..] == [] && [] + p == p;
    assert Read(IDLE, [END]) == Next(head, []);
    assert Read(State(Some(p), false), [END]) == Next(IDLE, [p]);
  }

  /** On the frames of any list of packets, the reader yields exactly that list. */
  lemma {:induction false} ReadStream(packets: seq<bytes>)
    ensures Read(IDLE, Stream(packets)) == Next(IDLE, packets)
  {
    if packets != [] {
      ReadConcat(IDLE, Frame(packets[0]), Stream(packets[1..]));
      ReadFrame(packets[0]);
      ReadStream(packets[1..]);
      assert [packets[0]] + packets[1..] == packets;
    }
  }

  // The generator object, fed by the serial port.
  class SlipReader {
    var partialPacket: Option<bytes>
    var inEscape: bool

    function Current(): State
      reads this
    {
      State(partialPacket, inEscape)
    }

    constructor ()
      ensures Current() == IDLE
    {
      partialPacket, inEscape := None, false;
    }

    /** One port read: the bytes are consumed one by one; an empty read is a timeout. */
    method Feed(chunk: bytes) returns (r: Step)
      modifies this
      ensures chunk == [] ==> r == Fail(TimedOut) && Current() == old(Current())
      ensures chunk != [] ==> r == Read(old(Current()), chunk)
      ensures r.Next? ==> Current() == r.state
    {
      if chunk == [] {
        return Fail(TimedOut);
      }
      var out := [];
      assert chunk[0..] == chunk;
      for i := 0 to |chunk|
        invariant Read(old(Current()), chunk) == Prepend(out, Read(Current(), chunk[i..]))
      {
        var b := chunk[i];
        assert chunk[i..][0] == b && chunk[i..][1..] == chunk[i + 1..];
        ghost var step := ReadByte(Current(), b);
        if step.Next? {
          PrependTwice(out, step.yielded, Read(step.state, chunk[i + 1..]));
          assert step.yielded == [] ==> out + step.yielded == out;
        }
        if partialPacket == None {
          if b == END {
            partialPacket := Some([]);
          } else {
            return Fail(InvalidHead);
          }
        } else if inEscape {
          inEscape := false;
          if b == ESC_END {
            partialPacket := Some(partialPacket.value + [END]);
          } else if b == ESC_ESC {
            partialPacket := Some(partialPacket.value + [ESC]);
          } else {
            return Fail(InvalidEscape);
          }
        } else if b == ESC {
          inEscape := true;
        } else if b == END {
          out := out + [partialPacket.value];
          partialPacket := None;
        } else {
          partialPacket := Some(partialPacket.value + [b]);
        }
      }
      r := Next(Current(), out);
    }
  }

  /**
   However the port cuts the stream into reads, a fresh reader yields exactly the packets that
   were written, in order, and ends waiting for the next head.
   */
  method ReadPackets(chunks: seq<bytes>, ghost packets: seq<bytes>) returns (out: seq<bytes>, ok: bool)
    requires forall c | c in chunks :: c != []
    requires Concat(chunks) == Stream(packets)
    ensures ok && out == packets
  {
    ReadStream(packets);
    var reader := new SlipReader();
    out := [];
    for i := 0 to |chunks|
      invariant Read(IDLE, Concat(chunks[..i])) == Next(reader.Current(), out)
    {
      assert chunks[i] in chunks;
      assert chunks[..i + 1][..i] == chunks[..i];
      ReadConcat(IDLE, Concat(chunks[..i]), chunks[i]);
      ConcatPrefix(chunks, i + 1);
      ghost var seen := Concat(chunks[..i + 1]);
      assert seen + Concat(chunks)[|seen|..] == Concat(chunks);
      ReadConcat(IDLE, seen, Concat(chunks)[|seen|..]);
      var r := reader.Feed(chunks[i]);
      if r.Fail? {
        return [], false;
      }
      out := out + r.yielded;
    }
    assert chunks[..|chunks|] == chunks;
    ok := true;
  }

  // ---------------------------------------------------------------- one-frame receiver

  datatype Received = Frame1(data: bytes, consumed: nat) | Invalid | Waiting

  // The receiver after the start code: it looks for END before it looks at the escape.
  function Receive(s: bytes, i: nat, data: bytes, inEscape: bool): Received
    requires i <= |s|
    decreases |s| - i
  {
    if i == |s| then Waiting
    else if s[i] == END then Frame1(data, i + 1)
    else if inEscape then
      if s[i] == ESC_END then Receive(s, i + 1, data + [END], false)
      else if s[i] == ESC_ESC then Receive(s, i + 1, data + [ESC], false)
      else Invalid
    else if s[i] == ESC then Receive(s, i + 1, data, true)
    else Receive(s, i + 1, data + [s[i]], false)
  }

  function FirstEnd(s: bytes, i: nat): (n: nat)
    requires i <= |s|
    ensures i <= n <= |s| && (n < |s| ==> s[n] == END) && END !in s[i..n]
    decreases |s| - i
  {
    if i == |s| || s[i] == END then i else FirstEnd(s, i + 1)
  }

  // Skip to a start code, then one frame.
  function ReceiveOne(s: bytes): Received {
    var start := FirstEnd(s, 0);
    if start == |s| then Waiting else Receive(s, start + 1, [], false)
  }

  /** recv_one_return over the bytes still to come. */
  method RecvOneReturn(s: bytes) returns (r: Received)
    ensures r == ReceiveOne(s)
  {
    var i := 0;
    while i < |s| && s[i] != END
      invariant 0 <= i <= |s| && FirstEnd(s, 0) == FirstEnd(s, i)
    {
      i := i + 1;
    }
    if i == |s| {
      return Waiting;
    }
    i := i + 1;
    var data: bytes, inEscape := [], false;
    ghost var goal := Receive(s, i, [], false);
    while i < |s| && s[i] != END
      invariant 0 <= i <= |s| && goal == Receive(s, i, data, inEscape)
    {
      var c := s[i];
      if inEscape {
        inEscape := false;
        if c == ESC_END {
          data := data + [END];
        } else if c == ESC_ESC {
          data := data + [ESC];
        } else {
          return Invalid;
        }
      } else if c == ESC {
        inEscape := true;
      } else {
        data := data + [c];
      }
      i := i + 1;
    }
    return if i == |s| then Waiting else Frame1(data, i + 1);
  }

  // The first packet of the streaming reader, in the same terms.
  function FirstPacket(s: bytes, i: nat, state: State): Received
    requires i <= |s|
    decreases |s| - i
  {
    if i == |s| then Waiting
    else
      match ReadByte(state, s[i])
      case Fail(_) => Invalid
      case Next(next, out) =>
        if out != [] then Frame1(out[0], i + 1)
        else FirstPacket(s, i + 1, next)
  }

  predicate IsEscaped(b: byte) { b == ESC_END || b == ESC_ESC }

  // Every ESC before n - 1 starts an escape that is completed before n.
  ghost predicate WellEscaped(s: bytes, i: nat, n: nat, inEscape: bool)
    requires i <= n <= |s|
  {
    && (inEscape && i < n ==> IsEscaped(s[i]))
    && forall j | i <= j < n - 1 && s[j] == ESC :: IsEscaped(s[j + 1])
  }

  /** The frame is cut inside an escape: nothing is wrong before its END, but that directly follows an ESC. */
  ghost predicate CutEscape(s: bytes, i: nat, inEscape: bool)
    requires i <= |s|
  {
    var n := FirstEnd(s, i);
    n < |s| && WellEscaped(s, i, n, inEscape) && (if n == i then inEscape else s[n - 1] == ESC)
  }

  // An ESC before the END is followed by something else than the two escapes.
  ghost predicate BadEscape(s: bytes, i: nat, inEscape: bool)
    requires i <= |s|
  {
    !WellEscaped(s, i, FirstEnd(s, i), inEscape)
  }

  // One byte further on, outside and inside an escape.
  lemma EscapeStep(s: bytes, i: nat, inEscape: bool)
    requires i < |s| && s[i] != END && (inEscape ==> IsEscaped(s[i]))
    ensures FirstEnd(s, i) == FirstEnd(s, i + 1)
    ensures WellEscaped(s, i, FirstEnd(s, i), inEscape) <==>
            WellEscaped(s, i + 1, FirstEnd(s, i), !inEscape && s[i] == ESC)
    ensures CutEscape(s, i, inEscape) <==> CutEscape(s, i + 1, !inEscape && s[i] == ESC)
  {
  }

  /**
   After the start code, the two readers agree on every byte string but those cut inside an escape: there the
   receiver returns a frame and the streaming reader reports an invalid escape.
   */
  lemma {:induction false} ReadersAgree(s: bytes, i: nat, data: bytes, inEscape: bool)
    requires i <= |s|
    ensures var r := Receive(s, i, data, inEscape);
            var f := FirstPacket(s, i, State(Some(data), inEscape));
            && (f == r <==> !CutEscape(s, i, inEscape))
            && (CutEscape(s, i, inEscape) ==> r.Frame1? && f == Invalid)
            && (r == Invalid <==> BadEscape(s, i, inEscape))
    decreases |s| - i
  {
    if i < |s| && s[i] != END && (inEscape ==> IsEscaped(s[i])) {
      EscapeStep(s, i, inEscape);
      hide WellEscaped, CutEscape, FirstEnd;
      if inEscape {
        ReadersAgree(s, i + 1, data + [if s[i] == ESC_END then END else ESC], false);
      } else if s[i] == ESC {
        ReadersAgree(s, i + 1, data, true);
      } else {
        ReadersAgree(s, i + 1, data + [s[i]], false);
      }
    }
  }

  /**
   From the start, they agree exactly on nothing at all, on a start code and a frame not cut inside an escape, and
   on a wrong head before a frame with a bad escape, where both raise.
   */
  lemma ReadersAgreeFromStart(s: bytes)
    ensures FirstPacket(s, 0, IDLE) == ReceiveOne(s) <==>
            s == [] || (if s[0] == END then !CutEscape(s, 1, false)
                        else var start := FirstEnd(s, 0); start < |s| && BadEscape(s, start + 1, false))
  {
    var start := FirstEnd(s, 0);
    if start < |s| {
      ReadersAgree(s, start + 1, [], false);
    }
  }

  /** Two inputs on which they differ: a frame cut inside an escape, and a byte before the start code. */
  lemma ReadersDiffer()
    ensures var s: bytes := [END, ESC, END]; FirstPacket(s, 0, IDLE) == Invalid && ReceiveOne(s) == Frame1([], 3)
    ensures var s: bytes := [1, END, END]; FirstPacket(s, 0, IDLE) == Invalid && ReceiveOne(s) == Frame1([], 3)
  {
    var cut: bytes, late: bytes := [END, ESC, END], [1, END, END];
    assert Receive(cut, 2, [], true) == Frame1([], 3);
    assert FirstPacket(cut, 2, State(Some([]), true)) == Invalid;
    assert FirstPacket(cut, 1, State(Some([]), false)) == Invalid;
    assert FirstEnd(late, 1) == 1;
  }

  lemma {:induction false} ReceiveEscaped(pre: bytes, p: bytes, rest: bytes, done: bytes)
    ensures var s := pre + Escape(p) + [END] + rest;
            Receive(s, |pre|, done, false) == Frame1(done + p, |pre| + |Escape(p)| + 1)
    decreases |p|
  {
    EscapeIsOnePass(p);
    var s := pre + Escape(p) + [END] + rest;
    if p == [] {
      assert done + p == done;
    } else {
      var e := EscapeByte(p[0]);
      var pre' := pre + e;
      assert pre' + Escape(p[1..]) + [END] + rest == s;
      ReceiveEscaped(pre', p[1..], rest, done + [p[0]]);
      assert done + [p[0]] + p[1..] == done + p;
      assert s[|pre|] == e[0];
      if |e| == 2 {
        assert s[|pre| + 1] == e[1];
        assert Receive(s, |pre|, done, false) == Receive(s, |pre| + 1, done, true);
      }
    }
  }

  /** Frame by frame, the receiver returns the packet that was written and stops at the frame's end. */
  lemma ReceiveFrame(p: bytes, rest: bytes)
    ensures FirstEnd(Frame(p) + rest, 0) == 0
    ensures Receive(Frame(p) + rest, 1, [], false) == Frame1(p, |Frame(p)|)
  {
    ReceiveEscaped([END], p, rest, []);
    assert [END] + Escape(p) + [END] + rest == Frame(p) + rest;
    assert [] + p == p;
  }
}
