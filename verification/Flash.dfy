/**
 The serial flash under the firmware writer (the flash module used by src/krux/firmware.py), as an
 array of bytes with the two operations that change it.  Erasing sets bytes to 0xff; writing can
 only clear bits, so it stores the data only where the flash was erased before.
 */
module Flash {
  import opened Bytes

  datatype Op = Erase(addr: nat, len: nat) | Write(addr: nat, data: bytes) {
    function Length(): nat { if Erase? then len else |data| }
    predicate Touches(i: int) { addr <= i < addr + Length() }
    predicate Within(lo: int, hi: int) { lo <= addr && addr + Length() <= hi }
  }

  // Bitwise and of two numbers of the given number of bits.
  function And(a: nat, b: nat, bits: nat): (r: nat) {
    if bits == 0 then 0 else 2 * And(a / 2, b / 2, bits - 1) + (a % 2) * (b % 2)
  }

  predicate IsPow(bits: nat, pow: nat) {
    if bits == 0 then pow == 1 else pow % 2 == 0 && IsPow(bits - 1, pow / 2)
  }

  lemma {:induction false} AndBelow(a: nat, b: nat, bits: nat, pow: nat)
    requires IsPow(bits, pow)
    ensures And(a, b, bits) < pow
  {
    if bits > 0 {
      AndBelow(a / 2, b / 2, bits - 1, pow / 2);
    }
  }

  lemma {:induction false} AndOnes(b: nat, bits: nat, pow: nat)
    requires IsPow(bits, pow) && b < pow
    ensures And(pow - 1, b, bits) == b
  {
    if bits > 0 {
      AndOnes(b / 2, bits - 1, pow / 2);
    }
  }

  function Program(stored: byte, data: byte): byte {
    assert And(stored, data, 8) < 256 by { assert IsPow(8, 256); AndBelow(stored, data, 8, 256); }
    And(stored, data, 8)
  }

  // Writing on an erased byte stores it.
  lemma ProgramErased(b: byte)
    ensures Program(0xff, b) == b
  {
    assert IsPow(8, 256);
    AndOnes(b, 8, 256);
  }

  lemma {:induction false} AndBelowBoth(a: nat, b: nat, bits: nat)
    ensures And(a, b, bits) <= a
  {
    if bits > 0 {
      AndBelowBoth(a / 2, b / 2, bits - 1);
    }
  }

  /** A byte of flash takes any data exactly when it is erased. */
  lemma OnlyErasedTakesAll(stored: byte)
    ensures (forall b: byte :: Program(stored, b) == b) <==> stored == 0xff
  {
    forall b: byte
      ensures Program(0xff, b) == b
    {
      ProgramErased(b);
    }
    AndBelowBoth(stored, 0xff, 8);
    assert Program(stored, 0xff) <= stored;
  }

  function Apply(mem: bytes, op: Op): (r: bytes)
    requires op.Within(0, |mem|)
    ensures |r| == |mem|
    ensures forall i | 0 <= i < |mem| && !op.Touches(i) :: r[i] == mem[i]
  {
    seq(|mem|, i requires 0 <= i < |mem| =>
      if !op.Touches(i) then mem[i] else if op.Erase? then 0xff else Program(mem[i], op.data[i - op.addr]))
  }

  ghost predicate AllWithin(ops: seq<Op>, lo: int, hi: int) {
    forall op | op in ops :: op.Within(lo, hi)
  }

  function ApplyAll(mem: bytes, ops: seq<Op>): (r: bytes)
    requires AllWithin(ops, 0, |mem|)
    ensures |r| == |mem|
  {
    if ops == [] then mem else Apply(ApplyAll(mem, ops[..|ops| - 1]), ops[|ops| - 1])
  }

  /** Operations confined to a range leave every byte outside it alone. */
  lemma {:induction false} OutsideUnchanged(mem: bytes, ops: seq<Op>, lo: int, hi: int, i: int)
    requires AllWithin(ops, 0, |mem|) && AllWithin(ops, lo, hi)
    requires 0 <= i < |mem| && !(lo <= i < hi)
    ensures ApplyAll(mem, ops)[i] == mem[i]
  {
    if ops != [] {
      OutsideUnchanged(mem, ops[..|ops| - 1], lo, hi, i);
      assert ops[|ops| - 1].Within(lo, hi);
    }
  }

  lemma {:induction false} ApplyAllConcat(mem: bytes, a: seq<Op>, b: seq<Op>)
    requires AllWithin(a + b, 0, |mem|) && AllWithin(a, 0, |mem|) && AllWithin(b, 0, |mem|)
    ensures ApplyAll(mem, a + b) == ApplyAll(ApplyAll(mem, a), b)
  {
    if b == [] {
      assert a + b == a;
    } else {
      assert (a + b)[..|a + b| - 1] == a + b[..|b| - 1];
      ApplyAllConcat(mem, a, b[..|b| - 1]);
    }
  }

  class Chip {
    const mem: array<byte>
    ghost var log: seq<Op>     // every operation so far
    ghost const first: bytes   // the contents before the first of them

    ghost predicate Valid()
      reads this, mem
    {
      |first| == mem.Length && AllWithin(log, 0, |first|) && mem[..] == ApplyAll(first, log)
    }

    constructor (mem: array<byte>)
      ensures Valid() && this.mem == mem && log == [] && first == mem[..]
    {
      this.mem, log, first := mem, [], mem[..];
    }

    method EraseRange(addr: nat, len: nat)
      requires Valid() && addr + len <= mem.Length
      modifies this, mem
      ensures Valid() && log == old(log) + [Erase(addr, len)]
      ensures mem[..] == Apply(old(mem[..]), Erase(addr, len))
    {
      for i := 0 to len
        invariant log == old(log)
        invariant forall j | 0 <= j < mem.Length ::
            mem[j] == if addr <= j < addr + i then 0xff else old(mem[j])
      {
        mem[addr + i] := 0xff;
      }
      log := log + [Erase(addr, len)];
      assert log[..|log| - 1] == old(log);
      assert mem[..] == Apply(old(mem[..]), Erase(addr, len));
    }

    method WriteRange(addr: nat, data: bytes)
      requires Valid() && addr + |data| <= mem.Length
      modifies this, mem
      ensures Valid() && log == old(log) + [Write(addr, data)]
      ensures mem[..] == Apply(old(mem[..]), Write(addr, data))
    {
      for i := 0 to |data|
        invariant log == old(log)
        invariant forall j | 0 <= j < mem.Length ::
            mem[j] == if addr <= j < addr + i then Program(old(mem[j]), data[j - addr]) else old(mem[j])
      {
        mem[addr + i] := Program(mem[addr + i], data[i]);
      }
      log := log + [Write(addr, data)];
      assert log[..|log| - 1] == old(log);
      assert mem[..] == Apply(old(mem[..]), Write(addr, data));
    }
  }
}
