/**
 The A/B firmware upgrade (src/krux/firmware.py:42-89, 303-311, 392-431): the boot configuration
 sector, the order of the three flash writes, and what a power cut can leave behind.
 */
module Firmware {
  import opened Bytes
  import opened Chunks
  import opened Flash
  import opened FlashPlan
  import opened FirmwareWriter

  const FLASH_SIZE := 0x100_0000
  const MAX_FIRMWARE_SIZE := 0x30_0000
  const FIRMWARE_SLOT_1 := 0x8_0000
  const FIRMWARE_SLOT_2 := 0x39_0000
  const SLOT_SIZE := 0x31_0000      // from one slot to the next
  const WRITE_CHUNK_SIZE := 0x1_0000
  const MAIN_SECTOR := 0x4000
  const BACKUP_SECTOR := 0x5000
  const SECTOR_SIZE := 4096

  // ---------------------------------------------------------------- boot configuration

  datatype Active = Active(address: nat, size: nat, index: nat)

  function Field(sector: bytes, i: nat, offset: nat): nat { BigEndian(Slice(sector, 32 * i + offset, 32 * i + offset + 4)) }

  predicate IsActive(sector: bytes, i: nat) { Field(sector, i, 0) % 2 == 1 }

  function FindFrom(sector: bytes, i: nat): (r: Option<Active>)
    requires i <= 8
    ensures r.Some? ==>
              && i <= r.value.index < 8 && IsActive(sector, r.value.index)
              && (forall j | i <= j < r.value.index :: !IsActive(sector, j))
              && r.value.address == Field(sector, r.value.index, 4) && r.value.size == Field(sector, r.value.index, 8)
    ensures r.None? ==> forall j | i <= j < 8 :: !IsActive(sector, j)
    decreases 8 - i
  {
    if i == 8 then None
    else if IsActive(sector, i) then Some(Active(Field(sector, i, 4), Field(sector, i, 8), i))
    else FindFrom(sector, i + 1)
  }

  /** The first entry whose active bit is set; the magic number is not looked at. */
  function FindActive(sector: bytes): (r: Option<Active>)
    ensures r.Some? ==>
              && r.value.index < 8 && IsActive(sector, r.value.index)
              && (forall j | 0 <= j < r.value.index :: !IsActive(sector, j))
              && r.value.address == Field(sector, r.value.index, 4) && r.value.size == Field(sector, r.value.index, 8)
    ensures r.None? <==> forall j | 0 <= j < 8 :: !IsActive(sector, j)
  {
    FindFrom(sector, 0)
  }

  function Updated(sector: bytes, index: nat, address: nat, size: nat): (r: bytes)
    requires index < 8 && |sector| == SECTOR_SIZE
    ensures |r| == |sector|
  {
    Splice(sector, 32 * index, ToBig(0x5aa5_d0cd, 4) + ToBig(address, 4) + ToBig(size, 4))
  }

  /** The bytearray edit of one entry. */
  method UpdateBootConfigSector(sector: bytes, index: nat, address: nat, size: nat) returns (r: bytes)
    requires index < 8 && |sector| == SECTOR_SIZE
    ensures r == Updated(sector, index, address, size)
  {
    var updated := new byte[|sector|](i requires 0 <= i < |sector| => sector[i]);
    assert updated[..] == sector;
    Store(updated, 32 * index, ToBig(0x5aa5_d0cd, 4));
    Store(updated, 32 * index + 4, ToBig(address, 4));
    Store(updated, 32 * index + 8, ToBig(size, 4));
    r := updated[..];
    var a, b, c := ToBig(0x5aa5_d0cd, 4), ToBig(address, 4), ToBig(size, 4);
    SpliceNext(sector, 32 * index, a, b);
    SpliceNext(sector, 32 * index, a + b, c);
  }

  lemma FourBytes(n: nat)
    requires n < 0x1_0000_0000
    ensures BigEndian(ToBig(n, 4)) == n
  {
    assert Power256(4) == 0x1_0000_0000;
    BigEndianOfToBig(n, 4);
  }

  lemma SpliceInside(mem: bytes, at: nat, data: bytes, lo: nat, hi: nat)
    requires at + |data| <= |mem| && at <= lo <= hi <= at + |data|
    ensures Slice(Splice(mem, at, data), lo, hi) == data[lo - at..hi - at]
  {
  }

  lemma SpliceBefore(mem: bytes, at: nat, data: bytes, lo: nat, hi: nat)
    requires at + |data| <= |mem| && lo <= hi <= at
    ensures Slice(Splice(mem, at, data), lo, hi) == Slice(mem, lo, hi)
  {
  }

  lemma EntryFields(address: nat, size: nat)
    requires address < 0x1_0000_0000 && size < 0x1_0000_0000
    ensures var e := ToBig(0x5aa5_d0cd, 4) + ToBig(address, 4) + ToBig(size, 4);
            BigEndian(e[0..4]) == 0x5aa5_d0cd && BigEndian(e[4..8]) == address && BigEndian(e[8..12]) == size
  {
    hide ToBig, BigEndian;
    FourBytes(0x5aa5_d0cd);
    FourBytes(address);
    FourBytes(size);
    var e := ToBig(0x5aa5_d0cd, 4) + ToBig(address, 4) + ToBig(size, 4);
    assert e[0..4] == ToBig(0x5aa5_d0cd, 4) && e[4..8] == ToBig(address, 4) && e[8..12] == ToBig(size, 4);
  }

  /** After the update, lookup finds the new address and size at the same index. */
  lemma UpdateIsFound(sector: bytes, address: nat, size: nat)
    requires |sector| == SECTOR_SIZE && FindActive(sector).Some?
    requires address < 0x1_0000_0000 && size < 0x1_0000_0000
    ensures var i := FindActive(sector).value.index;
            FindActive(Updated(sector, i, address, size)) == Some(Active(address, size, i))
  {
    hide ToBig, BigEndian, Splice, Slice;
    var i := FindActive(sector).value.index;
    var at := 32 * i;
    var r := Updated(sector, i, address, size);
    var e := ToBig(0x5aa5_d0cd, 4) + ToBig(address, 4) + ToBig(size, 4);
    EntryFields(address, size);
    SpliceInside(sector, at, e, at, at + 4);
    SpliceInside(sector, at, e, at + 4, at + 8);
    SpliceInside(sector, at, e, at + 8, at + 12);
    assert IsActive(r, i);
    forall j | 0 <= j < i
      ensures !IsActive(r, j)
    {
      SpliceBefore(sector, at, e, 32 * j, 32 * j + 4);
      assert !IsActive(sector, j);
    }
  }

  lemma BigEndianOfFour(s: bytes)
    requires |s| == 4
    ensures BigEndian(s) == 16777216 * (s[0] as int) + 65536 * (s[1] as int) + 256 * (s[2] as int) + (s[3] as int)
  {
    assert s[..3][..2] == s[..2] && s[..2][..1] == s[..1] && s[..1][..0] == [];
    assert BigEndian(s[..1]) == s[0] && BigEndian(s[..2]) == 256 * BigEndian(s[..1]) + s[1];
    assert BigEndian(s[..3]) == 256 * BigEndian(s[..2]) + s[2];
  }

  /** The entry as the boot loader reads it: the magic word with its flags, address and size, all big-endian. */
  lemma EntryBytes(sector: bytes, index: nat, address: nat, size: nat)
    requires index < 8 && |sector| == SECTOR_SIZE && address < 0x1_0000_0000 && size < 0x1_0000_0000
    ensures var e := Updated(sector, index, address, size)[32 * index..32 * index + 12];
            && e[..4] == [0x5a, 0xa5, 0xd0, 0xcd]
            && BigEndian(e[4..8]) == address && BigEndian(e[8..12]) == size
    ensures var r := Updated(sector, index, address, size);
            forall i | 0 <= i < |sector| && !(32 * index <= i < 32 * index + 12) :: r[i] == sector[i]
  {
    EntryFields(address, size);
    MagicBytes();
    hide BigEndian, ToBig;
    var e := ToBig(0x5aa5_d0cd, 4) + ToBig(address, 4) + ToBig(size, 4);
    assert Updated(sector, index, address, size)[32 * index..32 * index + 12] == e;
    assert e[..4] == ToBig(0x5aa5_d0cd, 4);
  }

  lemma MagicBytes()
    ensures ToBig(0x5aa5_d0cd, 4) == [0x5a, 0xa5, 0xd0, 0xcd]
  {
    assert ToBig(0x5a, 1) == [0x5a] && ToBig(0x5aa5, 2) == [0x5a, 0xa5] && ToBig(0x5aa5_d0, 3) == [0x5a, 0xa5, 0xd0];
  }

  // ---------------------------------------------------------------- power cuts

  /** A content the flash can be left with: power lost during operation k, or after the last one. */
  ghost predicate CrashState(mem: bytes, ops: seq<Op>, k: nat, m: bytes)
    requires AllWithin(ops, 0, |mem|) && k <= |ops|
  {
    var before := ApplyAll(mem, ops[..k]);
    && |m| == |mem|
    && (if k == |ops| then m == before
        else forall i | 0 <= i < |m| && !ops[k].Touches(i) :: m[i] == before[i])
  }

  // Sectors and slots of a flash content.
  function Main(m: bytes): bytes
    requires |m| == FLASH_SIZE
  {
    m[MAIN_SECTOR..MAIN_SECTOR + SECTOR_SIZE]
  }

  function Backup(m: bytes): bytes
    requires |m| == FLASH_SIZE
  {
    m[BACKUP_SECTOR..BACKUP_SECTOR + SECTOR_SIZE]
  }

  function Slot(m: bytes, address: nat): bytes
    requires |m| == FLASH_SIZE && (address == FIRMWARE_SLOT_1 || address == FIRMWARE_SLOT_2)
  {
    m[address..address + SLOT_SIZE]
  }

  function Other(address: nat): nat { if address == FIRMWARE_SLOT_1 then FIRMWARE_SLOT_2 else FIRMWARE_SLOT_1 }

  /** The image goes to the second slot if the first is active, and to the first in every other case. */
  lemma OtherSlot(address: nat)
    ensures Other(address) == if address == 0x0008_0000 then 0x0039_0000 else 0x0008_0000
  {
  }

  // How far writing into the other slot may go without reaching the active one.
  function ImageEnd(address: nat): nat { if Other(address) == FIRMWARE_SLOT_1 then FIRMWARE_SLOT_2 else FLASH_SIZE }

  // The image plan of the upgrade and the first bytes of the slot it must produce.
  function ImagePlan(address: nat, firmware: bytes, hash: bytes): Plan {
    Plan(Other(address), firmware, WRITE_CHUNK_SIZE, true, Some(hash))
  }

  function SectorPlan(address: nat, sector: bytes): Plan {
    Plan(address, sector, SECTOR_SIZE, false, None)
  }

  /**
   Always recoverable: the old slot is untouched, and either the main sector is still the
   original configuration, or the backup sector holds it and the new slot holds the complete image.
   */
  ghost predicate Recoverable(mem: bytes, m: bytes, config: bytes, address: nat, image: bytes)
    requires |mem| == |m| == FLASH_SIZE && (address == FIRMWARE_SLOT_1 || address == FIRMWARE_SLOT_2)
  {
    && Slot(m, address) == Slot(mem, address)
    && (Main(m) == config || (Backup(m) == config && image <= Slot(m, Other(address))))
  }

  // Operations that stay in a range, cut anywhere, leave every byte outside the range alone.
  lemma CrashOutside(mem: bytes, ops: seq<Op>, k: nat, m: bytes, lo: nat, hi: nat, from: nat, to: nat)
    requires AllWithin(ops, 0, |mem|) && k <= |ops| && CrashState(mem, ops, k, m)
    requires AllWithin(ops, lo, hi) && from <= to <= |mem| && (to <= lo || hi <= from)
    ensures m[from..to] == mem[from..to]
  {
    forall i | from <= i < to
      ensures m[i] == mem[i]
    {
      assert AllWithin(ops[..k], 0, |mem|) && AllWithin(ops[..k], lo, hi);
      OutsideUnchanged(mem, ops[..k], lo, hi, i);
      if k < |ops| {
        assert ops[k] in ops;
      }
    }
  }

  // A cut in a sequence of two phases is a cut in one of them.
  lemma CrashSplits(mem: bytes, a: seq<Op>, b: seq<Op>, k: nat, m: bytes)
    requires AllWithin(a, 0, |mem|) && AllWithin(b, 0, |mem|) && k <= |a + b|
    requires AllWithin(a + b, 0, |mem|) && CrashState(mem, a + b, k, m)
    ensures k < |a| ==> CrashState(mem, a, k, m)
    ensures k >= |a| ==> CrashState(ApplyAll(mem, a), b, k - |a|, m)
  {
    if k < |a| {
      assert (a + b)[..k] == a[..k];
    } else {
      var j := k - |a|;
      assert (a + b)[..k] == a + b[..j];
      assert AllWithin(b[..j], 0, |mem|) && AllWithin(a + b[..j], 0, |mem|);
      ApplyAllConcat(mem, a, b[..j]);
    }
  }

  lemma Untouched(mem: bytes, ops: seq<Op>, lo: nat, hi: nat, from: nat, to: nat)
    requires AllWithin(ops, 0, |mem|) && AllWithin(ops, lo, hi) && from <= to <= |mem| && (to <= lo || hi <= from)
    ensures ApplyAll(mem, ops)[from..to] == mem[from..to]
  {
    assert ops[..|ops|] == ops;
    CrashOutside(mem, ops, |ops|, ApplyAll(mem, ops), lo, hi, from, to);
  }

  /** Three phases, each confined to its own region and complete before the next one starts, are crash safe. */
  lemma PhasesAreRecoverable(mem: bytes, a: seq<Op>, b: seq<Op>, c: seq<Op>, config: bytes, address: nat, image: bytes,
                             k: nat, m: bytes)
    requires |mem| == FLASH_SIZE && (address == FIRMWARE_SLOT_1 || address == FIRMWARE_SLOT_2) && Main(mem) == config
    requires AllWithin(a, Other(address), ImageEnd(address))
    requires AllWithin(b, BACKUP_SECTOR, BACKUP_SECTOR + SECTOR_SIZE)
    requires AllWithin(c, MAIN_SECTOR, MAIN_SECTOR + SECTOR_SIZE)
    requires b + c != [] ==> image <= Slot(ApplyAll(mem, a), Other(address))
    requires c != [] ==> Backup(ApplyAll(ApplyAll(mem, a), b)) == config
    requires k <= |a + b + c| && CrashState(mem, a + b + c, k, m)
    ensures Recoverable(mem, m, config, address, image)
  {
    hide ApplyAll, Apply, CrashState, Recoverable;
    var mem1 := ApplyAll(mem, a);
    assert a + b + c == a + (b + c);
    CrashSplits(mem, a, b + c, k, m);
    if k < |a| {
      CrashInImage(mem, a, config, address, image, k, m);
    } else {
      AfterImage(mem, a, address);
      CrashSplits(mem1, b, c, k - |a|, m);
      if k < |a| + |b| {
        CrashInBackup(mem, mem1, b, config, address, image, k - |a|, m);
      } else {
        CrashInMain(mem, mem1, b, c, config, address, image, k - |a| - |b|, m);
      }
    }
  }

  lemma CrashInImage(mem: bytes, a: seq<Op>, config: bytes, address: nat, image: bytes, k: nat, m: bytes)
    requires |mem| == FLASH_SIZE && (address == FIRMWARE_SLOT_1 || address == FIRMWARE_SLOT_2) && Main(mem) == config
    requires AllWithin(a, Other(address), ImageEnd(address)) && AllWithin(a, 0, |mem|)
    requires k <= |a| && CrashState(mem, a, k, m)
    ensures |m| == FLASH_SIZE && Recoverable(mem, m, config, address, image)
  {
    hide ApplyAll, AllWithin;
    var other := Other(address);
    CrashOutside(mem, a, k, m, other, ImageEnd(address), MAIN_SECTOR, MAIN_SECTOR + SECTOR_SIZE);
    CrashOutside(mem, a, k, m, other, ImageEnd(address), address, address + SLOT_SIZE);
  }

  lemma AfterImage(mem: bytes, a: seq<Op>, address: nat)
    requires |mem| == FLASH_SIZE && (address == FIRMWARE_SLOT_1 || address == FIRMWARE_SLOT_2)
    requires AllWithin(a, Other(address), ImageEnd(address)) && AllWithin(a, 0, |mem|)
    ensures Main(ApplyAll(mem, a)) == Main(mem) && Slot(ApplyAll(mem, a), address) == Slot(mem, address)
  {
    hide ApplyAll, AllWithin;
    var other := Other(address);
    Untouched(mem, a, other, ImageEnd(address), MAIN_SECTOR, MAIN_SECTOR + SECTOR_SIZE);
    Untouched(mem, a, other, ImageEnd(address), address, address + SLOT_SIZE);
  }

  lemma CrashInBackup(mem: bytes, mem1: bytes, b: seq<Op>, config: bytes, address: nat, image: bytes, k: nat, m: bytes)
    requires |mem| == |mem1| == FLASH_SIZE && (address == FIRMWARE_SLOT_1 || address == FIRMWARE_SLOT_2)
    requires Main(mem1) == config && Slot(mem1, address) == Slot(mem, address)
    requires AllWithin(b, BACKUP_SECTOR, BACKUP_SECTOR + SECTOR_SIZE) && AllWithin(b, 0, |mem|)
    requires k <= |b| && CrashState(mem1, b, k, m)
    ensures |m| == FLASH_SIZE && Recoverable(mem, m, config, address, image)
  {
    hide ApplyAll, AllWithin;
    CrashOutside(mem1, b, k, m, BACKUP_SECTOR, BACKUP_SECTOR + SECTOR_SIZE, MAIN_SECTOR, MAIN_SECTOR + SECTOR_SIZE);
    CrashOutside(mem1, b, k, m, BACKUP_SECTOR, BACKUP_SECTOR + SECTOR_SIZE, address, address + SLOT_SIZE);
  }

  lemma CrashInMain(mem: bytes, mem1: bytes, b: seq<Op>, c: seq<Op>, config: bytes, address: nat, image: bytes, k: nat, m: bytes)
    requires |mem| == |mem1| == FLASH_SIZE && (address == FIRMWARE_SLOT_1 || address == FIRMWARE_SLOT_2)
    requires Main(mem1) == config && Slot(mem1, address) == Slot(mem, address)
    requires AllWithin(b, BACKUP_SECTOR, BACKUP_SECTOR + SECTOR_SIZE) && AllWithin(b, 0, |mem|)
    requires AllWithin(c, MAIN_SECTOR, MAIN_SECTOR + SECTOR_SIZE) && AllWithin(c, 0, |mem|)
    requires c != [] ==> image <= Slot(mem1, Other(address)) && Backup(ApplyAll(mem1, b)) == config
    requires k <= |c| && CrashState(ApplyAll(mem1, b), c, k, m)
    ensures |m| == FLASH_SIZE && Recoverable(mem, m, config, address, image)
  {
    hide ApplyAll, Apply, AllWithin;
    var mem2 := ApplyAll(mem1, b);
    var other := Other(address);
    Untouched(mem1, b, BACKUP_SECTOR, BACKUP_SECTOR + SECTOR_SIZE, MAIN_SECTOR, MAIN_SECTOR + SECTOR_SIZE);
    Untouched(mem1, b, BACKUP_SECTOR, BACKUP_SECTOR + SECTOR_SIZE, address, address + SLOT_SIZE);
    Untouched(mem1, b, BACKUP_SECTOR, BACKUP_SECTOR + SECTOR_SIZE, other, other + SLOT_SIZE);
    CrashOutside(mem2, c, k, m, MAIN_SECTOR, MAIN_SECTOR + SECTOR_SIZE, BACKUP_SECTOR, BACKUP_SECTOR + SECTOR_SIZE);
    CrashOutside(mem2, c, k, m, MAIN_SECTOR, MAIN_SECTOR + SECTOR_SIZE, address, address + SLOT_SIZE);
    CrashOutside(mem2, c, k, m, MAIN_SECTOR, MAIN_SECTOR + SECTOR_SIZE, other, other + SLOT_SIZE);
    if c == [] {
      NoOps(mem2, c, m);
    }
  }

  lemma NoOps(mem: bytes, ops: seq<Op>, m: bytes)
    requires ops == [] && AllWithin(ops, 0, |mem|) && CrashState(mem, ops, 0, m)
    ensures m == mem
  {
  }

  // ---------------------------------------------------------------- the upgrade

  predicate IsSlot(address: nat) { address == FIRMWARE_SLOT_1 || address == FIRMWARE_SLOT_2 }

  // The operations between two points of the log take the flash from one content to the other.
  lemma SinceThen(first: bytes, before: seq<Op>, after: seq<Op>)
    requires before <= after && AllWithin(after, 0, |first|) && AllWithin(before, 0, |first|)
    ensures AllWithin(after[|before|..], 0, |first|)
    ensures ApplyAll(first, after) == ApplyAll(ApplyAll(first, before), after[|before|..])
  {
    assert after == before + after[|before|..];
    ApplyAllConcat(first, before, after[|before|..]);
  }

  // The largest image still ends where the next slot begins.
  lemma ImageFits(p: Plan)
    requires p.Ok() && p.chunkSize == WRITE_CHUNK_SIZE && p.header && |p.Tail()| == 32 && |p.data| <= MAX_FIRMWARE_SIZE
    ensures p.Offset(ChunkCount(p)) <= SLOT_SIZE
  {
  }

  /** Writes one sector: the flash changes to exactly that sector there. */
  method WriteSector(chip: Chip, address: nat, sector: bytes)
    requires chip.Valid() && |sector| == SECTOR_SIZE && address + SECTOR_SIZE <= chip.mem.Length
    modifies chip, chip.mem
    ensures chip.Valid() && chip.mem[..] == Splice(old(chip.mem[..]), address, sector)
    ensures old(chip.log) <= chip.log
    ensures AllWithin(chip.log[|old(chip.log)|..], address, address + SECTOR_SIZE)
    ensures Erase(address, SECTOR_SIZE) in chip.log[|old(chip.log)|..]
  {
    hide Splice;
    var p := SectorPlan(address, sector);
    var file := new Reader(sector, _ => SECTOR_SIZE);
    SectorPlanShape(address, sector);
    NeverEmpty(p, file.sizes);
    ghost var chunks, stalled;
    var ok;
    ok, chunks, stalled := WriteData(chip, file, p);
    hide Stalls, StallsAt, FirstShort, ReadsThrough;
    FullChunksHoldImage(p, chunks);
    assert p.Offset(0) == 0;
    assert sector + Nul(0) == sector;
  }

  lemma SectorPlanShape(address: nat, sector: bytes)
    requires |sector| == SECTOR_SIZE
    ensures var p := SectorPlan(address, sector);
            p.Ok() && p.Payload() == sector && p.Image() == sector && ChunkCount(p) == 1 && p.Offset(1) == SECTOR_SIZE
  {
    var p := SectorPlan(address, sector);
    assert p.Payload() == sector + [] == sector;
    assert p.Image() == [] + sector == sector;
  }

  // A plan for an image of the upgrade.
  predicate IsImagePlan(p: Plan) {
    && p.Ok() && p.chunkSize == WRITE_CHUNK_SIZE && p.header && |p.Tail()| == 32 && |p.data| <= MAX_FIRMWARE_SIZE
    && IsSlot(p.address)
  }

  /** Either no read stalls, or everything from the stall on is zero. */
  ghost predicate Harmless(p: Plan, sizes: nat -> nat)
    requires p.Ok()
  {
    forall k: nat | StallsAt(p, sizes, FLASH_SIZE, k) :: ZeroFrom(p.Payload(), Pos(p, sizes, k))
  }

  /** With a hash that is not all zero, only the absence of a stall is harmless. */
  lemma HarmlessIsNoStall(p: Plan, sizes: nat -> nat)
    requires IsImagePlan(p) && p.Tail() != Nul(32)
    ensures Harmless(p, sizes) <==> !Stalls(p, sizes, FLASH_SIZE)
  {
    hide Pos, NoStall, Empties, ChunkAt, Plan.Offset;
    var i :| 0 <= i < 32 && p.Tail()[i] != 0;
    var at := |p.data| + i;
    assert p.Payload()[at] != 0;
    forall k: nat | StallsAt(p, sizes, FLASH_SIZE, k)
      ensures !ZeroFrom(p.Payload(), Pos(p, sizes, k))
    {
      assert Pos(p, sizes, k) <= at < |p.Payload()|;
    }
  }

  /** What the pattern of reads says of the first phase and of the flash it leaves. */
  ghost predicate ImageOutcome(p: Plan, sizes: nat -> nat, m: bytes, ok: bool, stalled: bool)
    requires IsImagePlan(p) && |m| == FLASH_SIZE
  {
    var run := Runs(p, sizes, FLASH_SIZE);
    && ok == run.ok && (stalled <==> Stalls(p, sizes, FLASH_SIZE))
    && (ok && !stalled <==> ReadsThrough(p, sizes))
    && (!stalled ==> run.chunks * WRITE_CHUNK_SIZE <= SLOT_SIZE)
    && (ok ==> (p.Image() <= Slot(m, p.address) <==> Harmless(p, sizes)))
    && (forall k: nat | StallsAt(p, sizes, FLASH_SIZE, k) && p.data[Pos(p, sizes, k)] != 0 ::
          !(p.Image() <= Slot(m, p.address)))
    && (ok ==> forall k: nat | StallsAt(p, sizes, FLASH_SIZE, k) ::
            run.chunks * WRITE_CHUNK_SIZE >= |p.Image()| + Room(p, Pos(p, sizes, k)))
  }

  /**
   Phase one: the image into the other slot.  It is complete without a stall exactly when the file can be read with
   at most five empty reads, none of them in mid-chunk.  A complete run leaves the image exactly when it did not
   stall or everything from the stall on is zero.
   */
  method WriteImage(chip: Chip, p: Plan, sizes: nat -> nat)
    returns (ok: bool, ghost chunks: seq<bytes>, ghost stalled: bool)
    requires chip.Valid() && chip.mem.Length == FLASH_SIZE && IsImagePlan(p)
    modifies chip, chip.mem
    ensures chip.Valid() && old(chip.log) <= chip.log
    ensures Written(chip, p, old(chip.mem[..]), old(chip.log), chunks)
    ensures |chunks| == Runs(p, sizes, FLASH_SIZE).chunks
    ensures ImageOutcome(p, sizes, chip.mem[..], ok, stalled)
  {
    hide Plan.Image, Plan.Offset, Plan.Region, Plan.Head, ChunkCount, FirstShort, ReadsThrough, Pos, Room, Splice, Runs;
    hide ZeroFrom;
    ImageFits(p);
    var file := new Reader(p.data, sizes);
    ok, chunks, stalled := WriteData(chip, file, p);
    assert p.Offset(|chunks|) == |chunks| * WRITE_CHUNK_SIZE by { OffsetIs(p, |chunks|); }
    ghost var mem := old(chip.mem[..]);
    if ok && !stalled {
      assert p.Payload() != [];
      FullChunksHoldImage(p, chunks);
      SlotOfSplice(mem, p.address, p.Region(chunks));
    }
    forall k: nat | StallsAt(p, sizes, FLASH_SIZE, k)
      ensures p.data[Pos(p, sizes, k)] != 0 ==> !(p.Image() <= Slot(chip.mem[..], p.address))
      ensures ok ==> p.Offset(|chunks|) >= |p.Image()| + Room(p, Pos(p, sizes, k))
      ensures ok ==> (p.Image() <= Slot(chip.mem[..], p.address) <==> ZeroFrom(p.Payload(), Pos(p, sizes, k)))
    {
      StalledSlot(p, sizes, k, mem, chunks);
      if ok {
        StallTakesMore(p, sizes, FLASH_SIZE, k, chunks);
        StallIsHarmlessIffZero(p, sizes, k, chunks);
        ImageInSlot(p, mem, p.Region(chunks));
      }
    }
  }

  // The image is in the slot exactly when it is at the start of what was written there.
  lemma ImageInSlot(p: Plan, mem: bytes, region: bytes)
    requires IsImagePlan(p) && |mem| == FLASH_SIZE && p.address + |region| <= FLASH_SIZE && |p.Image()| <= |region|
    ensures p.Image() <= Slot(Splice(mem, p.address, region), p.address) <==> p.Image() <= region
  {
    hide Plan.Head;
    var slot := Slot(Splice(mem, p.address, region), p.address);
    var n := |p.Image()|;
    assert n <= SLOT_SIZE;
    assert slot[..n] == region[..n];
  }

  lemma OffsetIs(p: Plan, n: nat)
    ensures p.Offset(n) == n * p.chunkSize
  {
  }

  lemma StalledSlot(p: Plan, sizes: nat -> nat, k: nat, mem: bytes, chunks: seq<bytes>)
    requires IsImagePlan(p) && |mem| == FLASH_SIZE && StallsAt(p, sizes, FLASH_SIZE, k) && p.Fits(chunks)
    requires FirstShort(p, chunks, Pos(p, sizes, k)) && p.address + p.Offset(|chunks|) <= FLASH_SIZE
    ensures Pos(p, sizes, k) < |p.data|
    ensures p.data[Pos(p, sizes, k)] != 0 ==> !(p.Image() <= Slot(Splice(mem, p.address, p.Region(chunks)), p.address))
  {
    hide Plan.Region, Plan.Offset, Pos, FirstShort, NoStall, Empties, ChunkAt;
    StallDamages(p, sizes, FLASH_SIZE, k, chunks);
    if p.data[Pos(p, sizes, k)] != 0 {
      var at := |p.Head()| + Pos(p, sizes, k);
      assert Slot(Splice(mem, p.address, p.Region(chunks)), p.address)[at] == p.Region(chunks)[at];
    }
  }

  lemma SlotOfSplice(mem: bytes, address: nat, region: bytes)
    requires |mem| == FLASH_SIZE && IsSlot(address) && |region| <= SLOT_SIZE
    ensures region <= Slot(Splice(mem, address, region), address)
  {
  }

  // Every content a power cut during these operations can leave is recoverable.
  ghost predicate CrashSafe(mem: bytes, ops: seq<Op>, config: bytes, address: nat, image: bytes)
    requires |mem| == FLASH_SIZE && IsSlot(address) && AllWithin(ops, 0, |mem|)
  {
    forall k, m | 0 <= k <= |ops| && CrashState(mem, ops, k, m) :: Recoverable(mem, m, config, address, image)
  }

  lemma UpgradeIsCrashSafe(mem: bytes, a: seq<Op>, b: seq<Op>, c: seq<Op>, address: nat, image: bytes)
    requires |mem| == FLASH_SIZE && IsSlot(address)
    requires AllWithin(a, Other(address), ImageEnd(address))
    requires AllWithin(b, BACKUP_SECTOR, BACKUP_SECTOR + SECTOR_SIZE)
    requires AllWithin(c, MAIN_SECTOR, MAIN_SECTOR + SECTOR_SIZE)
    requires b + c != [] ==> image <= Slot(ApplyAll(mem, a), Other(address))
    requires c != [] ==> Backup(ApplyAll(ApplyAll(mem, a), b)) == Main(mem)
    ensures CrashSafe(mem, a + b + c, Main(mem), address, image)
  {
    hide Recoverable, ApplyAll, Main, Backup, Slot;
    var ops := a + b + c;
    forall k, m | 0 <= k <= |ops| && CrashState(mem, ops, k, m)
      ensures Recoverable(mem, m, Main(mem), address, image)
    {
      PhasesAreRecoverable(mem, a, b, c, Main(mem), address, image, k, m);
    }
  }

  // The configuration the upgrade starts from, and its active entry.
  function BootConfig(m: bytes): bytes
    requires |m| == FLASH_SIZE
  {
    if FindActive(Main(m)).Some? then Main(m) else Backup(m)
  }

  /** The backup sector is used exactly when the main one has no active entry. */
  lemma BootConfigIs(m: bytes)
    requires |m| == FLASH_SIZE
    ensures FindActive(m[0x4000..0x5000]).Some? ==> BootConfig(m) == m[0x4000..0x5000]
    ensures FindActive(m[0x4000..0x5000]).None? ==> BootConfig(m) == m[0x5000..0x6000]
    ensures FindActive(BootConfig(m)).Some? <==> FindActive(m[0x4000..0x5000]).Some? || FindActive(m[0x5000..0x6000]).Some?
  {
    hide FindActive;
  }

  /** A zero, the size, the firmware and its hash, one after the other. */
  ghost predicate HoldsFirmware(m: bytes, at: nat, firmware: bytes, hash: bytes)
    requires |m| == FLASH_SIZE && IsSlot(at) && |firmware| <= MAX_FIRMWARE_SIZE
  {
    var n := |firmware|;
    && m[at] == 0 && SizeAt(m, at + 1) == n
    && m[at + 5..at + 5 + n] == firmware && m[at + 5 + n..at + 5 + n + 32] == hash
  }

  // The flash after a complete upgrade.
  ghost predicate Upgraded(mem: bytes, m: bytes, firmware: bytes, hash: bytes)
    requires |mem| == |m| == FLASH_SIZE && FindActive(BootConfig(mem)).Some?
    requires |firmware| <= MAX_FIRMWARE_SIZE
  {
    var config := BootConfig(mem);
    var active := FindActive(config).value;
    var other := Other(active.address);
    && Main(m) == Updated(config, active.index, other, |firmware|)
    && FindActive(Main(m)) == Some(Active(other, |firmware|, active.index))
    && Backup(m) == config
    && ImagePlan(active.address, firmware, hash).Image() <= Slot(m, other)
    && HoldsFirmware(m, other, firmware, hash)
    && (forall i | 0 <= i < |m| && !(other <= i < other + SLOT_SIZE) &&
                   !(MAIN_SECTOR <= i < BACKUP_SECTOR + SECTOR_SIZE) :: m[i] == mem[i])
  }

  /** The condition for crash safety of a complete upgrade, on what is known before it starts. */
  ghost predicate SafeToComplete(mem: bytes, firmware: bytes, sizes: nat -> nat, hash: bytes)
    requires |mem| == FLASH_SIZE && FindActive(BootConfig(mem)).Some?
    requires |firmware| <= MAX_FIRMWARE_SIZE && |hash| == 32
  {
    var address := FindActive(BootConfig(mem)).value.address;
    var p := ImagePlan(address, firmware, hash);
    && FindActive(Main(mem)).Some? && Harmless(p, sizes)
    && Spares(address, Runs(p, sizes, FLASH_SIZE).chunks)
  }

  /**
   The flash side of upgrade().  Without a configuration, or with an oversized firmware, nothing is written.  The
   run is complete without a stall exactly when the file can be read with at most five empty reads, none of them
   in mid-chunk; it then leaves the new image in the other slot, the old configuration in the backup sector and the
   updated one in the main sector, and nothing else changed.  With a hash that is not all zero, a complete run is
   crash safe exactly when the main sector was valid and no read stalls; with any hash, exactly when SafeToComplete
   says so.  A run that fails is crash safe exactly when the chunks it writes spare the active slot, as they do
   without a stall.
   */
  method Upgrade(chip: Chip, firmware: bytes, sizes: nat -> nat, hash: bytes)
    returns (ok: bool, ghost ops: seq<Op>, ghost stalled: bool)
    requires chip.Valid() && chip.mem.Length == FLASH_SIZE && |hash| == 32
    modifies chip, chip.mem
    ensures chip.Valid() && chip.log == old(chip.log) + ops && AllWithin(ops, 0, FLASH_SIZE)
    ensures var active := FindActive(BootConfig(old(chip.mem[..])));
            if active.None? || |firmware| > MAX_FIRMWARE_SIZE then !ok && !stalled && ops == []
            else IsImagePlan(ImagePlan(active.value.address, firmware, hash)) &&
                 ImageOutcome(ImagePlan(active.value.address, firmware, hash), sizes, chip.mem[..], ok, stalled)
    ensures ok ==> FindActive(BootConfig(old(chip.mem[..]))).Some? && |firmware| <= MAX_FIRMWARE_SIZE
    ensures ok && !stalled ==> Upgraded(old(chip.mem[..]), chip.mem[..], firmware, hash)
    ensures var active := FindActive(BootConfig(old(chip.mem[..])));
            ok && IsSlot(active.value.address) ==>
              (CrashSafe(old(chip.mem[..]), ops, BootConfig(old(chip.mem[..])), active.value.address,
                         ImagePlan(active.value.address, firmware, hash).Image()) <==>
               SafeToComplete(old(chip.mem[..]), firmware, sizes, hash))
    ensures var active := FindActive(BootConfig(old(chip.mem[..])));
            ok && IsSlot(active.value.address) && hash != Nul(32) ==>
              (CrashSafe(old(chip.mem[..]), ops, BootConfig(old(chip.mem[..])), active.value.address,
                         ImagePlan(active.value.address, firmware, hash).Image()) <==>
               && FindActive(Main(old(chip.mem[..]))).Some?
               && !Stalls(ImagePlan(active.value.address, firmware, hash), sizes, FLASH_SIZE))
    ensures var active := FindActive(Main(old(chip.mem[..])));
            !ok && active.Some? && IsSlot(active.value.address) ==>
              (CrashSafe(old(chip.mem[..]), ops, Main(old(chip.mem[..])), active.value.address,
                         ImagePlan(active.value.address, firmware, hash).Image()) <==>
               |firmware| > MAX_FIRMWARE_SIZE ||
               Spares(active.value.address, Runs(ImagePlan(active.value.address, firmware, hash), sizes, FLASH_SIZE).chunks))
    ensures var active := FindActive(Main(old(chip.mem[..])));
            !ok && !stalled && active.Some? && IsSlot(active.value.address) ==>
              CrashSafe(old(chip.mem[..]), ops, Main(old(chip.mem[..])), active.value.address,
                        ImagePlan(active.value.address, firmware, hash).Image())
  {
    hide CrashSafe, Upgraded, ApplyAll, Splice, Plan.Image, Updated, FindActive, ImageOutcome, IsImagePhase, Written;
    hide Runs, Stalls, Harmless;
    ok, ops, stalled := false, [], false;
    ghost var mem, log := chip.mem[..], chip.log;
    assert log + [] == log;
    var config := chip.mem[MAIN_SECTOR..MAIN_SECTOR + SECTOR_SIZE];
    var found := FindActive(config);
    if found.None? {
      config := chip.mem[BACKUP_SECTOR..BACKUP_SECTOR + SECTOR_SIZE];
      found := FindActive(config);
    }
    assert config == BootConfig(mem);
    if found.None? {
      return;
    }
    var active := found.value;
    ghost var p := ImagePlan(active.address, firmware, hash);
    ghost var other := p.address;
    if |firmware| > MAX_FIRMWARE_SIZE {
      NothingToRecover(mem, active.address, p.Image());
      return;
    }
    ghost var chunks;
    ok, chunks, stalled := WriteImage(chip, ImagePlan(active.address, firmware, hash), sizes);
    ghost var n := |chunks|;
    OutcomeFacts(p, sizes, chip.mem[..], ok, stalled);
    ghost var mem1, log1 := chip.mem[..], chip.log;
    ghost var a := log1[|log|..];
    SinceThen(chip.first, log, log1);
    PhaseOfWritten(chip, active.address, firmware, hash, mem, log, chunks);
    if !ok {
      ops := a;
      if IsSlot(active.address) {
        ImagePhaseSafety(mem, a, active.address, p.Image(), n);
      }
      return;
    }
    WriteSector(chip, BACKUP_SECTOR, config);
    ghost var mem2, log2 := chip.mem[..], chip.log;
    ghost var b := log2[|log1|..];
    SinceThen(chip.first, log1, log2);
    var updated := UpdateBootConfigSector(config, active.index, Other(active.address), |firmware|);
    WriteSector(chip, MAIN_SECTOR, updated);
    ghost var c := chip.log[|log2|..];
    SinceThen(chip.first, log2, chip.log);
    ops := a + b + c;
    AllFromLog(chip.log, log, log1, log2, chip.mem.Length);
    SlotsKept(mem1, config, updated, other);
    OutcomeKept(p, sizes, mem1, chip.mem[..], ok, stalled);
    if !stalled {
      ConfinedPhase(a, active.address, n);
      FinalState(mem, mem1, mem2, chip.mem[..], a, config, firmware, hash);
    }
    if IsSlot(active.address) {
      SpliceHere(mem1, BACKUP_SECTOR, config);
      UpgradeSafety(mem, a, b, c, active.address, p.Image(), n);
    }
  }

  lemma OutcomeFacts(p: Plan, sizes: nat -> nat, m: bytes, ok: bool, stalled: bool)
    requires IsImagePlan(p) && |m| == FLASH_SIZE && ImageOutcome(p, sizes, m, ok, stalled)
    ensures stalled <==> Stalls(p, sizes, FLASH_SIZE)
    ensures !stalled ==> Runs(p, sizes, FLASH_SIZE).chunks * WRITE_CHUNK_SIZE <= SLOT_SIZE
    ensures ok ==> (p.Image() <= Slot(m, p.address) <==> Harmless(p, sizes))
    ensures !stalled ==> Harmless(p, sizes)
    ensures p.Tail() != Nul(32) ==> (Harmless(p, sizes) <==> !stalled)
  {
    hide Pos, Runs, ReadsThrough, Slot, Plan.Image, StallsAt, ZeroFrom;
    if p.Tail() != Nul(32) {
      HarmlessIsNoStall(p, sizes);
    }
  }

  lemma OutcomeKept(p: Plan, sizes: nat -> nat, m: bytes, m': bytes, ok: bool, stalled: bool)
    requires IsImagePlan(p) && |m| == |m'| == FLASH_SIZE && Slot(m, p.address) == Slot(m', p.address)
    requires ImageOutcome(p, sizes, m, ok, stalled)
    ensures ImageOutcome(p, sizes, m', ok, stalled)
  {
    hide Slot, Stalls, StallsAt, ReadsThrough, Pos, Runs, Harmless;
  }

  lemma SlotsKept(mem: bytes, config: bytes, next: bytes, address: nat)
    requires |mem| == FLASH_SIZE && |config| == |next| == SECTOR_SIZE && IsSlot(address)
    ensures Slot(Splice(Splice(mem, BACKUP_SECTOR, config), MAIN_SECTOR, next), address) == Slot(mem, address)
  {
    SpliceElsewhere(mem, BACKUP_SECTOR, config, address, address + SLOT_SIZE);
    SpliceElsewhere(Splice(mem, BACKUP_SECTOR, config), MAIN_SECTOR, next, address, address + SLOT_SIZE);
  }

  lemma PhaseOfWritten(chip: Chip, address: nat, firmware: bytes, hash: bytes, mem: bytes, log: seq<Op>, chunks: seq<bytes>)
    requires var p := ImagePlan(address, firmware, hash);
             chip.mem.Length == FLASH_SIZE && p.Ok() && Written(chip, p, mem, log, chunks)
    ensures log <= chip.log && IsImagePhase(chip.log[|log|..], address, |chunks|)
  {
    var p := ImagePlan(address, firmware, hash);
    var a := chip.log[|log|..];
    forall c | 0 <= c < |chunks|
      ensures Erase(Other(address) + c * WRITE_CHUNK_SIZE, WRITE_CHUNK_SIZE) in a
    {
      assert p.Offset(c) == c * WRITE_CHUNK_SIZE;
    }
  }

  lemma ConfinedPhase(a: seq<Op>, address: nat, n: nat)
    requires IsImagePhase(a, address, n) && n * WRITE_CHUNK_SIZE <= SLOT_SIZE
    ensures AllWithin(a, Other(address), Other(address) + SLOT_SIZE)
  {
  }

  /**
   The limit of crash safety: when the only valid configuration is the backup sector, erasing that sector
   opens a window in which a power cut leaves it nowhere.
   */
  lemma BackupOnlyIsNotCrashSafe(mem: bytes, a: seq<Op>, b: seq<Op>, c: seq<Op>, address: nat, image: bytes)
    requires |mem| == FLASH_SIZE && IsSlot(address)
    requires FindActive(Main(mem)).None? && FindActive(Backup(mem)).Some?
    requires AllWithin(a, Other(address), ImageEnd(address))
    requires AllWithin(b, BACKUP_SECTOR, BACKUP_SECTOR + SECTOR_SIZE)
    requires AllWithin(a + b + c, 0, |mem|) && Erase(BACKUP_SECTOR, SECTOR_SIZE) in b
    ensures !CrashSafe(mem, a + b + c, Backup(mem), address, image)
  {
    hide ApplyAll, Apply, FindActive;
    var ops, other, config := a + b + c, Other(address), Backup(mem);
    var j :| 0 <= j < |b| && b[j] == Erase(BACKUP_SECTOR, SECTOR_SIZE);
    var k := |a| + j;
    assert ops[..k] == a + b[..j] && ops[k] == b[j];
    var before := ApplyAll(mem, ops[..k]);
    assert Main(before) == Main(mem) by {
      var mem1 := ApplyAll(mem, a);
      assert AllWithin(b[..j], 0, |mem|) && AllWithin(b[..j], BACKUP_SECTOR, BACKUP_SECTOR + SECTOR_SIZE);
      ApplyAllConcat(mem, a, b[..j]);
      Untouched(mem, a, other, ImageEnd(address), MAIN_SECTOR, MAIN_SECTOR + SECTOR_SIZE);
      Untouched(mem1, b[..j], BACKUP_SECTOR, BACKUP_SECTOR + SECTOR_SIZE, MAIN_SECTOR, MAIN_SECTOR + SECTOR_SIZE);
    }
    var torn: byte := if config[0] == 0 then 1 else 0;
    var m := before[BACKUP_SECTOR := torn];
    assert CrashState(mem, ops, k, m);
    assert Main(m) == Main(before);
    assert Backup(m)[0] == torn;
    assert !Recoverable(mem, m, config, address, image);
  }

  // A power cut while a byte of the active slot is being erased or written.
  lemma TouchedIsNotCrashSafe(mem: bytes, ops: seq<Op>, op: Op, config: bytes, address: nat, image: bytes)
    requires |mem| == FLASH_SIZE && IsSlot(address) && AllWithin(ops, 0, |mem|) && op in ops && op.Touches(address)
    ensures !CrashSafe(mem, ops, config, address, image)
  {
    hide ApplyAll;
    var k :| 0 <= k < |ops| && ops[k] == op;
    var torn: byte := if mem[address] == 0 then 1 else 0;
    var m := ApplyAll(mem, ops[..k])[address := torn];
    assert CrashState(mem, ops, k, m);
    assert Slot(m, address)[0] == torn;
    assert !Recoverable(mem, m, config, address, image);
  }

  // A power cut while the main sector is being erased, when the new slot does not hold the image.
  lemma DamagedIsNotCrashSafe(mem: bytes, a: seq<Op>, b: seq<Op>, c: seq<Op>, config: bytes, address: nat, image: bytes)
    requires |mem| == FLASH_SIZE && IsSlot(address) && |config| == SECTOR_SIZE && AllWithin(a, 0, |mem|)
    requires AllWithin(b, BACKUP_SECTOR, BACKUP_SECTOR + SECTOR_SIZE)
    requires AllWithin(c, MAIN_SECTOR, MAIN_SECTOR + SECTOR_SIZE) && Erase(MAIN_SECTOR, SECTOR_SIZE) in c
    requires AllWithin(a + b + c, 0, |mem|) && !(image <= Slot(ApplyAll(mem, a), Other(address)))
    ensures !CrashSafe(mem, a + b + c, config, address, image)
  {
    hide ApplyAll, Slot, CrashSafe;
    var ops := a + b + c;
    var j :| 0 <= j < |c| && c[j] == Erase(MAIN_SECTOR, SECTOR_SIZE);
    var k := |a| + |b| + j;
    assert ops[..k] == a + (b + c[..j]) && ops[k] == c[j];
    forall op | op in b + c[..j]
      ensures op.Within(MAIN_SECTOR, BACKUP_SECTOR + SECTOR_SIZE)
    {
      assert op in b || op in c;
    }
    SectorsSpareSlots(mem, a, b + c[..j], Other(address));
    TornMainIsNotRecoverable(mem, ops, k, config, address, image);
  }

  lemma SectorsSpareSlots(mem: bytes, a: seq<Op>, later: seq<Op>, slot: nat)
    requires |mem| == FLASH_SIZE && IsSlot(slot) && AllWithin(a, 0, |mem|)
    requires forall op | op in later :: op.Within(MAIN_SECTOR, BACKUP_SECTOR + SECTOR_SIZE)
    ensures AllWithin(a + later, 0, |mem|) && Slot(ApplyAll(mem, a + later), slot) == Slot(ApplyAll(mem, a), slot)
  {
    hide ApplyAll;
    ApplyAllConcat(mem, a, later);
    Untouched(ApplyAll(mem, a), later, MAIN_SECTOR, BACKUP_SECTOR + SECTOR_SIZE, slot, slot + SLOT_SIZE);
  }

  lemma TornMain(before: bytes, torn: byte, slot: nat)
    requires |before| == FLASH_SIZE && IsSlot(slot)
    ensures var m := before[MAIN_SECTOR := torn];
            Main(m)[0] == torn && Slot(m, slot) == Slot(before, slot)
  {
  }

  lemma TornMainIsNotRecoverable(mem: bytes, ops: seq<Op>, k: nat, config: bytes, address: nat, image: bytes)
    requires |mem| == FLASH_SIZE && IsSlot(address) && |config| == SECTOR_SIZE && AllWithin(ops, 0, |mem|)
    requires k < |ops| && ops[k] == Erase(MAIN_SECTOR, SECTOR_SIZE)
    requires !(image <= Slot(ApplyAll(mem, ops[..k]), Other(address)))
    ensures !CrashSafe(mem, ops, config, address, image)
  {
    hide ApplyAll, Slot, Main, Backup;
    var before := ApplyAll(mem, ops[..k]);
    var torn: byte := if config[0] == 0 then 1 else 0;
    var m := before[MAIN_SECTOR := torn];
    TornMain(before, torn, Other(address));
    assert CrashState(mem, ops, k, m);
    assert !Recoverable(mem, m, config, address, image);
  }

  // Writing n chunks into the other slot does not reach the active one.
  predicate Spares(address: nat, n: nat) { Other(address) == FIRMWARE_SLOT_2 || n * WRITE_CHUNK_SIZE <= SLOT_SIZE }

  // The operations of phase one, n chunks from the other slot on.
  ghost predicate IsImagePhase(a: seq<Op>, address: nat, n: nat) {
    && AllWithin(a, Other(address), Other(address) + n * WRITE_CHUNK_SIZE) && AllWithin(a, 0, FLASH_SIZE)
    && (forall c | 0 <= c < n :: Erase(Other(address) + c * WRITE_CHUNK_SIZE, WRITE_CHUNK_SIZE) in a)
  }

  lemma ImagePhaseReaches(a: seq<Op>, address: nat, n: nat)
    requires IsSlot(address) && IsImagePhase(a, address, n)
    ensures Spares(address, n) ==> AllWithin(a, Other(address), ImageEnd(address))
    ensures !Spares(address, n) ==> Erase(address, WRITE_CHUNK_SIZE) in a
  {
    if !Spares(address, n) {
      assert Erase(Other(address) + 49 * WRITE_CHUNK_SIZE, WRITE_CHUNK_SIZE) in a;
    }
  }

  /** A first phase cut short is crash safe exactly when it spares the active slot. */
  lemma ImagePhaseSafety(mem: bytes, a: seq<Op>, address: nat, image: bytes, n: nat)
    requires |mem| == FLASH_SIZE && IsSlot(address) && IsImagePhase(a, address, n)
    ensures CrashSafe(mem, a, Main(mem), address, image) <==> Spares(address, n)
  {
    hide CrashSafe;
    ImagePhaseReaches(a, address, n);
    if Spares(address, n) {
      hide AllWithin;
      UpgradeIsCrashSafe(mem, a, [], [], address, image);
      assert a + [] + [] == a;
    } else {
      TouchedIsNotCrashSafe(mem, a, Erase(address, WRITE_CHUNK_SIZE), Main(mem), address, image);
    }
  }

  /**
   A complete upgrade is crash safe exactly when the main sector was valid, the first phase spared the active slot
   and left the whole image in the new one.
   */
  lemma UpgradeSafety(mem: bytes, a: seq<Op>, b: seq<Op>, c: seq<Op>, address: nat, image: bytes, n: nat)
    requires |mem| == FLASH_SIZE && IsSlot(address) && FindActive(BootConfig(mem)).Some?
    requires IsImagePhase(a, address, n) && AllWithin(a + b + c, 0, |mem|)
    requires AllWithin(b, BACKUP_SECTOR, BACKUP_SECTOR + SECTOR_SIZE) && Erase(BACKUP_SECTOR, SECTOR_SIZE) in b
    requires AllWithin(c, MAIN_SECTOR, MAIN_SECTOR + SECTOR_SIZE) && Erase(MAIN_SECTOR, SECTOR_SIZE) in c
    requires Backup(ApplyAll(ApplyAll(mem, a), b)) == BootConfig(mem)
    ensures CrashSafe(mem, a + b + c, BootConfig(mem), address, image) <==>
            FindActive(Main(mem)).Some? && Spares(address, n) && image <= Slot(ApplyAll(mem, a), Other(address))
  {
    hide CrashSafe, ApplyAll, FindActive, Slot;
    ImagePhaseReaches(a, address, n);
    if !Spares(address, n) {
      TouchedIsNotCrashSafe(mem, a + b + c, Erase(address, WRITE_CHUNK_SIZE), BootConfig(mem), address, image);
    } else if FindActive(Main(mem)).None? {
      BackupOnlyIsNotCrashSafe(mem, a, b, c, address, image);
    } else if image <= Slot(ApplyAll(mem, a), Other(address)) {
      UpgradeIsCrashSafe(mem, a, b, c, address, image);
    } else {
      DamagedIsNotCrashSafe(mem, a, b, c, BootConfig(mem), address, image);
    }
  }

  // One byte, then nothing, then whole chunks.
  function StallAfterOne(n: nat): nat { if n == 0 then 1 else if n == 1 then 0 else WRITE_CHUNK_SIZE }

  /**
   A stall can destroy the running firmware: with a firmware of the largest size, active in the second slot, a stall
   after the first byte makes every run that completes write past the first slot.
   */
  lemma StallReachesActiveSlot(firmware: bytes, hash: bytes, chunks: seq<bytes>)
    requires |firmware| == MAX_FIRMWARE_SIZE && |hash| == 32
    ensures var p := ImagePlan(FIRMWARE_SLOT_2, firmware, hash);
            && p.Ok() && StallsAt(p, StallAfterOne, FLASH_SIZE, 1)
            && (p.Fits(chunks) && FirstShort(p, chunks, Pos(p, StallAfterOne, 1)) && Concat(chunks) == p.Payload() ==>
                  !Spares(FIRMWARE_SLOT_2, |chunks|))
  {
    hide Plan.Head, Plan.Offset, StallsAt, Pos, Concat, FirstShort;
    var p := ImagePlan(FIRMWARE_SLOT_2, firmware, hash);
    StalledAfterOne(p);
    assert |p.Image()| == 5 + MAX_FIRMWARE_SIZE + 32;
    if p.Fits(chunks) && FirstShort(p, chunks, Pos(p, StallAfterOne, 1)) && Concat(chunks) == p.Payload() {
      StallTakesMore(p, StallAfterOne, FLASH_SIZE, 1, chunks);
      OffsetIs(p, |chunks|);
    }
  }

  lemma StalledAfterOne(p: Plan)
    requires IsImagePlan(p) && |p.data| > 1
    ensures StallsAt(p, StallAfterOne, FLASH_SIZE, 1) && Pos(p, StallAfterOne, 1) == 1
    ensures Room(p, 1) == WRITE_CHUNK_SIZE - 6
  {
    hide Plan.Payload, Plan.Tail;
    assert |p.Head()| == 5 && Room(p, 0) == WRITE_CHUNK_SIZE - 5;
    assert Pos(p, StallAfterOne, 0) == 0 && Empties(p, StallAfterOne, 0) == 0;
    assert Pos(p, StallAfterOne, 1) == 1 && Empties(p, StallAfterOne, 1) == 0;
    OffsetIs(p, 1);
  }

  lemma AllFromLog(log3: seq<Op>, log: seq<Op>, log1: seq<Op>, log2: seq<Op>, n: nat)
    requires log <= log1 <= log2 <= log3 && AllWithin(log3, 0, n)
    ensures log3 == log + (log1[|log|..] + log2[|log1|..] + log3[|log2|..])
    ensures AllWithin(log1[|log|..] + log2[|log1|..] + log3[|log2|..], 0, n)
  {
    var ops := log1[|log|..] + log2[|log1|..] + log3[|log2|..];
    assert log3 == log + ops;
    assert forall op | op in ops :: op in log3;
  }

  lemma SpliceHere(mem: bytes, at: nat, data: bytes)
    requires at + |data| <= |mem|
    ensures Splice(mem, at, data)[at..at + |data|] == data
  {
  }

  lemma SpliceElsewhere(mem: bytes, at: nat, data: bytes, from: nat, to: nat)
    requires at + |data| <= |mem| && from <= to <= |mem| && (to <= at || at + |data| <= from)
    ensures Splice(mem, at, data)[from..to] == mem[from..to]
  {
  }

  lemma FinalState(mem: bytes, mem1: bytes, mem2: bytes, mem3: bytes, a: seq<Op>, config: bytes, firmware: bytes, hash: bytes)
    requires |mem| == FLASH_SIZE && AllWithin(a, 0, |mem|) && mem1 == ApplyAll(mem, a)
    requires config == BootConfig(mem) && FindActive(config).Some?
    requires |firmware| <= MAX_FIRMWARE_SIZE && |hash| == 32
    requires var active := FindActive(config).value;
             var other := Other(active.address);
             && AllWithin(a, other, other + SLOT_SIZE)
             && ImagePlan(active.address, firmware, hash).Image() <= Slot(mem1, other)
             && mem2 == Splice(mem1, BACKUP_SECTOR, config)
             && mem3 == Splice(mem2, MAIN_SECTOR, Updated(config, active.index, other, |firmware|))
    ensures Upgraded(mem, mem3, firmware, hash)
  {
    hide ApplyAll, Plan.Image, Updated, FindFrom, Splice, HoldsFirmware;
    var active := FindActive(config).value;
    var other := Other(active.address);
    var next := Updated(config, active.index, other, |firmware|);
    UpdateIsFound(config, other, |firmware|);
    SpliceHere(mem2, MAIN_SECTOR, next);
    SpliceHere(mem1, BACKUP_SECTOR, config);
    SpliceElsewhere(mem2, MAIN_SECTOR, next, BACKUP_SECTOR, BACKUP_SECTOR + SECTOR_SIZE);
    SpliceElsewhere(mem2, MAIN_SECTOR, next, other, other + SLOT_SIZE);
    SpliceElsewhere(mem1, BACKUP_SECTOR, config, other, other + SLOT_SIZE);
    KeptElsewhere(mem, mem1, a, config, next, other);
    ImageInFlash(mem3, active.address, firmware, hash);
  }

  // The image in its slot, byte by byte: the size in its header is the size the boot configuration names.
  lemma ImageInFlash(m: bytes, address: nat, firmware: bytes, hash: bytes)
    requires |m| == FLASH_SIZE && |firmware| <= MAX_FIRMWARE_SIZE && |hash| == 32
    requires ImagePlan(address, firmware, hash).Image() <= Slot(m, Other(address))
    ensures HoldsFirmware(m, Other(address), firmware, hash)
  {
    hide Plan.Image, SizeAt;
    var p, other, n := ImagePlan(address, firmware, hash), Other(address), |firmware|;
    ImageLayout(p, Slot(m, other));
    SlotSlice(m, other, 0, 1);
    SizeInSlot(m, other);
    SlotSlice(m, other, 5, 5 + n);
    SlotSlice(m, other, 5 + n, 5 + n + 32);
    assert p.Tail() == hash && p.data == firmware;
  }

  lemma SlotSlice(m: bytes, slot: nat, lo: nat, hi: nat)
    requires |m| == FLASH_SIZE && IsSlot(slot) && lo <= hi <= SLOT_SIZE
    ensures Slot(m, slot)[lo..hi] == m[slot + lo..slot + hi]
    ensures lo < hi ==> Slot(m, slot)[lo] == m[slot + lo]
  {
    var s, t := Slot(m, slot), m[slot + lo..slot + hi];
    assert forall i | 0 <= i < |s| :: s[i] == m[slot + i];
    forall i | 0 <= i < hi - lo
      ensures s[lo..hi][i] == t[i]
    {
      assert s[lo..hi][i] == s[lo + i];
    }
  }

  lemma SizeInSlot(m: bytes, slot: nat)
    requires |m| == FLASH_SIZE && IsSlot(slot)
    ensures SizeAt(Slot(m, slot), 1) == SizeAt(m, slot + 1)
  {
  }

  // No byte outside the new slot and the two sectors is changed.
  lemma KeptElsewhere(mem: bytes, mem1: bytes, a: seq<Op>, config: bytes, next: bytes, other: nat)
    requires |mem| == FLASH_SIZE && AllWithin(a, 0, |mem|) && mem1 == ApplyAll(mem, a)
    requires |config| == |next| == SECTOR_SIZE && AllWithin(a, other, other + SLOT_SIZE)
    ensures var mem3 := Splice(Splice(mem1, BACKUP_SECTOR, config), MAIN_SECTOR, next);
            forall i | 0 <= i < |mem3| && !(other <= i < other + SLOT_SIZE) && !(MAIN_SECTOR <= i < BACKUP_SECTOR + SECTOR_SIZE) ::
              mem3[i] == mem[i]
  {
    hide ApplyAll, AllWithin;
    forall i | 0 <= i < |mem| && !(other <= i < other + SLOT_SIZE)
      ensures mem1[i] == mem[i]
    {
      OutsideUnchanged(mem, a, other, other + SLOT_SIZE, i);
    }
  }

  lemma NothingToRecover(mem: bytes, address: nat, image: bytes)
    requires |mem| == FLASH_SIZE
    ensures IsSlot(address) ==> CrashSafe(mem, [], Main(mem), address, image)
  {
    if IsSlot(address) {
      UpgradeIsCrashSafe(mem, [], [], [], address, image);
      var none: seq<Op> := [];
      assert none + none + none == none;
    }
  }
}
