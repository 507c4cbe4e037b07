/**
 The vault's files on SD card and on the flash mirror (src/krux/vault.py:67-92, 131-165): writes that may
 fail on either side, deletions, and restoring the card from the mirror.
 */
module VaultFiles {
  import opened Bytes

  type Files = map<string, bytes>

  datatype File = Meta | Manifest | Secret(id: string)

  const SECRETS: string := "vault/secrets/"
  const FLASH_SECRETS: string := "/flash/vault/secrets/"

  function SdPath(f: File): string {
    match f
    case Meta => "vault/vault.meta"
    case Manifest => "vault/manifest.kef"
    case Secret(id) => SECRETS + id + ".kef"
  }

  function FlashPath(f: File): string {
    match f
    case Meta => "/flash/vault/vault.meta"
    case Manifest => "/flash/vault/manifest.kef"
    case Secret(id) => FLASH_SECRETS + id + ".kef"
  }

  lemma PathsAreDistinct(f: File, g: File)
    requires f != g
    ensures SdPath(f) != SdPath(g) && FlashPath(f) != FlashPath(g)
  {
    PathLetters(f);
    PathLetters(g);
    if f.Secret? && g.Secret? {
      var m, n := |SECRETS|, |FLASH_SECRETS|;
      assert SdPath(f)[m..|SdPath(f)| - 4] == f.id && SdPath(g)[m..|SdPath(g)| - 4] == g.id;
      assert FlashPath(f)[n..|FlashPath(f)| - 4] == f.id && FlashPath(g)[n..|FlashPath(g)| - 4] == g.id;
    }
  }

  lemma PathLetters(f: File)
    ensures |SdPath(f)| > 6 && SdPath(f)[6] == Letter(f)
    ensures |FlashPath(f)| > 13 && FlashPath(f)[13] == Letter(f)
  {
  }

  function Letter(f: File): char { if f.Meta? then 'v' else if f.Manifest? then 'm' else 's' }

  function Content(files: Files, path: string): Option<bytes> {
    if path in files then Some(files[path]) else None
  }

  // ---------------------------------------------------------------- one operation

  // A write that raises may leave anything, or nothing, in its file.
  datatype Outcome = Done | Raised(residue: Option<bytes>)

  function Put(files: Files, path: string, data: bytes, outcome: Outcome): Files {
    match outcome
    case Done => files[path := data]
    case Raised(None) => files - {path}
    case Raised(Some(left)) => files[path := left]
  }

  function Unlink(files: Files, path: string, done: bool): Files {
    if done then files - {path} else files
  }

  datatype Disks = Disks(sd: Files, flash: Files)

  datatype Op =
    | Write(file: File, data: bytes, onSd: Outcome, onFlash: Outcome)
    | Delete(file: File, sdDone: bool, flashDone: bool)

  function Do(d: Disks, op: Op): Disks {
    match op
    case Write(f, data, onSd, onFlash) =>
      Disks(Put(d.sd, SdPath(f), data, onSd), if onSd.Done? then Put(d.flash, FlashPath(f), data, onFlash) else d.flash)
    case Delete(f, sdDone, flashDone) =>
      Disks(Unlink(d.sd, SdPath(f), sdDone), Unlink(d.flash, FlashPath(f), flashDone))
  }

  function DoAll(d: Disks, ops: seq<Op>): Disks {
    if ops == [] then d else Do(DoAll(d, ops[..|ops| - 1]), ops[|ops| - 1])
  }

  function OnSd(d: Disks, f: File): Option<bytes> { Content(d.sd, SdPath(f)) }

  function OnFlash(d: Disks, f: File): Option<bytes> { Content(d.flash, FlashPath(f)) }

  /** An operation on one file never touches another, whatever fails. */
  lemma OthersKept(d: Disks, op: Op, f: File)
    requires f != op.file
    ensures OnSd(Do(d, op), f) == OnSd(d, f) && OnFlash(Do(d, op), f) == OnFlash(d, f)
  {
    PathsAreDistinct(f, op.file);
  }

  lemma {:induction false} OthersKeptOverRuns(d: Disks, ops: seq<Op>, f: File)
    requires forall op | op in ops :: op.file != f
    ensures OnSd(DoAll(d, ops), f) == OnSd(d, f) && OnFlash(DoAll(d, ops), f) == OnFlash(d, f)
  {
    if ops != [] {
      var init, op := ops[..|ops| - 1], ops[|ops| - 1];
      assert op in ops && forall o | o in init :: o in ops;
      OthersKeptOverRuns(d, init, f);
      OthersKept(DoAll(d, init), op, f);
    }
  }

  // The same run, except for what happened on the mirror.
  ghost predicate SameOnSd(ops: seq<Op>, others: seq<Op>) {
    && |ops| == |others|
    && forall i | 0 <= i < |ops| ::
         match ops[i]
         case Write(f, data, onSd, _) => others[i].Write? && others[i] == Write(f, data, onSd, others[i].onFlash)
         case Delete(f, sdDone, _) => others[i].Delete? && others[i] == Delete(f, sdDone, others[i].flashDone)
  }

  /** Whatever the mirror does, or held before, the card ends up the same. */
  lemma {:induction false} MirrorNeverMatters(d: Disks, e: Disks, ops: seq<Op>, others: seq<Op>)
    requires d.sd == e.sd && SameOnSd(ops, others)
    ensures DoAll(d, ops).sd == DoAll(e, others).sd
  {
    if ops != [] {
      var k := |ops| - 1;
      assert SameOnSd(ops[..k], others[..k]);
      MirrorNeverMatters(d, e, ops[..k], others[..k]);
      assert ops[k].Write? ==> others[k] == Write(ops[k].file, ops[k].data, ops[k].onSd, others[k].onFlash);
    }
  }

  // ---------------------------------------------------------------- card and mirror in step

  predicate InStep(d: Disks, f: File) { OnSd(d, f) == OnFlash(d, f) }

  predicate Clean(op: Op) {
    match op
    case Write(_, _, onSd, onFlash) => onSd.Done? && onFlash.Done?
    case Delete(_, sdDone, flashDone) => sdDone && flashDone
  }

  // The last operation on f, if there was one, went through on both sides; before it anything may have failed.
  predicate LastClean(ops: seq<Op>, f: File, initially: bool) {
    if ops == [] then initially
    else
      var op := ops[|ops| - 1];
      if op.file == f then Clean(op) else LastClean(ops[..|ops| - 1], f, initially)
  }

  lemma {:induction false} LastCleanKeepsStep(d: Disks, ops: seq<Op>, f: File)
    requires LastClean(ops, f, InStep(d, f))
    ensures InStep(DoAll(d, ops), f)
  {
    if ops != [] {
      var init, op := ops[..|ops| - 1], ops[|ops| - 1];
      if op.file != f {
        LastCleanKeepsStep(d, init, f);
        OthersKept(DoAll(d, init), op, f);
      }
    }
  }

  ghost predicate AllInStep(d: Disks) { forall f :: InStep(d, f) }

  lemma CleanKeepsStep(d: Disks, op: Op)
    requires AllInStep(d) && Clean(op)
    ensures AllInStep(Do(d, op))
  {
    forall f
      ensures InStep(Do(d, op), f)
    {
      assert DoAll(d, [op]) == Do(d, op) by {
        assert [op][..0] == [];
      }
      LastCleanKeepsStep(d, [op], f);
    }
  }

  // ---------------------------------------------------------------- restoring

  predicate NoSlash(name: string) { forall i | 0 <= i < |name| :: name[i] != '/' }

  predicate WellNamed(f: File) { f.Secret? ==> NoSlash(f.id) }

  // Where a file on the card is restored from.
  function RestoredFrom(path: string): Option<string> {
    if path == SdPath(Meta) then Some(FlashPath(Meta))
    else if path == SdPath(Manifest) then Some(FlashPath(Manifest))
    else if SECRETS <= path && NoSlash(path[|SECRETS|..]) then Some(FLASH_SECRETS + path[|SECRETS|..])
    else None
  }

  function RestoredContent(sd: Files, flash: Files, path: string): Option<bytes> {
    var from := RestoredFrom(path);
    if from.Some? && from.value in flash then Some(flash[from.value]) else Content(sd, path)
  }

  /** The card after restoring: mirrored files come from the mirror, all others stay. */
  ghost predicate IsRestored(sd: Files, flash: Files, after: Files) {
    forall path: string :: Content(after, path) == RestoredContent(sd, flash, path)
  }

  // What os.listdir gives for the mirror's secrets directory, in some order.
  ghost predicate IsListing(flash: Files, names: seq<string>) {
    forall name: string :: name in names <==> NoSlash(name) && FLASH_SECRETS + name in flash
  }

  lemma RestoredFromMirror(f: File)
    requires WellNamed(f)
    ensures RestoredFrom(SdPath(f)) == Some(FlashPath(f))
  {
    if f.Secret? {
      PathsAreDistinct(f, Meta);
      PathsAreDistinct(f, Manifest);
      assert SdPath(f)[|SECRETS|..] == f.id + ".kef";
      assert FLASH_SECRETS + (f.id + ".kef") == FlashPath(f);
    } else if f.Manifest? {
      PathsAreDistinct(Meta, Manifest);
    }
  }

  /**
   Restoring onto a blank card gives back every file whose last operation went through on both sides,
   however many earlier ones failed.
   */
  lemma RestoreReproduces(d: Disks, ops: seq<Op>, f: File, after: Files)
    requires LastClean(ops, f, InStep(d, f)) && WellNamed(f)
    requires IsRestored(map[], DoAll(d, ops).flash, after)
    ensures Content(after, SdPath(f)) == OnSd(DoAll(d, ops), f)
  {
    LastCleanKeepsStep(d, ops, f);
    RestoredFromMirror(f);
  }

  // ---------------------------------------------------------------- the devices

  class Storage {
    var sd: Files
    var flash: Files

    function State(): Disks reads this { Disks(sd, flash) }

    method WriteWithMirror(f: File, data: bytes, onSd: Outcome, onFlash: Outcome) returns (raised: bool)
      modifies this
      ensures raised <==> !onSd.Done?
      ensures raised ==> flash == old(flash)
      ensures !raised ==> sd == old(sd)[SdPath(f) := data]
      ensures !raised && onFlash.Done? ==> flash == old(flash)[FlashPath(f) := data]
      ensures State() == Do(old(State()), Write(f, data, onSd, onFlash))
    {
      sd := Put(sd, SdPath(f), data, onSd);
      if !onSd.Done? {
        return true;
      }
      flash := Put(flash, FlashPath(f), data, onFlash);
      return false;
    }

    method DeleteWithMirror(f: File, sdDone: bool, flashDone: bool)
      modifies this
      ensures sd == if sdDone then old(sd) - {SdPath(f)} else old(sd)
      ensures flash == if flashDone then old(flash) - {FlashPath(f)} else old(flash)
      ensures State() == Do(old(State()), Delete(f, sdDone, flashDone))
    {
      sd := Unlink(sd, SdPath(f), sdDone);
      flash := Unlink(flash, FlashPath(f), flashDone);
    }

    /** Copies the mirror back onto the card; without a mirrored meta file it raises and changes nothing. */
    method RestoreFromFlash(names: seq<string>) returns (raised: bool)
      requires IsListing(flash, names)
      modifies this
      ensures flash == old(flash) && (raised <==> FlashPath(Meta) !in flash)
      ensures if raised then sd == old(sd) else IsRestored(old(sd), flash, sd)
    {
      if FlashPath(Meta) !in flash {
        return true;
      }
      var files := sd[SdPath(Meta) := flash[FlashPath(Meta)]];
      if FlashPath(Manifest) in flash {
        files := files[SdPath(Manifest) := flash[FlashPath(Manifest)]];
      }
      ghost var start := files;
      files := CopySecrets(files, flash, names);
      forall path: string
        ensures Content(files, path) == RestoredContent(sd, flash, path)
      {
        CopiedIsRestored(sd, flash, start, files, names, path);
      }
      sd := files;
      return false;
    }
  }

  // The name under the secrets directory a card path stands for.
  predicate IsNamed(path: string, names: seq<string>) {
    SECRETS <= path && path[|SECRETS|..] in names
  }

  /** The copying loop: listed names are taken from the mirror, everything else is kept. */
  method CopySecrets(sd: Files, flash: Files, names: seq<string>) returns (files: Files)
    requires forall name | name in names :: FLASH_SECRETS + name in flash
    ensures forall path: string ::
              Content(files, path) ==
              if IsNamed(path, names) then Some(flash[FLASH_SECRETS + path[|SECRETS|..]]) else Content(sd, path)
  {
    files := sd;
    for i := 0 to |names|
      invariant forall path: string ::
          Content(files, path) ==
          if IsNamed(path, names[..i]) then Some(flash[FLASH_SECRETS + path[|SECRETS|..]]) else Content(sd, path)
    {
      var name := names[i];
      var destination := SECRETS + name;
      ghost var before := files;
      files := files[destination := flash[FLASH_SECRETS + name]];
      forall path: string
        ensures Content(files, path) ==
                if IsNamed(path, names[..i + 1]) then Some(flash[FLASH_SECRETS + path[|SECRETS|..]])
                else Content(sd, path)
      {
        OneMoreName(path, names, i);
        assert Content(files, path) == if path == destination then Some(flash[FLASH_SECRETS + name]) else Content(before, path);
      }
    }
    assert names[..|names|] == names;
  }

  lemma OneMoreName(path: string, names: seq<string>, i: nat)
    requires i < |names|
    ensures IsNamed(path, names[..i + 1]) <==> IsNamed(path, names[..i]) || path == SECRETS + names[i]
    ensures path == SECRETS + names[i] ==> SECRETS <= path && path[|SECRETS|..] == names[i]
  {
    assert names[..i + 1] == names[..i] + [names[i]];
    if SECRETS <= path {
      assert path == SECRETS + path[|SECRETS|..];
    }
  }

  lemma CopiedIsRestored(sd: Files, flash: Files, start: Files, files: Files, names: seq<string>, path: string)
    requires IsListing(flash, names) && FlashPath(Meta) in flash
    requires start == var withMeta := sd[SdPath(Meta) := flash[FlashPath(Meta)]];
                      if FlashPath(Manifest) in flash then withMeta[SdPath(Manifest) := flash[FlashPath(Manifest)]]
                      else withMeta
    requires Content(files, path) ==
             if IsNamed(path, names) then Some(flash[FLASH_SECRETS + path[|SECRETS|..]]) else Content(start, path)
    ensures Content(files, path) == RestoredContent(sd, flash, path)
  {
    PathLetters(Meta);
    PathLetters(Manifest);
    PathsAreDistinct(Meta, Manifest);
    assert SECRETS <= path ==> path[6] == 's';
  }
}
