/**
 The vault manager (src/krux/vault.py:167-247) over the files of VaultFiles: sealed secrets, the manifest and
 its ids, and the sessions the vault pages drive
 (src/krux/pages/vault_pages/vault_add.py:70-84, src/krux/pages/vault_pages/vault_view.py:104-109).
 */
module Vault {
  import opened Bytes
  import opened Decimal
  import opened Kef
  import opened KefProofs
  import opened KefEnvelope
  import opened VaultFiles

  const KEF_VERSION: int := 20
  const KEF_ITERATIONS: int := 100000
  const MANIFEST_ID: bytes := [118, 97, 117, 108, 116, 45, 109, 97, 110, 105, 102, 101, 115, 116]

  datatype Details = Details(caption: string, secretType: string, createdAt: int, hashPreview: string)
  datatype Entry = Entry(id: string, details: Details)
  type Entries = seq<Entry>

  /** The cipher in use and the text and JSON encodings, of which only the JSON round trip matters. */
  datatype Env = Env(cipher: Cipher, utf8: string -> bytes, dumps: Entries -> bytes, loads: bytes -> Option<Entries>) {
    ghost predicate Valid() {
      cipher.prim.Valid() && forall m :: loads(dumps(m)) == Some(m)
    }

    function Sealed(id: bytes, plaintext: bytes, iv: bytes): Result<bytes> {
      match cipher.Encrypt(plaintext, KEF_VERSION, iv, true)
      case Err(e) => Err(e)
      case Ok(payload) => Wrap(id, KEF_VERSION, KEF_ITERATIONS, payload)
    }

    // Every exception on the way reads as None.
    function Opened(data: bytes): Option<bytes> {
      match Unwrap(data)
      case Err(_) => None
      case Ok(e) =>
        match cipher.Decrypt(e.payload, e.version)
        case Err(_) => None
        case Ok(plaintext) => plaintext
    }

    function LoadSecret(d: Disks, id: string): Option<bytes> {
      match OnSd(d, Secret(id))
      case None => None
      case Some(data) => Opened(data)
    }

    // A missing manifest is an empty one; an unreadable one is None.
    function LoadManifest(d: Disks): Option<Entries> {
      match OnSd(d, Manifest)
      case None => Some([])
      case Some(data) =>
        match Opened(data)
        case None => None
        case Some(json) => loads(json)
    }
  }

  /** Sealing fails only on an id over 252 bytes, and what was sealed opens to itself. */
  lemma OpenedOfSealed(env: Env, id: bytes, plaintext: bytes, iv: bytes)
    requires env.Valid() && |iv| == 12
    ensures env.Sealed(id, plaintext, iv).Ok? <==> |id| <= 252
    ensures |id| <= 252 ==> env.Opened(env.Sealed(id, plaintext, iv).value) == Some(plaintext)
  {
    hide HasDuplicates, Cipher.Decrypt, Unwrap;
    var payload := env.cipher.Encrypt(plaintext, KEF_VERSION, iv, true);
    assert payload.Ok?;
    RoundTrip(env.cipher, plaintext, KEF_VERSION, iv);
    if |id| <= 252 {
      UnwrapOfWrap(id, KEF_VERSION, KEF_ITERATIONS, payload.value);
    }
  }

  /** What is written: an envelope under the given id, version 20 and 100000 iterations, around the encrypted payload. */
  lemma SealedEnvelope(env: Env, id: bytes, plaintext: bytes, iv: bytes)
    requires env.Valid() && |iv| == 12 && |id| <= 252
    ensures env.cipher.Encrypt(plaintext, 20, iv, true).Ok?
    ensures env.Sealed(id, plaintext, iv).Ok?
    ensures Unwrap(env.Sealed(id, plaintext, iv).value) ==
            Ok(Envelope(id, 20, 100000, env.cipher.Encrypt(plaintext, 20, iv, true).value))
  {
    OpenedOfSealed(env, id, plaintext, iv);
    hide Unwrap, Wrap, Cipher.Encrypt, Cipher.Decrypt;
    UnwrapOfWrap(id, 20, 100000, env.cipher.Encrypt(plaintext, 20, iv, true).value);
  }

  /** On a card without them, there is no secret and the manifest is empty; a file that does not open reads as None. */
  lemma NothingThere(env: Env, d: Disks, id: string)
    ensures SdPath(Secret(id)) !in d.sd ==> env.LoadSecret(d, id) == None
    ensures SdPath(Manifest) !in d.sd ==> env.LoadManifest(d) == Some([])
    ensures SdPath(Manifest) in d.sd && env.Opened(d.sd[SdPath(Manifest)]) == None ==> env.LoadManifest(d) == None
  {
    hide Env.Opened;
  }

  // ---------------------------------------------------------------- ids

  function PadZeros(s: string, width: nat): string {
    if |s| < width then Zeros(width - |s|) + s else s
  }

  // "{:03d}".format(n)
  function Format03(n: int): string {
    if n >= 0 then PadZeros(ToDecimal(n), 3) else "-" + PadZeros(ToDecimal(-n), 2)
  }

  lemma ParsePadded(n: nat, width: nat)
    ensures IsDigits(PadZeros(ToDecimal(n), width)) && Value(PadZeros(ToDecimal(n), width)) == n
  {
    var s := ToDecimal(n);
    ValueOfDecimal(n);
    if |s| < width {
      ValueOfLeadingZeros(width - |s|, s);
    }
  }

  lemma ParseOfFormat03(n: int)
    ensures ParseInt(Format03(n)) == Some(n)
  {
    var s := Format03(n);
    if n >= 0 {
      ParsePadded(n, 3);
    } else {
      ParsePadded(-n, 2);
      assert s[1..] == PadZeros(ToDecimal(-n), 2) && !IsDigit(s[0]);
    }
  }

  predicate Numbered(m: Entries) { forall i | 0 <= i < |m| :: ParseInt(m[i].id).Some? }

  function MaxId(m: Entries): (r: int)
    requires m != [] && Numbered(m)
    ensures forall i | 0 <= i < |m| :: ParseInt(m[i].id).value <= r
  {
    var last := ParseInt(m[|m| - 1].id).value;
    if |m| == 1 then last
    else
      var before := MaxId(m[..|m| - 1]);
      assert forall i | 0 <= i < |m| - 1 :: m[i] == m[..|m| - 1][i];
      if before < last then last else before
  }

  // None where an id is not a number: int() raises.
  function NextSecretId(m: Entries): Option<string> {
    if m == [] then Some("001") else if !Numbered(m) then None else Some(Format03(MaxId(m) + 1))
  }

  predicate HasId(m: Entries, id: string) { exists i :: 0 <= i < |m| && m[i].id == id }

  predicate DistinctIds(m: Entries) { forall i, j | 0 <= i < j < |m| :: m[i].id != m[j].id }

  /** The issued id is a number, is new to the manifest, and keeps its ids distinct. */
  lemma NextIdIsNew(m: Entries, details: Details)
    requires Numbered(m) && DistinctIds(m)
    ensures NextSecretId(m).Some?
    ensures var id := NextSecretId(m).value;
            !HasId(m, id) && Numbered(m + [Entry(id, details)]) && DistinctIds(m + [Entry(id, details)])
  {
    if m == [] {
      ParseOfFormat03(1);
      assert ToDecimal(1) == "1" && Format03(1) == "001";
    } else {
      ParseOfFormat03(MaxId(m) + 1);
    }
  }

  function RemoveFromManifest(m: Entries, id: string): Entries {
    if m == [] then []
    else
      var before, last := RemoveFromManifest(m[..|m| - 1], id), m[|m| - 1];
      if last.id != id then before + [last] else before
  }

  lemma {:induction false} RemovedFacts(m: Entries, id: string)
    requires Numbered(m) && DistinctIds(m)
    ensures var r := RemoveFromManifest(m, id);
            && Numbered(r) && DistinctIds(r)
            && forall other :: HasId(r, other) <==> HasId(m, other) && other != id
  {
    if m != [] {
      var k := |m| - 1;
      var init, last := m[..k], m[k];
      RemovedFacts(init, id);
      assert HasId(m, last.id) && !HasId(init, last.id);
      forall other
        ensures HasId(m, other) <==> HasId(init, other) || other == last.id
      {
        HasIdSnoc(init, last, other);
        assert init + [last] == m;
      }
      var before := RemoveFromManifest(init, id);
      assert !HasId(before, last.id);
      forall other
        ensures HasId(before + [last], other) <==> HasId(before, other) || other == last.id
      {
        HasIdSnoc(before, last, other);
      }
    }
  }

  lemma HasIdSnoc(m: Entries, last: Entry, id: string)
    ensures HasId(m + [last], id) <==> HasId(m, id) || id == last.id
  {
    var r := m + [last];
    assert r[|m|] == last;
    assert forall i | 0 <= i < |m| :: r[i] == m[i];
  }

  lemma {:induction false} RemoveAbsent(m: Entries, id: string)
    requires !HasId(m, id)
    ensures RemoveFromManifest(m, id) == m
  {
    if m != [] {
      var init := m[..|m| - 1];
      HasIdSnoc(init, m[|m| - 1], id);
      assert init + [m[|m| - 1]] == m;
      RemoveAbsent(init, id);
    }
  }

  /** Removing the newest entry undoes adding it, so its id is issued again. */
  lemma NewestIdIsReissued(m: Entries, details: Details)
    requires Numbered(m) && DistinctIds(m)
    ensures var id := NextSecretId(m).value;
            && RemoveFromManifest(m + [Entry(id, details)], id) == m
            && NextSecretId(RemoveFromManifest(m + [Entry(id, details)], id)) == Some(id)
  {
    NextIdIsNew(m, details);
    var id := NextSecretId(m).value;
    RemoveAbsent(m, id);
    assert (m + [Entry(id, details)])[..|m|] == m;
  }

  /** The next id is one more than the largest, and written with at least three characters. */
  lemma NextIdIsSuccessor(m: Entries)
    requires Numbered(m)
    ensures NextSecretId(m).Some? && |NextSecretId(m).value| >= 3
    ensures m == [] ==> NextSecretId(m) == Some("001")
    ensures m != [] ==>
              && (forall i | 0 <= i < |m| :: ParseInt(m[i].id).value < ParseInt(NextSecretId(m).value).value)
              && exists i :: 0 <= i < |m| && ParseInt(NextSecretId(m).value).value == ParseInt(m[i].id).value + 1
    ensures m != [] ==> ParseInt(NextSecretId(m).value).Some?
  {
    if m != [] {
      ParseOfFormat03(MaxId(m) + 1);
      MaxIsReached(m);
    }
  }

  lemma {:induction false} MaxIsReached(m: Entries)
    requires m != [] && Numbered(m)
    ensures exists i :: 0 <= i < |m| && ParseInt(m[i].id).value == MaxId(m)
  {
    var init := m[..|m| - 1];
    if init != [] && MaxId(m) == MaxId(init) {
      MaxIsReached(init);
      var i :| 0 <= i < |init| && ParseInt(init[i].id).value == MaxId(init);
      assert m[i] == init[i];
    } else {
      assert ParseInt(m[|m| - 1].id).value == MaxId(m);
    }
  }

  /** Removal goes entry by entry and keeps the order. */
  lemma {:induction false} RemoveByEntries(a: Entries, b: Entries, id: string)
    ensures RemoveFromManifest(a + b, id) == RemoveFromManifest(a, id) + RemoveFromManifest(b, id)
    ensures |b| == 1 ==> RemoveFromManifest(b, id) == if b[0].id == id then [] else b
    decreases |b|
  {
    if b == [] {
      assert a + b == a;
    } else {
      var init := b[..|b| - 1];
      assert (a + b)[..|a + b| - 1] == a + init;
      RemoveByEntries(a, init, id);
      if |b| == 1 {
        assert init == [] && [b[0]] == b;
      }
    }
  }

  // ---------------------------------------------------------------- the manager

  class VaultManager {
    const storage: Storage

    constructor (storage: Storage)
      ensures this.storage == storage
    {
      this.storage := storage;
    }

    /** A stored secret loads as itself, whatever the mirror did, and no other file is touched. */
    method SaveSecret(env: Env, id: string, plaintext: bytes, iv: bytes, onSd: Outcome, onFlash: Outcome)
      returns (raised: bool)
      requires env.Valid() && |iv| == 12
      modifies storage
      ensures raised <==> |env.utf8(id)| > 252 || !onSd.Done?
      ensures !raised ==> env.LoadSecret(storage.State(), id) == Some(plaintext)
      ensures |env.utf8(id)| > 252 ==> storage.State() == old(storage.State())
      ensures forall f | f != Secret(id) ::
                OnSd(storage.State(), f) == old(OnSd(storage.State(), f)) && OnFlash(storage.State(), f) == old(OnFlash(storage.State(), f))
    {
      hide Put, SdPath, FlashPath, Unwrap, Wrap, Cipher.Encrypt, Cipher.Decrypt;
      OpenedOfSealed(env, env.utf8(id), plaintext, iv);
      var envelope := env.Sealed(env.utf8(id), plaintext, iv);
      if envelope.Err? {
        return true;
      }
      ghost var op := Write(Secret(id), envelope.value, onSd, onFlash);
      if onSd.Done? {
        WrittenIsRead(storage.State(), op);
      }
      raised := storage.WriteWithMirror(Secret(id), envelope.value, onSd, onFlash);
      forall f | f != Secret(id)
        ensures OnSd(storage.State(), f) == old(OnSd(storage.State(), f)) && OnFlash(storage.State(), f) == old(OnFlash(storage.State(), f))
      {
        OthersKept(old(storage.State()), op, f);
      }
    }

    /** After deletion from the card the secret is gone; no other file is touched. */
    method DeleteSecret(env: Env, id: string, sdDone: bool, flashDone: bool)
      modifies storage
      ensures sdDone ==> env.LoadSecret(storage.State(), id) == None
      ensures !sdDone ==> env.LoadSecret(storage.State(), id) == old(env.LoadSecret(storage.State(), id))
      ensures forall f | f != Secret(id) ::
                OnSd(storage.State(), f) == old(OnSd(storage.State(), f)) && OnFlash(storage.State(), f) == old(OnFlash(storage.State(), f))
    {
      hide SdPath, FlashPath, Env.Opened;
      storage.DeleteWithMirror(Secret(id), sdDone, flashDone);
      forall f | f != Secret(id)
        ensures OnSd(storage.State(), f) == old(OnSd(storage.State(), f)) && OnFlash(storage.State(), f) == old(OnFlash(storage.State(), f))
      {
        OthersKept(old(storage.State()), Delete(Secret(id), sdDone, flashDone), f);
      }
    }
  }

  lemma WrittenIsRead(d: Disks, op: Op)
    requires op.Write? && op.onSd.Done?
    ensures OnSd(Do(d, op), op.file) == Some(op.data)
  {
  }

  // ---------------------------------------------------------------- sessions

  datatype Writes = Writes(iv: bytes, onSd: Outcome, onFlash: Outcome)

  datatype Action =
    | Add(plaintext: bytes, details: Details, secret: Writes, manifest: Writes)
    | Remove(id: string, sdDone: bool, flashDone: bool, manifest: Writes)

  /**
   The disks, the manifest in memory, what was stored under each of its ids, and whether the manifest on the card
   is the one in memory.
   */
  datatype Session = Session(disks: Disks, entries: Entries, stored: map<string, bytes>, saved: bool)

  function SaveManifest(env: Env, s: Session, w: Writes): Session {
    match env.Sealed(MANIFEST_ID, env.dumps(s.entries), w.iv)
    case Err(_) => s.(saved := false)
    case Ok(data) => s.(disks := Do(s.disks, Write(Manifest, data, w.onSd, w.onFlash)), saved := w.onSd.Done?)
  }

  function Act(env: Env, s: Session, a: Action): Session {
    match a
    case Add(plaintext, details, w, mw) =>
      (match NextSecretId(s.entries)
       case None => s
       case Some(id) =>
         match env.Sealed(env.utf8(id), plaintext, w.iv)
         case Err(_) => s
         case Ok(data) =>
           var disks := Do(s.disks, Write(Secret(id), data, w.onSd, w.onFlash));
           if !w.onSd.Done? then s.(disks := disks)
           else SaveManifest(env, Session(disks, s.entries + [Entry(id, details)], s.stored[id := plaintext], false), mw))
    case Remove(id, sdDone, flashDone, mw) =>
      var disks := Do(s.disks, Delete(Secret(id), sdDone, flashDone));
      SaveManifest(env, Session(disks, RemoveFromManifest(s.entries, id), s.stored - {id}, false), mw)
  }

  function ActAll(env: Env, s: Session, actions: seq<Action>): Session {
    if actions == [] then s else Act(env, ActAll(env, s, actions[..|actions| - 1]), actions[|actions| - 1])
  }

  /** Ids are distinct numbers, every listed secret loads as it was stored, and a saved manifest loads as itself. */
  ghost predicate Good(env: Env, s: Session) {
    && Numbered(s.entries) && DistinctIds(s.entries)
    && (forall id :: id in s.stored <==> HasId(s.entries, id))
    && (forall id | id in s.stored :: env.LoadSecret(s.disks, id) == Some(s.stored[id]))
    && (s.saved ==> env.LoadManifest(s.disks) == Some(s.entries))
  }

  predicate FreshIvs(a: Action) { |a.manifest.iv| == 12 && (a.Add? ==> |a.secret.iv| == 12) }

  lemma SaveManifestKeepsGood(env: Env, s: Session, w: Writes)
    requires env.Valid() && Good(env, s.(saved := false)) && |w.iv| == 12
    ensures Good(env, SaveManifest(env, s, w))
    ensures SaveManifest(env, s, w).saved <==> w.onSd.Done?
  {
    hide Numbered, DistinctIds, HasId, Env.Sealed, Env.Opened, Put, SdPath, FlashPath;
    var json := env.dumps(s.entries);
    OpenedOfSealed(env, MANIFEST_ID, json, w.iv);
    var op := Write(Manifest, env.Sealed(MANIFEST_ID, json, w.iv).value, w.onSd, w.onFlash);
    forall id
      ensures OnSd(Do(s.disks, op), Secret(id)) == OnSd(s.disks, Secret(id))
    {
      OthersKept(s.disks, op, Secret(id));
    }
    if w.onSd.Done? {
      WrittenIsRead(s.disks, op);
    }
  }

  lemma AddKeepsGood(env: Env, s: Session, a: Action)
    requires env.Valid() && Good(env, s) && FreshIvs(a) && a.Add?
    ensures Good(env, Act(env, s, a))
  {
    hide Numbered, DistinctIds, HasId, Env.Sealed, Env.Opened, Put, SdPath, FlashPath, Format03, SaveManifest;
    NextIdIsNew(s.entries, a.details);
    var id := NextSecretId(s.entries).value;
    OpenedOfSealed(env, env.utf8(id), a.plaintext, a.secret.iv);
    var data := env.Sealed(env.utf8(id), a.plaintext, a.secret.iv);
    if data.Ok? {
      var op := Write(Secret(id), data.value, a.secret.onSd, a.secret.onFlash);
      var disks := Do(s.disks, op);
      forall f | f != Secret(id)
        ensures OnSd(disks, f) == OnSd(s.disks, f)
      {
        OthersKept(s.disks, op, f);
      }
      if a.secret.onSd.Done? {
        WrittenIsRead(s.disks, op);
        forall other
          ensures HasId(s.entries + [Entry(id, a.details)], other) <==> HasId(s.entries, other) || other == id
        {
          HasIdSnoc(s.entries, Entry(id, a.details), other);
        }
        SaveManifestKeepsGood(env, Session(disks, s.entries + [Entry(id, a.details)], s.stored[id := a.plaintext], false), a.manifest);
      }
    }
  }

  lemma RemoveKeepsGood(env: Env, s: Session, a: Action)
    requires env.Valid() && Good(env, s) && FreshIvs(a) && a.Remove?
    ensures Good(env, Act(env, s, a))
  {
    hide Numbered, DistinctIds, HasId, Env.Sealed, Env.Opened, SdPath, FlashPath, SaveManifest;
    var op := Delete(Secret(a.id), a.sdDone, a.flashDone);
    var disks := Do(s.disks, op);
    RemovedFacts(s.entries, a.id);
    forall id | id != a.id
      ensures OnSd(disks, Secret(id)) == OnSd(s.disks, Secret(id))
    {
      OthersKept(s.disks, op, Secret(id));
    }
    SaveManifestKeepsGood(env, Session(disks, RemoveFromManifest(s.entries, a.id), s.stored - {a.id}, false), a.manifest);
  }

  /**
   Over any run of additions and removals, with any writes and deletions failing on card or mirror, the ids stay
   distinct and every secret the manifest lists loads exactly as it was stored.
   */
  lemma {:induction false} SessionsStayGood(env: Env, s: Session, actions: seq<Action>)
    requires env.Valid() && Good(env, s)
    requires forall a | a in actions :: FreshIvs(a)
    ensures Good(env, ActAll(env, s, actions))
  {
    if actions != [] {
      var init, a := actions[..|actions| - 1], actions[|actions| - 1];
      assert a in actions && forall b | b in init :: b in actions;
      SessionsStayGood(env, s, init);
      if a.Add? {
        AddKeepsGood(env, ActAll(env, s, init), a);
      } else {
        RemoveKeepsGood(env, ActAll(env, s, init), a);
      }
    }
  }

  /** A vault starts out good: no entries, whatever the disks hold. */
  lemma NewSessionIsGood(env: Env, disks: Disks)
    ensures Good(env, Session(disks, [], map[], false))
  {
  }

  // ---------------------------------------------------------------- restoring

  /** Restored onto a blank card, every file whose last operation went through loads as it did before. */
  lemma RestoredLoads(env: Env, d: Disks, ops: seq<Op>, after: Files)
    requires IsRestored(map[], DoAll(d, ops).flash, after)
    ensures var was, now := DoAll(d, ops), Disks(after, DoAll(d, ops).flash);
            && (forall id | NoSlash(id) && LastClean(ops, Secret(id), InStep(d, Secret(id))) ::
                  env.LoadSecret(now, id) == env.LoadSecret(was, id))
            && (LastClean(ops, Manifest, InStep(d, Manifest)) ==> env.LoadManifest(now) == env.LoadManifest(was))
            && (LastClean(ops, Meta, InStep(d, Meta)) ==> OnSd(now, Meta) == OnSd(was, Meta))
  {
    hide Env.Opened, IsRestored;
    forall f | WellNamed(f) && LastClean(ops, f, InStep(d, f))
      ensures Content(after, SdPath(f)) == OnSd(DoAll(d, ops), f)
    {
      RestoreReproduces(d, ops, f, after);
    }
  }

  // Every write and deletion of the action goes through on both sides.
  predicate GoesThrough(a: Action) {
    && a.manifest.onSd.Done? && a.manifest.onFlash.Done?
    && (a.Add? ==> a.secret.onSd.Done? && a.secret.onFlash.Done?)
    && (a.Remove? ==> a.sdDone && a.flashDone)
  }

  lemma ActKeepsStep(env: Env, s: Session, a: Action)
    requires AllInStep(s.disks) && GoesThrough(a)
    ensures AllInStep(Act(env, s, a).disks)
  {
    hide AllInStep, Put, Unlink, Env.Sealed;
    match a
    case Add(plaintext, details, w, mw) =>
      var id := NextSecretId(s.entries);
      if id.Some? && env.Sealed(env.utf8(id.value), plaintext, w.iv).Ok? {
        var data := env.Sealed(env.utf8(id.value), plaintext, w.iv).value;
        CleanKeepsStep(s.disks, Write(Secret(id.value), data, w.onSd, w.onFlash));
        var disks := Do(s.disks, Write(Secret(id.value), data, w.onSd, w.onFlash));
        SaveKeepsStep(env, Session(disks, s.entries + [Entry(id.value, details)], s.stored[id.value := plaintext], false), mw);
      }
    case Remove(id, sdDone, flashDone, mw) =>
      CleanKeepsStep(s.disks, Delete(Secret(id), sdDone, flashDone));
      var disks := Do(s.disks, Delete(Secret(id), sdDone, flashDone));
      SaveKeepsStep(env, Session(disks, RemoveFromManifest(s.entries, id), s.stored - {id}, false), mw);
  }

  lemma SaveKeepsStep(env: Env, s: Session, w: Writes)
    requires AllInStep(s.disks) && w.onSd.Done? && w.onFlash.Done?
    ensures AllInStep(SaveManifest(env, s, w).disks)
  {
    hide AllInStep, Put, Env.Sealed;
    var data := env.Sealed(MANIFEST_ID, env.dumps(s.entries), w.iv);
    if data.Ok? {
      CleanKeepsStep(s.disks, Write(Manifest, data.value, w.onSd, w.onFlash));
    }
  }

  lemma {:induction false} SessionsKeepStep(env: Env, s: Session, actions: seq<Action>)
    requires AllInStep(s.disks) && forall a | a in actions :: GoesThrough(a)
    ensures AllInStep(ActAll(env, s, actions).disks)
  {
    if actions != [] {
      var init, a := actions[..|actions| - 1], actions[|actions| - 1];
      assert a in actions && forall b | b in init :: b in actions;
      SessionsKeepStep(env, s, init);
      ActKeepsStep(env, ActAll(env, s, init), a);
    }
  }

  lemma NumbersHaveNoSlash(id: string)
    requires ParseInt(id).Some?
    ensures NoSlash(id)
  {
    if !IsDigits(id) {
      assert forall i | 1 <= i < |id| :: id[i] == id[1..][i - 1];
    }
  }

  lemma InStepRestores(d: Disks, after: Files)
    requires AllInStep(d) && IsRestored(map[], d.flash, after)
    ensures forall f | WellNamed(f) :: Content(after, SdPath(f)) == OnSd(d, f)
  {
    forall f | WellNamed(f)
      ensures Content(after, SdPath(f)) == OnSd(d, f)
    {
      RestoreReproduces(d, [], f, after);
    }
  }

  lemma RestoredIsGood(env: Env, s: Session, after: Files)
    requires Good(env, s) && AllInStep(s.disks) && IsRestored(map[], s.disks.flash, after)
    ensures Good(env, s.(disks := Disks(after, s.disks.flash)))
  {
    hide Env.Opened, DistinctIds, SdPath, FlashPath, AllInStep, IsRestored, NoSlash, ParseInt;
    InStepRestores(s.disks, after);
    var now := Disks(after, s.disks.flash);
    assert OnSd(now, Manifest) == OnSd(s.disks, Manifest);
    forall id | id in s.stored
      ensures OnSd(now, Secret(id)) == OnSd(s.disks, Secret(id))
    {
      assert HasId(s.entries, id);
      NumbersHaveNoSlash(id);
    }
  }

  /**
   Losing the card loses nothing that reached the mirror: after any run that went through on both sides, a blank
   card restored from the mirror again holds every listed secret as it was stored, and the manifest.
   */
  lemma CardLossIsSurvived(env: Env, s: Session, actions: seq<Action>, after: Files)
    requires env.Valid() && Good(env, s) && AllInStep(s.disks)
    requires forall a | a in actions :: FreshIvs(a) && GoesThrough(a)
    requires IsRestored(map[], ActAll(env, s, actions).disks.flash, after)
    ensures var r := ActAll(env, s, actions);
            Good(env, r.(disks := Disks(after, r.disks.flash)))
  {
    hide Good, AllInStep, IsRestored, Env.Valid;
    SessionsStayGood(env, s, actions);
    SessionsKeepStep(env, s, actions);
    RestoredIsGood(env, ActAll(env, s, actions), after);
  }
}
