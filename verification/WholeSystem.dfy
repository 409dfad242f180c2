/**
 * The write path and the conversion of finished files together: entries are enqueued, filed and
 * acknowledged while finished files move from one tier to the other, step by step and in any order,
 * and at any time the process may die and recover from whatever both tiers hold.
 */
module WholeSystem {
  import opened Outcomes
  import opened Bytes
  import opened WalCodec
  import opened WalScan
  import opened WalReader
  import opened Selection
  import opened OrderedBuffering
  import opened AckFileWriting
  import opened MemQueues
  import opened Disk
  import opened WalWriting
  import opened Recovery
  import opened Durability
  import opened FileOrder
  import opened StoreCodec
  import opened TierRecovery
  import Conversion = StoreConversion

  /** What does not change: the crypto context, the checksum, whether signatures are checked, the configuration. */
  datatype Setting = Setting(crypto: Crypto, hash: Hash, verify: bool, cfg: Config)

  /**
   * The queue, and the files of both tiers. The file being written belongs to the queue's output. Of
   * the finished files the output's `others` keeps what they were when they were finished, whatever
   * has become of them in the tiers.
   */
  datatype System = System(queue: Queue, tiers: Conversion.Tiers)

  datatype Event =
    | Work(step: Step)
    | Convert(conversion: Conversion.Step)
    | Fail(left: Option<nat>, walLatest: Option<nat>, storeLatest: Option<nat>)

  /** Ids of at most 256 bits, so that headers of both tiers are short enough for those who read only their first bytes. */
  predicate ShortIds(s: Queue) {
    IdWidth(|s.log|) <= 32
  }

  // ----- The steps -----

  /** Rotation leaves the closed file in the WAL and starts the next one. */
  function WalAfter(cfg: Config, s: System, step: Step): Files
    requires step.WriteNext? ==> s.queue.toWrite != []
  {
    var o := s.queue.output;
    if step.WriteNext? && MustRotate(o, cfg, s.queue.toWrite[0])
    then s.tiers.wal[o.fileId := CloseFile(o.out, step.lands, cfg.fsync).state.file] - {o.fileId + 1}
    else s.tiers.wal
  }

  /** The directories after a crash: the newest file is cut off or gone, temporary files are removed, caches are empty. */
  function DirsLeft(s: System, left: Option<nat>): Conversion.Tiers
    requires left.Some? ==> left.value <= |s.queue.output.out.file + s.queue.output.out.InflightBytes()|
  {
    var o := s.queue.output;
    Conversion.Tiers(
      if left.None? then s.tiers.wal else s.tiers.wal[o.fileId := (o.out.file + o.out.InflightBytes())[..left.value]],
      s.tiers.store, map[], map[], map[])
  }

  /** But for the newest WAL file that is what any restart leaves of the tiers. */
  lemma DirsLeftAre(g: Setting, s: System, left: Option<nat>)
    requires left.Some? ==> left.value <= |s.queue.output.out.file + s.queue.output.out.InflightBytes()|
    ensures DirsLeft(s, left).(wal := s.tiers.wal) == Conversion.Apply(g.crypto, g.hash, g.verify, s.tiers, Conversion.Crash)
    ensures left.None? ==> DirsLeft(s, left).wal == s.tiers.wal
    ensures forall i :: i != s.queue.output.fileId ==> FileAt(DirsLeft(s, left).wal, i) == FileAt(s.tiers.wal, i)
  {
  }

  /** What recovery decides after a crash. */
  function Recovered(g: Setting, s: System, left: Option<nat>, latest: Option<nat>): Resume
    requires left.Some? ==> left.value <= |s.queue.output.out.file + s.queue.output.out.InflightBytes()|
  {
    ResumedTiers(g.crypto, g.hash, g.verify, DirsLeft(s, left), latest)
  }

  /** What the files a crash leaves stand for; a store file stands for the one being written if it has its id. */
  function StandFor(s: System, left: Option<nat>): Files
    requires left.Some? ==> left.value <= |s.queue.output.out.file + s.queue.output.out.InflightBytes()|
  {
    if s.queue.output.fileId in s.tiers.store then AllFiles(s.queue) else FilesLeft(s.queue, left)
  }

  ghost predicate Can(g: Setting, s: System, event: Event) {
    match event
    case Work(step) =>
      !step.Crash? && CanStep(g.hash, g.cfg, s.queue, step) && ShortIds(Apply(g.hash, g.cfg, s.queue, step))
    case Convert(conversion) =>
      !conversion.Crash? && Conversion.CanStep(g.crypto, g.hash, s.tiers, conversion)
    case Fail(left, walLatest, storeLatest) =>
      && CrashCut(s.queue.output, left)
      && IsLatest(DirsLeft(s, left).wal, walLatest) && IsLatest(DirsLeft(s, left).store, storeLatest)
      && Recovered(g, s, left, Max(walLatest, storeLatest)).header.Storable()
  }

  ghost function After(g: Setting, s: System, event: Event): System
    requires Can(g, s, event)
  {
    match event
    case Work(step) =>
      System(Apply(g.hash, g.cfg, s.queue, step), s.tiers.(wal := WalAfter(g.cfg, s, step)))
    case Convert(conversion) =>
      s.(tiers := Conversion.Apply(g.crypto, g.hash, g.verify, s.tiers, conversion))
    case Fail(left, walLatest, storeLatest) =>
      var dirs, r := DirsLeft(s, left), Recovered(g, s, left, Max(walLatest, storeLatest));
      System(Restart(s.queue.log, StandFor(s, left), r, s.queue.acked), dirs.(wal := dirs.wal - {r.fileId}))
  }

  ghost predicate CanAll(g: Setting, s: System, events: seq<Event>)
    decreases |events|
  {
    events != [] ==> Can(g, s, events[0]) && CanAll(g, After(g, s, events[0]), events[1..])
  }

  ghost function AfterAll(g: Setting, s: System, events: seq<Event>): System
    requires CanAll(g, s, events)
    decreases |events|
  {
    if events == [] then s else AfterAll(g, After(g, s, events[0]), events[1..])
  }

  /** A new queue and no files. */
  function Begin(): System {
    System(Start(), Conversion.Unconverted(map[]))
  }

  // ----- The invariant -----

  /**
   * The current id is in the store only when recovery took it up again. Then the store file is made of
   * the very bytes of the current file, and the writer will leave that file as it is.
   */
  ghost predicate TakenUp(g: Setting, o: Output, store: Files)
    requires o.fileId in store
  {
    && !o.hasWritten && o.header.Storable() && TooNarrow(o.header)
    && Conversion.IsStoreOf(g.crypto, g.hash, o.fileId, store[o.fileId], HeaderBytes(o.header))
  }

  /** What is left of every finished file, in either tier, stands for what it was, and there are no other files. */
  ghost predicate Filed(g: Setting, o: Output, t: Conversion.Tiers) {
    && t.wal.Keys <= o.others.Keys && t.ranges.Keys <= o.others.Keys && t.stages.Keys <= o.others.Keys
    && (forall i :: i in t.store ==> i in o.others || i == o.fileId)
    && (forall i :: i in o.others ==> Conversion.FileOk(g.crypto, g.hash, t, i, o.others[i]))
    && (o.fileId in t.store ==> TakenUp(g, o, t.store))
  }

  /** The queue alone is in order. */
  ghost predicate QueueOk(g: Setting, s: Queue) {
    Inv(g.hash, g.cfg, s) && Tidy(g.hash, s.output) && EmptiesOk(g.hash, s.output) && ShortIds(s)
  }

  ghost predicate SystemInv(g: Setting, s: System) {
    QueueOk(g, s.queue) && Filed(g, s.queue.output, s.tiers)
  }

  // ----- Finished files -----

  /** Numbers in finished files are small, so those who read only first bytes find them. */
  lemma FinishedOrdinary(g: Setting, s: Queue, lay: Lay, i: nat)
    requires InvWith(g.hash, g.cfg, s, lay) && Tidy(g.hash, s.output) && ShortIds(s) && i in s.output.others
    ensures Ordinary(g.hash, s.output.others[i])
  {
    hide InvWith, DiskEntries, EntriesIn, IdWidth, ContentOf, HeaderFromReader, HeaderBytes, RunBytes, SizeBound, ScanFile, Fits, Numbered;
    var hash, o := g.hash, s.output;
    assert GoodFile(hash, g.cfg, o.others[i]) by { FinishedGood(hash, g.cfg, s, lay, i); }
    ContentTells(hash, g.cfg, o.others, i);
    NumbersBounded(g, s, lay, i);
    var hd, es, k: nat :| IsCutOf(hash, o.others[i], hd, es, k) && SizeBound(g.cfg, hd, |es|, |HeaderBytes(hd) + RunBytes(hash, hd, es)|);
    CutParts(hash, o.others[i], hd, es, k);
  }

  lemma FinishedGood(hash: Hash, cfg: Config, s: Queue, lay: Lay, i: nat)
    requires InvWith(hash, cfg, s, lay) && i in s.output.others
    ensures GoodFile(hash, cfg, s.output.others[i])
  {
    hide GoodFile, Laid, MemOk, FlowOk, AcksOk;
  }

  lemma NumbersBounded(g: Setting, s: Queue, lay: Lay, i: nat)
    requires InvWith(g.hash, g.cfg, s, lay) && ShortIds(s) && 1 <= i < s.output.fileId
    ensures IdWidth(|DiskEntries(g.hash, s.output.others, i - 1)|) <= 32 && IdWidth(|EntriesIn(g.hash, s.output.others, i)|) <= 32
  {
    hide OutputInv, DiskEntries, EntriesIn, IdWidth, MemOk, AcksOk;
    var hash, o := g.hash, s.output;
    OutputHasContent(hash, g.cfg, o, lay);
    DurableAssigned(hash, s, lay);
    EntriesAdd(hash, o.others, i, o.fileId - 1);
    SmallNumbers(|DiskEntries(hash, o.others, i - 1)|, |EntriesIn(hash, o.others, i)|, |s.log|);
  }

  // ----- The file being written, when its id is in the store -----

  /** Nothing has been written to it yet. */
  lemma NothingWritten(hash: Hash, cfg: Config, o: Output, lay: Lay)
    requires OutputInv(hash, cfg, o, lay) && !o.hasWritten
    ensures lay.All() == [] && lay.inFile == [] && lay.inFlight == [] && lay.inBuffer == []
    ensures o.header.Storable() && o.out.file == HeaderBytes(o.header) && o.out.inflight.None? && o.out.InflightBytes() == []
    ensures o.out.synced <= |o.out.file|
  {
    hide HeaderBytes, DiskEntries, FilesOk, Numbered, IdWidth;
  }

  /** A file of nothing but a header holds no entry. */
  lemma HeaderOnly(hash: Hash, hd: WalHeader)
    requires hd.Storable()
    ensures ScanFile(hash, HeaderBytes(hd)) == [] && Conversion.CountOf(hash, HeaderBytes(hd)) == 0
    ensures ContentOf(hash, Some(HeaderBytes(hd))).Ok? && ContentOf(hash, Some(HeaderBytes(hd))).value.entriesBefore == hd.numEntriesBefore
  {
    hide HeaderBytes, ContentOf, WholeEntries, WalRange, ScanFile;
    var s := HeaderBytes(hd);
    assert RunBytes(hash, hd, []) == [];
    assert s == (s + RunBytes(hash, hd, []))[..|s|];
    FilePrefix(hash, hd, [], |s|);
    ScanWholeFile(hash, hd, []);
    assert s + [] == s;
  }

  /** The store announces no range for a file taken up again. */
  lemma NoRangeTakenUp(g: Setting, o: Output, t: Conversion.Tiers)
    requires g.crypto.Lawful() && o.fileId in t.store && TakenUp(g, o, t.store) && IdWidth(o.header.numEntriesBefore) <= 32
    ensures RangeFromFile(g.crypto, t.store[o.fileId], g.verify) == Ok(None)
  {
    hide RangeFromFile, HeaderBytes, ContentOf, Conversion.IsStoreOf;
    var wal := HeaderBytes(o.header);
    HeaderOnly(g.hash, o.header);
    assert Conversion.NarrowNumbers(g.hash, wal);
    Conversion.StoreOfRange(g.crypto, g.hash, o.fileId, t.store[o.fileId], wal, g.verify);
  }

  lemma HeaderNumberSmall(g: Setting, s: Queue, lay: Lay)
    requires InvWith(g.hash, g.cfg, s, lay) && ShortIds(s)
    ensures IdWidth(s.output.header.numEntriesBefore) <= 32
  {
    hide InvWith, OutputInv, FlowOk, DiskEntries, IdWidth;
    OutputOf(g.hash, g.cfg, s, lay);
    LaidOf(g.hash, g.cfg, s.output, lay);
    DurableAssigned(g.hash, s, lay);
    IdWidthMonotone(s.output.header.numEntriesBefore, |s.log|);
  }

  // ----- Conversions -----

  lemma ConvertKeeps(g: Setting, s: Queue, lay: Lay, t: Conversion.Tiers, step: Conversion.Step)
    requires g.crypto.Lawful() && InvWith(g.hash, g.cfg, s, lay) && Tidy(g.hash, s.output) && ShortIds(s)
    requires Filed(g, s.output, t) && !step.Crash? && Conversion.CanStep(g.crypto, g.hash, t, step)
    ensures Filed(g, s.output, Conversion.Apply(g.crypto, g.hash, g.verify, t, step))
  {
    hide InvWith, Tidy, ShortIds, Conversion.FileOk, TakenUp, Conversion.CanStep, Conversion.Apply, RangeFromFile, IdWidth;
    var o := s.output;
    var t' := Conversion.Apply(g.crypto, g.hash, g.verify, t, step);
    forall i | i in o.others
      ensures Conversion.FileOk(g.crypto, g.hash, t', i, o.others[i])
    {
      ConvertKeepsFile(g, s, lay, t, step, i);
    }
    HeaderNumberSmall(g, s, lay);
    if o.fileId in t.store {
      NoRangeTakenUp(g, o, t);
    }
    CurrentNotFinished(g.hash, o);
    ConvertKeys(g, o, t, step);
    if o.fileId in t'.store {
      SameTakenUp(g, o, t.store, t'.store);
    }
  }

  lemma ConvertKeepsFile(g: Setting, s: Queue, lay: Lay, t: Conversion.Tiers, step: Conversion.Step, i: nat)
    requires g.crypto.Lawful() && InvWith(g.hash, g.cfg, s, lay) && Tidy(g.hash, s.output) && ShortIds(s)
    requires i in s.output.others && Conversion.FileOk(g.crypto, g.hash, t, i, s.output.others[i])
    requires Conversion.CanStep(g.crypto, g.hash, t, step)
    ensures Conversion.FileOk(g.crypto, g.hash, Conversion.Apply(g.crypto, g.hash, g.verify, t, step), i, s.output.others[i])
  {
    hide InvWith, Tidy, ShortIds, Conversion.FileOk, Conversion.CanStep, Conversion.Apply, Ordinary, Conversion.NarrowNumbers;
    FinishedOrdinary(g, s, lay, i);
    OrdinaryIsNarrow(g.hash, s.output.others[i]);
    Conversion.StepKeepsFile(g.crypto, g.hash, g.verify, t, step, i, s.output.others[i]);
  }

  lemma SameTakenUp(g: Setting, o: Output, a: Files, b: Files)
    requires o.fileId in a && o.fileId in b && a[o.fileId] == b[o.fileId] && TakenUp(g, o, a)
    ensures TakenUp(g, o, b)
  {
  }

  lemma CurrentNotFinished(hash: Hash, o: Output)
    requires Tidy(hash, o)
    ensures o.fileId !in o.others
  {
    hide HeaderTrue, HeaderFromReader, EntriesIn;
  }

  /** A conversion touches the WAL files it finds, and nothing under the current id. */
  lemma ConvertKeys(g: Setting, o: Output, t: Conversion.Tiers, step: Conversion.Step)
    requires !step.Crash? && Conversion.CanStep(g.crypto, g.hash, t, step) && o.fileId !in o.others
    requires t.wal.Keys <= o.others.Keys && t.ranges.Keys <= o.others.Keys && t.stages.Keys <= o.others.Keys
    requires forall i :: i in t.store ==> i in o.others || i == o.fileId
    requires o.fileId in t.store ==> RangeFromFile(g.crypto, t.store[o.fileId], g.verify) == Ok(None)
    ensures var t' := Conversion.Apply(g.crypto, g.hash, g.verify, t, step);
            && t'.wal.Keys <= o.others.Keys && t'.ranges.Keys <= o.others.Keys && t'.stages.Keys <= o.others.Keys
            && (forall i :: i in t'.store ==> i in o.others || i == o.fileId)
            && (o.fileId in t'.store <==> o.fileId in t.store)
            && (o.fileId in t.store ==> t'.store[o.fileId] == t.store[o.fileId])
  {
    hide Conversion.Converted, Conversion.RangeToRecord, RangeFromFile;
  }

  // ----- Work -----

  /** A file taken up again is left before anything is written to it. */
  lemma TakenUpIsLeft(g: Setting, o: Output, lay: Lay, store: Files, e: Entry)
    requires OutputInv(g.hash, g.cfg, o, lay) && e.id == |Content(g.hash, o, lay)|
    requires o.fileId in store && TakenUp(g, o, store)
    ensures MustRotate(o, g.cfg, e)
  {
    hide Laid, FilesOk, DiskEntries, Numbered, HeaderBytes, Conversion.IsStoreOf, IdWidth;
  }

  /** Both tiers and the cache agree about a file. */
  predicate SameAt(a: Conversion.Tiers, b: Conversion.Tiers, i: nat) {
    && FileAt(a.wal, i) == FileAt(b.wal, i) && FileAt(a.store, i) == FileAt(b.store, i)
    && (i in b.stages ==> i in a.stages && a.stages[i] == b.stages[i] && (i in a.ranges ==> i in b.ranges))
    && (i in b.ranges ==> i in a.ranges && a.ranges[i] == b.ranges[i])
  }

  lemma FileOkLocal(g: Setting, a: Conversion.Tiers, b: Conversion.Tiers, i: nat, wal: Bytes)
    requires SameAt(a, b, i) && Conversion.FileOk(g.crypto, g.hash, a, i, wal)
    ensures Conversion.FileOk(g.crypto, g.hash, b, i, wal)
  {
    hide Conversion.IsStoreOf, Conversion.RangeToRecord;
  }

  /** The closed file stands for itself, and so does a store file of its id. */
  lemma ClosedOk(g: Setting, o: Output, lay: Lay, t: Conversion.Tiers, lands: bool, closed: Bytes)
    requires OutputInv(g.hash, g.cfg, o, lay) && o.fileId !in o.others && Filed(g, o, t)
    requires closed == CloseFile(o.out, lands, g.cfg.fsync).state.file
    ensures Conversion.FileOk(g.crypto, g.hash, t.(wal := t.wal[o.fileId := closed] - {o.fileId + 1}), o.fileId, closed)
  {
    hide OutputInv, CloseFile, HeaderBytes, IdWidth, Conversion.IsStoreOf, Conversion.RangeToRecord, RunBytes;
    if o.fileId in t.store {
      NothingWritten(g.hash, g.cfg, o, lay);
      LaidOf(g.hash, g.cfg, o, lay);
      ClosedBytes(g.hash, g.cfg, o, lay, lands);
    }
  }

  /** The closed file is a finished file like the others, and the next one is new in both tiers. */
  lemma ClosedIsFiled(g: Setting, o: Output, lay: Lay, t: Conversion.Tiers, lands: bool, closed: Bytes, r: Output)
    requires OutputInv(g.hash, g.cfg, o, lay) && Tidy(g.hash, o) && Filed(g, o, t)
    requires closed == CloseFile(o.out, lands, g.cfg.fsync).state.file
    requires r.fileId == o.fileId + 1 && r.others == o.others[o.fileId := closed] - {o.fileId + 1}
    ensures Filed(g, r, t.(wal := t.wal[o.fileId := closed] - {o.fileId + 1}))
  {
    hide OutputInv, HeaderTrue, HeaderFromReader, EntriesIn, CloseFile, Conversion.FileOk, TakenUp;
    var n := o.fileId;
    var t' := t.(wal := t.wal[n := closed] - {n + 1});
    ClosedOk(g, o, lay, t, lands, closed);
    forall i | i in r.others
      ensures Conversion.FileOk(g.crypto, g.hash, t', i, r.others[i])
    {
      if i != n {
        FileOkLocal(g, t, t', i, o.others[i]);
      }
    }
  }

  lemma WriteKeepsFiled(g: Setting, s: System, lay: Lay, lands: bool)
    requires InvWith(g.hash, g.cfg, s.queue, lay) && Tidy(g.hash, s.queue.output) && Filed(g, s.queue.output, s.tiers)
    requires s.queue.toWrite != [] && StorableId(s.queue.toWrite[0].id)
    ensures Filed(g, WriteOne(s.queue.output, g.hash, g.cfg, s.queue.toWrite[0], _ => lands),
                  s.tiers.(wal := WalAfter(g.cfg, s, WriteNext(lands))))
  {
    hide InvWith, OutputInv, Tidy, MustRotate, CloseFile, EntryBytes, StorableId, Conversion.FileOk, TakenUp, Content, Append, HeaderBytes, IdWidth;
    var o, e := s.queue.output, s.queue.toWrite[0];
    OutputOf(g.hash, g.cfg, s.queue, lay);
    NextToWrite(g.hash, s.queue, lay);
    if MustRotate(o, g.cfg, e) {
      var r := WriteOne(o, g.hash, g.cfg, e, _ => lands);
      ClosedIsFiled(g, o, lay, s.tiers, lands, CloseFile(o.out, lands, g.cfg.fsync).state.file, r);
    } else if o.fileId in s.tiers.store {
      TakenUpIsLeft(g, o, lay, s.tiers.store, e);
    }
  }

  // ----- Crashes -----

  /** The crash of the write path alone that has the same effect: the store file of the current id counts as the file. */
  function LeftInEffect(s: System, left: Option<nat>): Option<nat> {
    if s.queue.output.fileId in s.tiers.store then Some(|s.queue.output.out.file|) else left
  }

  lemma StandForIs(g: Setting, s: System, lay: Lay, left: Option<nat>)
    requires OutputInv(g.hash, g.cfg, s.queue.output, lay) && Filed(g, s.queue.output, s.tiers) && CrashCut(s.queue.output, left)
    ensures CrashCut(s.queue.output, LeftInEffect(s, left))
    ensures StandFor(s, left) == FilesLeft(s.queue, LeftInEffect(s, left))
  {
    hide OutputInv, Conversion.FileOk, HeaderBytes, Conversion.IsStoreOf, IdWidth;
    var out := s.queue.output.out;
    if s.queue.output.fileId in s.tiers.store {
      NothingWritten(g.hash, g.cfg, s.queue.output, lay);
      assert (out.file + [])[..|out.file|] == out.file;
    }
  }

  /** The files a crash leaves stand for files in either tier, and for all of them. */
  lemma StandForKeys(g: Setting, s: System, left: Option<nat>)
    requires Filed(g, s.queue.output, s.tiers) && CrashCut(s.queue.output, left)
    ensures forall i :: i in StandFor(s, left) <==> i in DirsLeft(s, left).wal || i in DirsLeft(s, left).store
  {
    hide Conversion.IsStoreOf, Conversion.RangeToRecord, TakenUp;
    forall i | i in s.queue.output.others
      ensures i in s.tiers.wal || i in s.tiers.store
    {
      assert Conversion.FileOk(g.crypto, g.hash, s.tiers, i, s.queue.output.others[i]);
    }
  }

  /** A finished file, as recovery sees it. */
  lemma FinishedSeen(g: Setting, s: System, lay: Lay, left: Option<nat>, i: nat)
    requires g.crypto.Lawful() && InvWith(g.hash, g.cfg, s.queue, lay) && Tidy(g.hash, s.queue.output) && ShortIds(s.queue)
    requires Filed(g, s.queue.output, s.tiers) && CrashCut(s.queue.output, left) && i in s.queue.output.others
    ensures SeenAs(g.crypto, g.hash, g.verify, DirsLeft(s, left), StandFor(s, left), i)
  {
    hide InvWith, Tidy, ShortIds, Conversion.FileOk, TakenUp, Ordinary, SeenAs, CrashCut;
    assert left.Some? ==> left.value <= |s.queue.output.out.file + s.queue.output.out.InflightBytes()| by { CutInside(s, left); }
    CurrentNotFinished(g.hash, s.queue.output);
    FinishedOrdinary(g, s.queue, lay, i);
    FileOkLocal(g, s.tiers, DirsLeft(s, left), i, s.queue.output.others[i]);
    FileSeen(g.crypto, g.hash, g.verify, DirsLeft(s, left), StandFor(s, left), i);
  }

  lemma CutInside(s: System, left: Option<nat>)
    requires CrashCut(s.queue.output, left)
    ensures left.Some? ==> left.value <= |s.queue.output.out.file + s.queue.output.out.InflightBytes()|
  {
  }

  /** The newest file, as recovery sees it, when its id is not in the store. */
  lemma NewestSeen(g: Setting, s: System, left: Option<nat>)
    requires Filed(g, s.queue.output, s.tiers) && CrashCut(s.queue.output, left) && s.queue.output.fileId !in s.tiers.store
    requires s.queue.output.fileId !in s.queue.output.others
    ensures SeenAs(g.crypto, g.hash, g.verify, DirsLeft(s, left), StandFor(s, left), s.queue.output.fileId)
  {
    hide Conversion.FileOk, FileEnd, HeaderFromReader;
    var n, dirs, files := s.queue.output.fileId, DirsLeft(s, left), StandFor(s, left);
    if left.Some? {
      SameFileEnd(g.hash, dirs.wal, files, n);
    } else {
      MissingSeen(g.crypto, g.hash, g.verify, dirs, files, n);
    }
  }

  /** And when it is: there is no entry in either tier. */
  lemma TakenUpSeen(g: Setting, s: System, lay: Lay, left: Option<nat>)
    requires g.crypto.Lawful() && InvWith(g.hash, g.cfg, s.queue, lay) && ShortIds(s.queue)
    requires Filed(g, s.queue.output, s.tiers) && CrashCut(s.queue.output, left) && s.queue.output.fileId in s.tiers.store
    requires s.queue.output.fileId !in s.queue.output.others
    ensures SeenAs(g.crypto, g.hash, g.verify, DirsLeft(s, left), StandFor(s, left), s.queue.output.fileId)
    ensures EntriesIn(g.hash, StandFor(s, left), s.queue.output.fileId) == []
  {
    hide Conversion.FileOk, InvWith, HeaderBytes, IdWidth, FileEnd, RangeFromFile, ScanFile, TakenUp, HeaderAllSources, HeaderAt;
    var o, n, dirs, files := s.queue.output, s.queue.output.fileId, DirsLeft(s, left), StandFor(s, left);
    OutputOf(g.hash, g.cfg, s.queue, lay);
    HeaderNumberSmall(g, s.queue, lay);
    NoRangeTakenUp(g, o, s.tiers);
    NotWrittenOf(g, o, s.tiers.store);
    NothingWritten(g.hash, g.cfg, o, lay);
    HeaderOnly(g.hash, o.header);
    LastEnd(g.hash, files, n);
    if left.Some? {
      CutHeaderOnly(g.hash, o.header, left.value);
      assert o.out.file + [] == o.out.file;
    }
    LastEnd(g.hash, dirs.wal, n);
  }

  lemma NotWrittenOf(g: Setting, o: Output, store: Files)
    requires o.fileId in store && TakenUp(g, o, store)
    ensures !o.hasWritten && o.header.Storable()
  {
  }

  lemma CutHeaderOnly(hash: Hash, hd: WalHeader, k: nat)
    requires hd.Storable() && k <= |HeaderBytes(hd)|
    ensures ScanFile(hash, HeaderBytes(hd)[..k]) == []
  {
    hide HeaderBytes, ScanFile, WholeEntries;
    var s := HeaderBytes(hd);
    assert RunBytes(hash, hd, []) == [] && s + [] == s;
    assert IsCutOf(hash, s[..k], hd, [], k);
    ScanCutFile(hash, s[..k], hd, [], k);
  }

  /**
   * From whatever both tiers hold after a crash, recovery finds the latest file and decides as it
   * would on the files as they were when they were finished, and the newest one as it was cut off.
   */
  lemma FailDecides(g: Setting, s: System, lay: Lay, left: Option<nat>, walLatest: Option<nat>, storeLatest: Option<nat>)
    requires g.crypto.Lawful() && InvWith(g.hash, g.cfg, s.queue, lay) && Tidy(g.hash, s.queue.output) && ShortIds(s.queue)
    requires Filed(g, s.queue.output, s.tiers) && CrashCut(s.queue.output, left)
    requires IsLatest(DirsLeft(s, left).wal, walLatest) && IsLatest(DirsLeft(s, left).store, storeLatest)
    ensures IsLatest(StandFor(s, left), Max(walLatest, storeLatest))
    ensures Recovered(g, s, left, Max(walLatest, storeLatest)) == Resumed(g.hash, StandFor(s, left), Max(walLatest, storeLatest))
  {
    hide InvWith, Tidy, ShortIds, Filed, SeenAs, ResumedTiers, Resumed, DirsLeft, StandFor;
    StandForKeys(g, s, left);
    LatestOfBoth(DirsLeft(s, left), StandFor(s, left), walLatest, storeLatest);
    forall i: nat
      ensures SeenAs(g.crypto, g.hash, g.verify, DirsLeft(s, left), StandFor(s, left), i)
    {
      AnySeen(g, s, lay, left, i);
    }
    SameDecision(g.crypto, g.hash, g.verify, DirsLeft(s, left), StandFor(s, left), Max(walLatest, storeLatest));
  }

  lemma AnySeen(g: Setting, s: System, lay: Lay, left: Option<nat>, i: nat)
    requires g.crypto.Lawful() && InvWith(g.hash, g.cfg, s.queue, lay) && Tidy(g.hash, s.queue.output) && ShortIds(s.queue)
    requires Filed(g, s.queue.output, s.tiers) && CrashCut(s.queue.output, left)
    ensures SeenAs(g.crypto, g.hash, g.verify, DirsLeft(s, left), StandFor(s, left), i)
  {
    hide InvWith, Tidy, ShortIds, SeenAs, Conversion.FileOk, TakenUp;
    CurrentNotFinished(g.hash, s.queue.output);
    if i in s.queue.output.others {
      FinishedSeen(g, s, lay, left, i);
    } else if i != s.queue.output.fileId {
      MissingSeen(g.crypto, g.hash, g.verify, DirsLeft(s, left), StandFor(s, left), i);
    } else if i in s.tiers.store {
      TakenUpSeen(g, s, lay, left);
    } else {
      NewestSeen(g, s, left);
    }
  }

  /** For the queue, a failure of the whole is a crash of the write path. */
  lemma FailIsCrash(g: Setting, s: System, lay: Lay, left: Option<nat>, walLatest: Option<nat>, storeLatest: Option<nat>)
    requires g.crypto.Lawful() && InvWith(g.hash, g.cfg, s.queue, lay) && Tidy(g.hash, s.queue.output) && ShortIds(s.queue)
    requires Filed(g, s.queue.output, s.tiers) && CrashCut(s.queue.output, left)
    requires IsLatest(DirsLeft(s, left).wal, walLatest) && IsLatest(DirsLeft(s, left).store, storeLatest)
    ensures var fail, crash := Fail(left, walLatest, storeLatest), Crash(LeftInEffect(s, left), Max(walLatest, storeLatest));
            && CanStep(g.hash, g.cfg, s.queue, crash) && Can(g, s, fail)
            && After(g, s, fail).queue == Apply(g.hash, g.cfg, s.queue, crash)
  {
    hide InvWith, Tidy, ShortIds, Filed, ResumedTiers, Resumed, DirsLeft, StandFor, FilesLeft, IsLatest, CrashCut, Restart, HeaderBytes, LeftInEffect;
    var latest, eff := Max(walLatest, storeLatest), LeftInEffect(s, left);
    OutputOf(g.hash, g.cfg, s.queue, lay);
    CutInside(s, left);
    StandForIs(g, s, lay, left);
    FailDecides(g, s, lay, left, walLatest, storeLatest);
    CutInside(s, eff);
    ResumesAfterSurvivors(g.hash, g.cfg, s.queue, lay, eff, latest);
    CrashAllowed(g.hash, g.cfg, s.queue, eff, latest);
  }

  /** A file that is finished after a crash stands for itself: it was finished before, or is the newest one with its surviving entries. */
  lemma FailFileOk(g: Setting, s: System, lay: Lay, left: Option<nat>, fileId: nat, i: nat)
    requires g.crypto.Lawful() && InvWith(g.hash, g.cfg, s.queue, lay) && Tidy(g.hash, s.queue.output) && ShortIds(s.queue)
    requires Filed(g, s.queue.output, s.tiers) && CrashCut(s.queue.output, left)
    requires i in StandFor(s, left) && i != fileId
    requires i == s.queue.output.fileId ==> EntriesIn(g.hash, StandFor(s, left), i) != []
    ensures var dirs := DirsLeft(s, left);
            Conversion.FileOk(g.crypto, g.hash, dirs.(wal := dirs.wal - {fileId}), i, StandFor(s, left)[i])
  {
    hide InvWith, Tidy, ShortIds, Conversion.IsStoreOf, Conversion.RangeToRecord, TakenUp, EntriesIn;
    CurrentNotFinished(g.hash, s.queue.output);
    var n, dirs := s.queue.output.fileId, DirsLeft(s, left);
    if i == n {
      if n in s.tiers.store {
        TakenUpSeen(g, s, lay, left);
      }
    } else {
      FileOkLocal(g, s.tiers, dirs.(wal := dirs.wal - {fileId}), i, s.queue.output.others[i]);
    }
  }

  /** The id recovery takes up again may be in the store, made of the very bytes of the new file. */
  lemma FailTakesUp(g: Setting, s: System, lay: Lay, left: Option<nat>, latest: Option<nat>)
    requires InvWith(g.hash, g.cfg, s.queue, lay) && Tidy(g.hash, s.queue.output) && EmptiesOk(g.hash, s.queue.output)
    requires Filed(g, s.queue.output, s.tiers) && CanStep(g.hash, g.cfg, s.queue, Crash(left, latest))
    ensures var o := Apply(g.hash, g.cfg, s.queue, Crash(left, latest)).output;
            o.fileId in s.tiers.store ==> TakenUp(g, o, s.tiers.store)
  {
    hide InvWith, Tidy, EmptiesOk, CrashCut, IsLatest, FilesLeft, Resumed, HeaderBytes, IdWidth, Conversion.IsStoreOf, Conversion.RangeToRecord;
    var o := Apply(g.hash, g.cfg, s.queue, Crash(left, latest)).output;
    ReuseChangesNothing(g.hash, g.cfg, s.queue, lay, left, latest);
    if o.fileId in s.queue.output.others {
      assert Conversion.FileOk(g.crypto, g.hash, s.tiers, o.fileId, s.queue.output.others[o.fileId]);
    }
  }

  /** After a crash every file is in order again. */
  lemma FailFiled(g: Setting, s: System, lay: Lay, left: Option<nat>, o: Output)
    requires g.crypto.Lawful() && InvWith(g.hash, g.cfg, s.queue, lay) && Tidy(g.hash, s.queue.output) && ShortIds(s.queue)
    requires Filed(g, s.queue.output, s.tiers) && CrashCut(s.queue.output, left)
    requires o.others == StandFor(s, left) - {o.fileId}
    requires o.fileId in s.tiers.store ==> TakenUp(g, o, s.tiers.store)
    requires s.queue.output.fileId in o.others ==> EntriesIn(g.hash, StandFor(s, left), s.queue.output.fileId) != []
    ensures var dirs := DirsLeft(s, left); Filed(g, o, dirs.(wal := dirs.wal - {o.fileId}))
  {
    hide InvWith, Tidy, ShortIds, TakenUp, EntriesIn, Conversion.FileOk, StandFor;
    StandForKeys(g, s, left);
    var dirs := DirsLeft(s, left);
    forall i | i in o.others
      ensures Conversion.FileOk(g.crypto, g.hash, dirs.(wal := dirs.wal - {o.fileId}), i, o.others[i])
    {
      FailFileOk(g, s, lay, left, o.fileId, i);
    }
  }

  /** The newest file is kept by recovery only for its entries. */
  lemma NewestKept(hash: Hash, s: Queue, left: Option<nat>, latest: Option<nat>)
    requires Tidy(hash, s.output) && CrashCut(s.output, left) && IsLatest(FilesLeft(s, left), latest)
    ensures var r := Resumed(hash, FilesLeft(s, left), latest);
            s.output.fileId in FilesLeft(s, left) - {r.fileId} ==> EntriesIn(hash, FilesLeft(s, left), s.output.fileId) != []
  {
    hide Tidy, Resumed, EntriesIn, CrashCut;
    CutKnown(s, left);
    CrashKeys(hash, s, left, latest);
    FirstFileStays(hash, s, left);
    CurrentNotFinished(hash, s.output);
    ResumeTidy(hash, FilesLeft(s, left), if left.Some? then s.output.fileId else s.output.fileId - 1, latest);
  }

  lemma CutKnown(s: Queue, left: Option<nat>)
    requires CrashCut(s.output, left)
    ensures left.Some? ==> left.value <= |s.output.out.file + s.output.out.InflightBytes()|
  {
  }

  lemma FailKeepsFiled(g: Setting, s: System, lay: Lay, left: Option<nat>, walLatest: Option<nat>, storeLatest: Option<nat>)
    requires g.crypto.Lawful() && InvWith(g.hash, g.cfg, s.queue, lay) && QueueOk(g, s.queue)
    requires Filed(g, s.queue.output, s.tiers) && CrashCut(s.queue.output, left)
    requires IsLatest(DirsLeft(s, left).wal, walLatest) && IsLatest(DirsLeft(s, left).store, storeLatest)
    ensures var fail := Fail(left, walLatest, storeLatest);
            Can(g, s, fail) && Filed(g, After(g, s, fail).queue.output, After(g, s, fail).tiers)
  {
    hide InvWith, Inv, Tidy, ShortIds, EmptiesOk, Filed, ResumedTiers, Resumed, DirsLeft, StandFor, FilesLeft, IsLatest, CrashCut, HeaderBytes,
      LeftInEffect, EntriesIn, TakenUp;
    var latest, eff := Max(walLatest, storeLatest), LeftInEffect(s, left);
    OutputOf(g.hash, g.cfg, s.queue, lay);
    CutInside(s, left);
    StandForIs(g, s, lay, left);
    CutInside(s, eff);
    FailDecides(g, s, lay, left, walLatest, storeLatest);
    FailIsCrash(g, s, lay, left, walLatest, storeLatest);
    FailTakesUp(g, s, lay, eff, latest);
    NewestKept(g.hash, s.queue, eff, latest);
    FailFiled(g, s, lay, left, After(g, s, Fail(left, walLatest, storeLatest)).queue.output);
  }

  // ----- Whole runs -----

  /** For the queue every event is a step of the write path or nothing. */
  ghost function StepOf(s: System, event: Event): seq<Step> {
    match event
    case Work(step) => [step]
    case Convert(_) => []
    case Fail(left, walLatest, storeLatest) => [Crash(LeftInEffect(s, left), Max(walLatest, storeLatest))]
  }

  lemma WorkKeepsFiled(g: Setting, s: System, lay: Lay, step: Step)
    requires InvWith(g.hash, g.cfg, s.queue, lay) && Tidy(g.hash, s.queue.output) && Filed(g, s.queue.output, s.tiers)
    requires !step.Crash? && CanStep(g.hash, g.cfg, s.queue, step)
    ensures Filed(g, Apply(g.hash, g.cfg, s.queue, step).output, s.tiers.(wal := WalAfter(g.cfg, s, step)))
  {
    hide InvWith, Tidy, Conversion.FileOk, TakenUp, StorableId, Accepts, AfterEnqueue, AfterBatch, AfterAck, WriteOne, TakeBlock,
      FilesLeft, Restart, MustRotate, CloseFile;
    if step.WriteNext? {
      WriteKeepsFiled(g, s, lay, step.lands);
    } else {
      assert s.tiers.(wal := WalAfter(g.cfg, s, step)) == s.tiers;
      SameTaken(g, s.queue.output, Apply(g.hash, g.cfg, s.queue, step).output, s.tiers.store);
    }
  }

  lemma SameTaken(g: Setting, a: Output, b: Output, store: Files)
    requires a.fileId == b.fileId && a.header == b.header && a.hasWritten == b.hasWritten
    ensures a.fileId in store && TakenUp(g, a, store) ==> TakenUp(g, b, store)
  {
    hide HeaderBytes, IdWidth, Conversion.IsStoreOf;
  }

  lemma CrashStaysShort(g: Setting, s: Queue, left: Option<nat>, latest: Option<nat>)
    requires ShortIds(s) && CanStep(g.hash, g.cfg, s, Crash(left, latest))
    ensures ShortIds(Apply(g.hash, g.cfg, s, Crash(left, latest)))
  {
    hide CrashCut, IsLatest, FilesLeft, Resumed, HeaderBytes, IdWidth;
    IdWidthMonotone(|Apply(g.hash, g.cfg, s, Crash(left, latest)).log|, |s.log|);
  }

  lemma QueueStepOk(g: Setting, s: Queue, step: Step)
    requires QueueOk(g, s) && CanStep(g.hash, g.cfg, s, step) && ShortIds(Apply(g.hash, g.cfg, s, step))
    ensures QueueOk(g, Apply(g.hash, g.cfg, s, step))
  {
    hide Inv, Tidy, EmptiesOk, CanStep, Apply, ShortIds;
    StepKeeps(g.hash, g.cfg, s, step);
    StepTidy(g.hash, g.cfg, s, step);
    StepEmpties(g.hash, g.cfg, s, step);
  }

  /** Every event keeps the whole in order, and is for the queue what StepOf says. */
  lemma EventKeeps(g: Setting, s: System, event: Event)
    requires g.crypto.Lawful() && SystemInv(g, s) && Can(g, s, event)
    ensures SystemInv(g, After(g, s, event))
    ensures var steps := StepOf(s, event);
            if steps == [] then After(g, s, event).queue == s.queue
            else CanStep(g.hash, g.cfg, s.queue, steps[0]) && After(g, s, event).queue == Apply(g.hash, g.cfg, s.queue, steps[0])
  {
    hide InvWith, Tidy, EmptiesOk, ShortIds, Filed, CanStep, Apply, Conversion.CanStep, Conversion.Apply, Recovered, DirsLeft, StandFor,
      CrashCut, IsLatest, Restart, WalAfter, LeftInEffect;
    var lay :| InvWith(g.hash, g.cfg, s.queue, lay);
    match event
    case Work(step) =>
      QueueStepOk(g, s.queue, step);
      WorkKeepsFiled(g, s, lay, step);
    case Convert(conversion) =>
      ConvertKeeps(g, s.queue, lay, s.tiers, conversion);
    case Fail(left, walLatest, storeLatest) =>
      FailIsCrash(g, s, lay, left, walLatest, storeLatest);
      CrashStaysShort(g, s.queue, LeftInEffect(s, left), Max(walLatest, storeLatest));
      QueueStepOk(g, s.queue, Crash(LeftInEffect(s, left), Max(walLatest, storeLatest)));
      FailKeepsFiled(g, s, lay, left, walLatest, storeLatest);
  }

  /** Over any run the whole stays in order, and the queue goes through a run of the write path, without crashes if nothing fails. */
  lemma {:induction false} RunKeepsSystem(g: Setting, s: System, events: seq<Event>) returns (steps: seq<Step>)
    requires g.crypto.Lawful() && SystemInv(g, s) && CanAll(g, s, events)
    ensures SystemInv(g, AfterAll(g, s, events))
    ensures CanRun(g.hash, g.cfg, s.queue, steps) && AfterAll(g, s, events).queue == Run(g.hash, g.cfg, s.queue, steps)
    ensures (forall i :: 0 <= i < |events| ==> !events[i].Fail?) ==> forall i :: 0 <= i < |steps| ==> !steps[i].Crash?
    decreases |events|
  {
    hide SystemInv, Can, After, CanStep, Apply;
    if events == [] {
      steps := [];
    } else {
      EventKeeps(g, s, events[0]);
      assert events[0].Work? ==> !events[0].step.Crash? by { WorkIsNoCrash(g, s, events[0]); }
      var rest := RunKeepsSystem(g, After(g, s, events[0]), events[1..]);
      var first := StepOf(s, events[0]);
      steps := if first == [] then rest else [first[0]] + rest;
      assert first != [] ==> steps[0] == first[0] && steps[1..] == rest;
    }
  }

  lemma WorkIsNoCrash(g: Setting, s: System, event: Event)
    requires Can(g, s, event)
    ensures event.Work? ==> !event.step.Crash?
  {
    hide CanStep, Apply, Conversion.CanStep;
  }

  lemma BeginOk(g: Setting)
    ensures SystemInv(g, Begin())
  {
    hide Inv, Tidy, EmptiesOk, HeaderBytes;
    StartIsOk(g.hash, g.cfg);
    StartTidy(g.hash);
    StartEmpties(g.hash);
    StartOutput();
  }

  // ----- What holds of every reachable state -----

  /** The directories as they are, the file being written included. */
  function Dirs(s: System): Conversion.Tiers {
    s.tiers.(wal := s.tiers.wal[s.queue.output.fileId := s.queue.output.out.file])
  }

  /** What a reader gets for every file id, out of the store or the WAL. */
  function Views(g: Setting, s: System): Files {
    map i: nat | i in Dirs(s).wal.Keys + Dirs(s).store.Keys && Conversion.View(g.crypto, Dirs(s), i, g.verify).Some?
      :: Conversion.View(g.crypto, Dirs(s), i, g.verify).value
  }

  lemma CurrentOk(g: Setting, s: System, lay: Lay)
    requires InvWith(g.hash, g.cfg, s.queue, lay) && Tidy(g.hash, s.queue.output) && Filed(g, s.queue.output, s.tiers)
    ensures Conversion.FileOk(g.crypto, g.hash, Dirs(s), s.queue.output.fileId, s.queue.output.out.file)
  {
    hide InvWith, Tidy, Conversion.IsStoreOf, Conversion.RangeToRecord, HeaderBytes, IdWidth;
    var o := s.queue.output;
    CurrentNotFinished(g.hash, o);
    OutputOf(g.hash, g.cfg, s.queue, lay);
    if o.fileId in s.tiers.store {
      NothingWritten(g.hash, g.cfg, o, lay);
    }
  }

  lemma StandsInTiers(g: Setting, s: System, lay: Lay, i: nat)
    requires InvWith(g.hash, g.cfg, s.queue, lay) && Tidy(g.hash, s.queue.output) && Filed(g, s.queue.output, s.tiers)
    requires i in AllFiles(s.queue)
    ensures Conversion.FileOk(g.crypto, g.hash, Dirs(s), i, AllFiles(s.queue)[i])
  {
    hide InvWith, Tidy, Conversion.FileOk, TakenUp;
    if i == s.queue.output.fileId {
      CurrentOk(g, s, lay);
    } else {
      FileOkLocal(g, s.tiers, Dirs(s), i, s.queue.output.others[i]);
    }
  }

  lemma ViewAt(g: Setting, s: System, lay: Lay, i: nat)
    requires g.crypto.Lawful() && InvWith(g.hash, g.cfg, s.queue, lay) && Tidy(g.hash, s.queue.output) && Filed(g, s.queue.output, s.tiers)
    ensures i in AllFiles(s.queue) <==> i in Dirs(s).wal || i in Dirs(s).store
    ensures i in AllFiles(s.queue) ==> Conversion.View(g.crypto, Dirs(s), i, g.verify) == Some(AllFiles(s.queue)[i])
  {
    hide InvWith, Tidy, Conversion.FileOk, TakenUp, Conversion.View;
    if i in AllFiles(s.queue) {
      StandsInTiers(g, s, lay, i);
      SomewhereOf(g.crypto, g.hash, Dirs(s), i, AllFiles(s.queue)[i]);
      Conversion.ViewIsOriginal(g.crypto, g.hash, Dirs(s), i, AllFiles(s.queue)[i], g.verify);
    }
  }

  lemma ViewsAre(g: Setting, s: System, lay: Lay)
    requires g.crypto.Lawful() && InvWith(g.hash, g.cfg, s.queue, lay) && Tidy(g.hash, s.queue.output) && Filed(g, s.queue.output, s.tiers)
    ensures Views(g, s) == AllFiles(s.queue)
  {
    hide InvWith, Tidy, Filed, AllFiles, Dirs, Conversion.View;
    forall i: nat
      ensures i in Views(g, s) <==> i in AllFiles(s.queue)
      ensures i in AllFiles(s.queue) ==> i in Views(g, s) && Views(g, s)[i] == AllFiles(s.queue)[i]
    {
      ViewAt(g, s, lay, i);
    }
  }

  lemma ReachedInOrder(g: Setting, events: seq<Event>) returns (lay: Lay)
    requires g.crypto.Lawful() && CanAll(g, Begin(), events)
    ensures var s := AfterAll(g, Begin(), events); SystemInv(g, s) && InvWith(g.hash, g.cfg, s.queue, lay)
  {
    hide InvWith, CanAll, AfterAll, Begin, Tidy, EmptiesOk, ShortIds, Filed;
    BeginOk(g);
    var steps := RunKeepsSystem(g, Begin(), events);
    lay :| InvWith(g.hash, g.cfg, AfterAll(g, Begin(), events).queue, lay);
  }

  /**
   * In every reachable state, wherever conversions and crashes came in between, both tiers together
   * hold exactly the files that were written: each is in a tier, the current one included, and reads
   * as the bytes it was finished with.
   */
  lemma TiersHoldFiles(g: Setting, events: seq<Event>)
    requires g.crypto.Lawful() && CanAll(g, Begin(), events)
    ensures var s := AfterAll(g, Begin(), events);
            && Views(g, s) == AllFiles(s.queue)
            && forall i :: i in AllFiles(s.queue) ==> Conversion.FileOk(g.crypto, g.hash, Dirs(s), i, AllFiles(s.queue)[i])
  {
    hide InvWith, CanAll, AfterAll, Begin, Inv, Tidy, EmptiesOk, ShortIds, Filed, Views, Conversion.FileOk;
    var lay := ReachedInOrder(g, events);
    var s := AfterAll(g, Begin(), events);
    ViewsAre(g, s, lay);
    forall i | i in AllFiles(s.queue)
      ensures Conversion.FileOk(g.crypto, g.hash, Dirs(s), i, AllFiles(s.queue)[i])
    {
      StandsInTiers(g, s, lay, i);
    }
  }

  /** An entry is found in the files of both tiers. */
  ghost predicate InTiers(g: Setting, s: System, id: nat)
    requires id < |s.queue.log|
  {
    var all := DiskEntries(g.hash, Views(g, s), s.queue.output.fileId);
    id < |all| && all[id] == Entry(id, s.queue.log[id])
  }

  /** In every reachable state every assigned id is in memory or in the tiers; everything evicted or acknowledged is in the tiers. */
  lemma NothingLostInTiers(g: Setting, events: seq<Event>, id: nat)
    requires g.crypto.Lawful() && CanAll(g, Begin(), events) && id < |AfterAll(g, Begin(), events).queue.log|
    ensures var s := AfterAll(g, Begin(), events);
            && (InMemory(s.queue, id) || InTiers(g, s, id))
            && (id < s.queue.mem.Oldest() || id < s.queue.acked ==> InTiers(g, s, id))
  {
    hide InvWith, CanAll, AfterAll, Begin, Inv, Tidy, EmptiesOk, ShortIds, Filed, Views, DiskEntries, AllFiles;
    var lay := ReachedInOrder(g, events);
    var s := AfterAll(g, Begin(), events);
    ViewsAre(g, s, lay);
    HeldSomewhere(g.hash, g.cfg, s.queue, lay, id);
  }

  /** With fsync, over any run with conversions and crashes, an acknowledged entry keeps its id and its data and stays in the tiers. */
  lemma AckedStaysInTiers(g: Setting, s: System, events: seq<Event>)
    requires g.crypto.Lawful() && g.cfg.fsync && SystemInv(g, s) && CanAll(g, s, events)
    ensures var t := AfterAll(g, s, events);
            Keeps(s.queue, t.queue) && forall id :: 0 <= id < s.queue.acked ==> InTiers(g, t, id)
  {
    hide InvWith, CanAll, AfterAll, Tidy, EmptiesOk, ShortIds, Filed, Views, DiskEntries, AllFiles, CanRun, Run;
    var steps := RunKeepsSystem(g, s, events);
    AckedForever(g.hash, g.cfg, s.queue, steps);
    var t := AfterAll(g, s, events);
    var lay :| InvWith(g.hash, g.cfg, t.queue, lay);
    ViewsAre(g, t, lay);
    forall id | 0 <= id < s.queue.acked
      ensures InTiers(g, t, id)
    {
      assert OnDisk(g.hash, t.queue, id);
    }
  }

  /**
   * From every reachable state and every cut of the newest file, recovery over both tiers succeeds. It
   * decides as on the files as they were finished, resumes one past the greatest surviving id, and with
   * fsync above everything acknowledged.
   */
  lemma RecoversFromTiers(g: Setting, events: seq<Event>, left: Option<nat>, walLatest: Option<nat>, storeLatest: Option<nat>)
    requires g.crypto.Lawful() && CanAll(g, Begin(), events)
    requires var s := AfterAll(g, Begin(), events);
             CrashCut(s.queue.output, left) && IsLatest(DirsLeft(s, left).wal, walLatest) && IsLatest(DirsLeft(s, left).store, storeLatest)
    ensures var s, latest := AfterAll(g, Begin(), events), Max(walLatest, storeLatest);
            var files, r := StandFor(s, left), Recovered(g, s, left, latest);
            var all := DiskEntries(g.hash, files, if latest.Some? then latest.value else 0);
            && Can(g, s, Fail(left, walLatest, storeLatest)) && r == Resumed(g.hash, files, latest)
            && r.Next() == |all| && |all| <= |s.queue.log| && all == LogEntries(s.queue.log)[..|all|]
            && (g.cfg.fsync ==> s.queue.acked <= r.Next())
  {
    hide InvWith, CanAll, AfterAll, Begin, Inv, Tidy, EmptiesOk, ShortIds, Filed, DiskEntries, LogEntries, Resumed, Recovered, StandFor, DirsLeft,
      CrashCut, IsLatest, FilesLeft, Can, CanStep, LeftInEffect, After, Apply;
    var lay := ReachedInOrder(g, events);
    var s, latest := AfterAll(g, Begin(), events), Max(walLatest, storeLatest);
    OutputOf(g.hash, g.cfg, s.queue, lay);
    CutInside(s, left);
    StandForIs(g, s, lay, left);
    CutInside(s, LeftInEffect(s, left));
    FailDecides(g, s, lay, left, walLatest, storeLatest);
    FailIsCrash(g, s, lay, left, walLatest, storeLatest);
    CrashRecoversFrom(g.hash, g.cfg, s.queue, lay, LeftInEffect(s, left), latest);
  }

  /**
   * Recovery over both tiers goes on with the widths of the last file that holds an entry, so whatever
   * fitted that file fits the next one.
   */
  lemma ResumesWide(g: Setting, events: seq<Event>, left: Option<nat>, walLatest: Option<nat>, storeLatest: Option<nat>, j: nat)
    requires g.crypto.Lawful() && CanAll(g, Begin(), events)
    requires var s := AfterAll(g, Begin(), events);
             && CrashCut(s.queue.output, left) && IsLatest(DirsLeft(s, left).wal, walLatest) && IsLatest(DirsLeft(s, left).store, storeLatest)
             && IsLastWithEntries(g.hash, StandFor(s, left), j)
    ensures var s := AfterAll(g, Begin(), events);
            var hd, fail := HeaderFromReader(StandFor(s, left)[j]), Fail(left, walLatest, storeLatest);
            && hd.Ok? && Can(g, s, fail)
            && var q := After(g, s, fail).queue;
               && q.output.header == hd.value.0.(numEntriesBefore := |q.log|)
               && forall id, size :: hd.value.0.CanHold(id, size) ==> q.output.header.CanHold(id, size)
  {
    hide InvWith, CanAll, AfterAll, Begin, Inv, Tidy, EmptiesOk, Filed, DiskEntries, LogEntries, Resumed, StandFor, DirsLeft, HeaderFromReader,
      CrashCut, IsLatest, FilesLeft, LeftInEffect, HeaderBytes, ResumedTiers, IdWidth, IsLastWithEntries;
    var lay := ReachedInOrder(g, events);
    var s, latest := AfterAll(g, Begin(), events), Max(walLatest, storeLatest);
    OutputOf(g.hash, g.cfg, s.queue, lay);
    CutInside(s, left);
    StandForIs(g, s, lay, left);
    CutInside(s, LeftInEffect(s, left));
    FailDecides(g, s, lay, left, walLatest, storeLatest);
    FailIsCrash(g, s, lay, left, walLatest, storeLatest);
    CrashRecoversFrom(g.hash, g.cfg, s.queue, lay, LeftInEffect(s, left), latest);
    CrashResumesWide(g.hash, g.cfg, s.queue, lay, LeftInEffect(s, left), latest, j);
  }

  /**
   * The finished files are exactly those reported complete since the start, in order, and those before
   * the file the process started with, which it finds then. So every file a conversion touches is one of them.
   */
  lemma ReportedExactly(g: Setting, events: seq<Event>)
    requires g.crypto.Lawful() && CanAll(g, Begin(), events)
    ensures var s := AfterAll(g, Begin(), events);
            var o, t := s.queue.output, s.tiers;
            var started := o.fileId - |o.completed|;
            && started >= 1 && o.completed == IdsFrom(started, |o.completed|)
            && (forall i: nat :: i in o.others <==> i in o.completed || 1 <= i < started)
            && forall i :: i in t.wal || i in t.stages ==> i in o.completed || 1 <= i < started
  {
    hide InvWith, CanAll, AfterAll, Begin, Inv, EmptiesOk, ShortIds, CanRun, Run, Start, HeaderTrue, HeaderFromReader, EntriesIn, Conversion.FileOk, TakenUp;
    BeginOk(g);
    var steps := RunKeepsSystem(g, Begin(), events);
    assert Begin().queue == Start() && Reported(Start().output) by { StartReports(); }
    RunReports(g.hash, g.cfg, Start(), steps);
    var o := AfterAll(g, Begin(), events).queue.output;
    forall i: nat
      ensures i in o.completed <==> o.fileId - |o.completed| <= i < o.fileId
    {
      if o.fileId - |o.completed| <= i < o.fileId {
        assert o.completed[i - (o.fileId - |o.completed|)] == i;
      }
    }
  }

  lemma StartReports()
    ensures Begin().queue == Start() && Reported(Start().output)
  {
    hide HeaderBytes;
    StartOutput();
  }

  function Conversions(steps: seq<Conversion.Step>): (events: seq<Event>)
    ensures |events| == |steps| && forall i :: 0 <= i < |steps| ==> events[i] == Convert(steps[i])
  {
    seq(|steps|, i requires 0 <= i < |steps| => Convert(steps[i]))
  }

  lemma {:induction false} ConversionsRun(g: Setting, s: System, steps: seq<Conversion.Step>)
    requires Conversion.CanRun(g.crypto, g.hash, g.verify, s.tiers, steps) && forall i :: 0 <= i < |steps| ==> !steps[i].Crash?
    ensures CanAll(g, s, Conversions(steps))
    ensures AfterAll(g, s, Conversions(steps)) == s.(tiers := Conversion.Run(g.crypto, g.hash, g.verify, s.tiers, steps))
    decreases |steps|
  {
    hide Conversion.CanStep, Conversion.Apply, CanStep, Apply;
    if steps != [] {
      var t := Conversion.Apply(g.crypto, g.hash, g.verify, s.tiers, steps[0]);
      ConversionsRun(g, s.(tiers := t), steps[1..]);
      assert Conversions(steps)[1..] == Conversions(steps[1..]);
    }
  }

  /**
   * In every reachable state every finished file still in the WAL can be converted to the end, with any
   * packing that can be written. It is then in the store, packed as asked, with its range at hand, and gone from the WAL.
   */
  lemma EveryFileConverts(g: Setting, events: seq<Event>, i: nat, how: Conversion.Settings) returns (more: seq<Event>)
    requires g.crypto.Lawful() && CanAll(g, Begin(), events) && i in AfterAll(g, Begin(), events).tiers.wal
    requires how.compression == Plain || how.compression == Zstd
    ensures CanAll(g, AfterAll(g, Begin(), events), more)
    ensures var s := AfterAll(g, Begin(), events);
            var t := AfterAll(g, s, more);
            && t.queue == s.queue && i in t.tiers.store && Conversion.PackedAs(g.crypto, g.hash, i, how, s.tiers.wal[i], t.tiers.store[i])
            && i !in t.tiers.wal && i in t.tiers.ranges
  {
    hide InvWith, CanAll, AfterAll, Begin, Inv, EmptiesOk, Conversion.Converted, Conversion.RangeToRecord, Conversion.PackedAs, HeaderTrue, HeaderFromReader,
      EntriesIn, Conversion.FileOk, TakenUp, Conversion.CanRun, Conversion.Run, IdWidth, ContentOf, DiskEntries, HeaderFromBytes, Scan;
    var lay := ReachedInOrder(g, events);
    var s := AfterAll(g, Begin(), events);
    FileIsItself(g, s, i);
    FinishedConverts(g, s.queue, lay, i, how);
    var wal := s.tiers.wal[i];
    Conversion.ProcessingIsSteps(g.crypto, g.hash, g.verify, s.tiers, i, how);
    var n := |Conversion.Converted(g.crypto, g.hash, i, how, wal).value|;
    var steps := [Conversion.WriteTemp(i, how, n), Conversion.Rename(i, how), Conversion.Record(i), Conversion.DeleteWal(i)];
    ConversionsRun(g, s, steps);
    more := Conversions(steps);
    Conversion.ConvertedAsAsked(g.crypto, g.hash, i, how, wal);
  }

  lemma FileIsItself(g: Setting, s: System, i: nat)
    requires Filed(g, s.queue.output, s.tiers) && i in s.tiers.wal
    ensures i in s.queue.output.others && s.tiers.wal[i] == s.queue.output.others[i]
  {
    hide Conversion.IsStoreOf, Conversion.RangeToRecord, TakenUp;
    assert Conversion.FileOk(g.crypto, g.hash, s.tiers, i, s.queue.output.others[i]);
  }

  /** A finished file can be read and has a range to record, since the first file holds entries. */
  lemma FinishedConverts(g: Setting, s: Queue, lay: Lay, i: nat, how: Conversion.Settings)
    requires InvWith(g.hash, g.cfg, s, lay) && Tidy(g.hash, s.output) && ShortIds(s) && i in s.output.others
    requires how.compression == Plain || how.compression == Zstd
    ensures Conversion.Converted(g.crypto, g.hash, i, how, s.output.others[i]).Some?
    ensures Conversion.RangeToRecord(g.hash, s.output.others[i]).Some?
  {
    hide InvWith, DiskEntries, EntriesIn, IdWidth, ContentOf, HeaderFromReader, Pack, StoreFile, GoodFile, HeaderTrue, ShortIds;
    var hash, o := g.hash, s.output;
    assert GoodFile(hash, g.cfg, o.others[i]) by { FinishedGood(hash, g.cfg, s, lay, i); }
    ContentTells(hash, g.cfg, o.others, i);
    NumbersBounded(g, s, lay, i);
    EntriesAdd(hash, o.others, 1, i);
    LastFile(hash, o.others, i);
  }

  /** Without conversions this is the write path alone: its runs, with short ids, are runs of the whole. */
  lemma {:induction false} WritePathAlone(g: Setting, s: Queue, steps: seq<Step>) returns (events: seq<Event>)
    requires SystemInv(g, System(s, Conversion.Unconverted(s.output.others)))
    requires g.crypto.Lawful() && CanRun(g.hash, g.cfg, s, steps) && AllShort(g, s, steps)
    ensures CanAll(g, System(s, Conversion.Unconverted(s.output.others)), events)
    ensures var t := Run(g.hash, g.cfg, s, steps);
            AfterAll(g, System(s, Conversion.Unconverted(s.output.others)), events) == System(t, Conversion.Unconverted(t.output.others))
    decreases |steps|
  {
    hide SystemInv, Can, After, CanStep, Apply, ShortIds;
    var whole := System(s, Conversion.Unconverted(s.output.others));
    if steps == [] {
      events := [];
    } else {
      var event := EventFor(g, s, steps[0]);
      EventKeeps(g, whole, event);
      var rest := WritePathAlone(g, Apply(g.hash, g.cfg, s, steps[0]), steps[1..]);
      events := [event] + rest;
      assert events[0] == event && events[1..] == rest;
    }
  }

  /** Ids stay short all along a run. */
  ghost predicate AllShort(g: Setting, s: Queue, steps: seq<Step>)
    requires CanRun(g.hash, g.cfg, s, steps)
    decreases |steps|
  {
    steps != [] ==>
      var t := Apply(g.hash, g.cfg, s, steps[0]); ShortIds(t) && AllShort(g, t, steps[1..])
  }

  lemma EventFor(g: Setting, s: Queue, step: Step) returns (event: Event)
    requires SystemInv(g, System(s, Conversion.Unconverted(s.output.others)))
    requires g.crypto.Lawful() && CanStep(g.hash, g.cfg, s, step) && ShortIds(Apply(g.hash, g.cfg, s, step))
    ensures var t := Apply(g.hash, g.cfg, s, step);
            var whole := System(s, Conversion.Unconverted(s.output.others));
            Can(g, whole, event) && After(g, whole, event) == System(t, Conversion.Unconverted(t.output.others))
  {
    hide InvWith, Tidy, EmptiesOk, ShortIds, StorableId, Accepts, AfterEnqueue, AfterBatch, AfterAck, EntryBytes, TakeBlock, Resumed, ResumedTiers,
      MustRotate, CloseFile, HeaderBytes, IdWidth, Conversion.FileOk, Append;
    var whole := System(s, Conversion.Unconverted(s.output.others));
    if step.Crash? {
      event := Fail(step.left, step.latest, None);
      WalAlone(g.crypto, g.hash, g.verify, FilesLeft(s, step.left), step.latest);
    } else {
      event := Work(step);
    }
  }

  function Numbers(step: Step): nat {
    match step
    case Enqueue(_) => 1
    case EnqueueBatch(datas) => |datas|
    case _ => 0
  }

  /** How many entries a run enqueues. */
  function NumbersIn(steps: seq<Step>): nat {
    if steps == [] then 0 else Numbers(steps[0]) + NumbersIn(steps[1..])
  }

  lemma {:induction false} NumbersConcat(a: seq<Step>, b: seq<Step>)
    ensures NumbersIn(a + b) == NumbersIn(a) + NumbersIn(b)
  {
    if a == [] {
      assert a + b == b;
    } else {
      assert (a + b)[1..] == a[1..] + b;
      NumbersConcat(a[1..], b);
    }
  }

  lemma LogAfter(g: Setting, s: Queue, step: Step)
    requires CanStep(g.hash, g.cfg, s, step)
    ensures |Apply(g.hash, g.cfg, s, step).log| <= |s.log| + Numbers(step)
  {
    hide StorableId, Accepts, AfterEnqueue, AfterBatch, AfterAck, WriteOne, TakeBlock, FilesLeft, Resumed, CrashCut, IsLatest, HeaderBytes, MaxAck;
  }

  /** A run that enqueues few entries has short ids all along. */
  lemma {:induction false} FewIds(g: Setting, s: Queue, steps: seq<Step>, n: nat)
    requires CanRun(g.hash, g.cfg, s, steps) && |s.log| + NumbersIn(steps) <= n && IdWidth(n) <= 32
    ensures AllShort(g, s, steps)
    decreases |steps|
  {
    hide CanStep, Apply, IdWidth;
    if steps != [] {
      LogAfter(g, s, steps[0]);
      var t := Apply(g.hash, g.cfg, s, steps[0]);
      IdWidthMonotone(|t.log|, n);
      FewIds(g, t, steps[1..], n);
    }
  }
}
