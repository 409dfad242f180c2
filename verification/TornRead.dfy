/**
 * A run after which a read leaves out an acknowledged entry. Entry 1 is on its way to the first file
 * when the process dies; its header gets there, its record does not. After recovery another entry 1
 * is written to the second file, synced, acknowledged and evicted. A read of ids 0 and 1 takes the
 * header left in the first file for the end of its range.
 */
module TornRead {
  import opened Outcomes
  import opened Bytes
  import opened WalCodec
  import opened WalScan
  import opened WalReader
  import opened Selection
  import opened OrderedBuffering
  import opened AckFileWriting
  import opened MemQueues
  import opened Disk
  import opened WalWriting
  import opened Recovery
  import opened Durability
  import opened FileOrder
  import opened WholeSystem
  import opened DenseRead
  import opened EndToEnd
  import ReaderFsm
  import Lookup
  import Conversion = StoreConversion

  const Setup: Config := Config(1000, 0, true)

  /** The read asks for two entries, one after the other. */
  const LIMIT: ReaderFsm.Count := 2
  const STEP: ReaderFsm.Count := 1

  // ----- Writing one entry -----

  /** Nothing is on its way from memory to the file. */
  ghost predicate Idle(s: Queue) {
    && s.unsent == [] && s.channel == [] && s.toWrite == [] && s.ordering.pending == [] && s.ordering.Next() == |s.log|
    && s.output.out.inflight.None? && s.output.out.buffer == [] && s.output.out.acks == []
    && s.mem.Valid() && s.mem.NextId() == |s.log|
  }

  /** An entry is enqueued, submitted, received, written and taken by the flusher. */
  function WriteSteps(id: nat, data: Data): seq<Step> {
    [Enqueue(data)] + [Submit(0)] + [Receive(Ordering([], Some(id)), [Entry(id, data)])] + [WriteNext(true)] + [StartFlush]
  }

  /** The queue with an entry on its way to the current file. */
  ghost function OnItsWay(hash: Hash, cfg: Config, s: Queue, data: Data): Queue
    requires s.mem.Valid() && Fits(s.output.header, Entry(|s.log|, data))
  {
    var id, bytes := |s.log|, EntryBytes(hash, s.output.header, Entry(|s.log|, data));
    var out := s.output.out.(inflight := Some(Block(bytes, [id])), currentSize := s.output.out.currentSize + |bytes|);
    s.(log := s.log + [data], mem := AfterEnqueue(s.mem, cfg.maxMemory, data), ordering := Ordering([], Some(id)),
       output := s.output.(out := out, hasWritten := true))
  }

  lemma Released(hash: Hash, cfg: Config, s: Queue, data: Data)
    requires Idle(s) && StorableId(|s.log| + 1)
    ensures var id := |s.log|;
            var steps := [Enqueue(data)] + [Submit(0)] + [Receive(Ordering([], Some(id)), [Entry(id, data)])];
            && CanRun(hash, cfg, s, steps)
            && Run(hash, cfg, s, steps) == s.(log := s.log + [data], mem := AfterEnqueue(s.mem, cfg.maxMemory, data),
                                              ordering := Ordering([], Some(id)), toWrite := [Entry(id, data)])
  {
    hide CanRun, Run, AfterEnqueue, StorableId;
    var id, e := |s.log|, Entry(|s.log|, data);
    NoStepsFrom(hash, cfg, s);
    RunSnoc(hash, cfg, s, [], Enqueue(data));
    var steps := [Enqueue(data)];
    assert [] + steps == steps;
    RunSnoc(hash, cfg, s, steps, Submit(0));
    steps := steps + [Submit(0)];
    var t := Run(hash, cfg, s, steps);
    assert t.channel == [e] && t.unsent == [];
    RunSnoc(hash, cfg, s, steps, Receive(Ordering([], Some(id)), [e]));
  }

  lemma NoStepsFrom(hash: Hash, cfg: Config, s: Queue)
    ensures CanRun(hash, cfg, s, []) && Run(hash, cfg, s, []) == s
  {
  }

  lemma WriteRun(hash: Hash, cfg: Config, s: Queue, data: Data)
    requires Idle(s) && StorableId(|s.log|) && StorableId(|s.log| + 1) && !MustRotate(s.output, cfg, Entry(|s.log|, data))
    ensures Fits(s.output.header, Entry(|s.log|, data))
    ensures CanRun(hash, cfg, s, WriteSteps(|s.log|, data))
    ensures Run(hash, cfg, s, WriteSteps(|s.log|, data)) == OnItsWay(hash, cfg, s, data)
  {
    hide CanRun, Run, AfterEnqueue, StorableId, EntryBytes, Idle;
    Released(hash, cfg, s, data);
    var id, e := |s.log|, Entry(|s.log|, data);
    var steps := [Enqueue(data)] + [Submit(0)] + [Receive(Ordering([], Some(id)), [e])];
    RunSnoc(hash, cfg, s, steps, WriteNext(true));
    var t := Run(hash, cfg, s, steps);
    assert t.output == s.output && t.toWrite == [e];
    steps := steps + [WriteNext(true)];
    AppendToIdle(hash, cfg, s, e);
    var u := Run(hash, cfg, s, steps);
    assert [e][1..] == [] && s.output.sent[|s.output.sent|..] == [];
    RunSnoc(hash, cfg, s, steps, StartFlush);
  }

  lemma AppendToIdle(hash: Hash, cfg: Config, s: Queue, e: Entry)
    requires Idle(s) && StorableId(e.id) && !MustRotate(s.output, cfg, e)
    ensures Fits(s.output.header, e) && s.output.out.inflight.None?
    ensures var bytes := EntryBytes(hash, s.output.header, e);
            var o := WriteOne(s.output, hash, cfg, e, _ => true);
            && o == s.output.(out := Append(s.output.out, e.id, bytes), hasWritten := true)
            && TakeBlock(o.out) == s.output.out.(inflight := Some(Block(bytes, [e.id])), currentSize := s.output.out.currentSize + |bytes|)
            && s.unsent == [] && s.channel == [] && s.toWrite == [] && s.mem.Valid()
  {
    hide EntryBytes;
    var bytes := EntryBytes(hash, s.output.header, e);
    assert [] + bytes == bytes && [] + [e.id] == [e.id];
  }

  lemma {:induction false} RunConcat(hash: Hash, cfg: Config, s: Queue, a: seq<Step>, b: seq<Step>)
    requires CanRun(hash, cfg, s, a) && CanRun(hash, cfg, Run(hash, cfg, s, a), b)
    ensures CanRun(hash, cfg, s, a + b) && Run(hash, cfg, s, a + b) == Run(hash, cfg, Run(hash, cfg, s, a), b)
    decreases |a|
  {
    hide CanStep, Apply;
    if a == [] {
      assert a + b == b;
    } else {
      assert (a + b)[1..] == a[1..] + b;
      RunConcat(hash, cfg, Apply(hash, cfg, s, a[0]), a[1..], b);
    }
  }

  // ----- The first life -----

  function D(b: Byte): Data { [b] }

  lemma SmallIds()
    ensures IdWidth(0) == IdWidth(1) == IdWidth(2) == IdWidth(3) == 1
    ensures StorableId(0) && StorableId(1) && StorableId(2) && StorableId(3)
  {
  }

  /** After the first entry is written and acknowledged. */
  ghost predicate OneWritten(hash: Hash, s: Queue, a: Byte) {
    var e, hd := Entry(0, D(a)), DefaultHeader;
    && Idle(s) && s.log == [D(a)] && s.acked == 1
    && Fits(hd, e) && hd.Storable()
    && s.output.fileId == 1 && s.output.header == hd && s.output.others == map[] && s.output.hasWritten
    && s.output.out.file == HeaderBytes(hd) + EntryBytes(hash, hd, e)
    && s.output.out.synced == |s.output.out.file| == s.output.out.currentSize
  }

  lemma FirstEntry(hash: Hash, a: Byte)
    ensures var steps := WriteSteps(0, D(a)) + [FlushLands];
            CanRun(hash, Setup, Start(), steps) && OneWritten(hash, Run(hash, Setup, Start(), steps), a)
  {
    hide CanRun, Run, HeaderBytes, EntryBytes, Start, IdWidth;
    SmallIds();
    StartIdle();
    var s0, e := Start(), Entry(0, D(a));
    WriteRun(hash, Setup, s0, D(a));
    RunSnoc(hash, Setup, s0, WriteSteps(0, D(a)), FlushLands);
    PushValid(s0.mem, D(a));
    assert s0.log + [D(a)] == [D(a)];
    assert MaxAck(0, [0]) == 1 by { assert AllBelow([0], 1); }
  }

  lemma StartIdle()
    ensures Idle(Start()) && Start().log == [] && Start().acked == 0 && DefaultHeader.Storable() && Start().mem == NewMem(None)
    ensures Start().output == Output(1, DefaultHeader, false, NewFile(HeaderBytes(DefaultHeader)), map[], [], [])
  {
    hide HeaderBytes;
    StartOutput();
  }

  // ----- The crash -----

  /** How much of the first file survives: the header, the first entry, and the header of the second. */
  function CutAt(): nat {
    SmallIds();
    |HeaderBytes(DefaultHeader)| + 2 * EntryHeaderSize(DefaultHeader) + 1
  }

  lemma BothFit(a: Byte, b: Byte)
    ensures DefaultHeader.Storable() && AllFit(DefaultHeader, [Entry(0, D(a)), Entry(1, D(b))])
    ensures Fits(DefaultHeader, Entry(0, D(a))) && Fits(DefaultHeader, Entry(1, D(b)))
  {
    SmallIds();
    assert IdWidth(|D(a)|) == 1;
  }

  ghost function CutFile(hash: Hash, a: Byte, b: Byte): Bytes {
    BothFit(a, b);
    var hd := DefaultHeader;
    var whole := HeaderBytes(hd) + (EntryBytes(hash, hd, Entry(0, D(a))) + EntryBytes(hash, hd, Entry(1, D(b))));
    whole[..CutAt()]
  }

  lemma TwoEntryRun(hash: Hash, hd: WalHeader, x: Entry, y: Entry)
    requires Fits(hd, x) && Fits(hd, y)
    ensures AllFit(hd, [x, y]) && RunBytes(hash, hd, [x, y]) == EntryBytes(hash, hd, x) + EntryBytes(hash, hd, y)
  {
    hide EntryBytes, Fits;
    OneEntryRun(hash, hd, y);
    assert [x, y][1..] == [y];
  }

  lemma OneWholeTwoSeen(hd: WalHeader, x: Entry, y: Entry, k: nat)
    requires k == 2 * EntryHeaderSize(hd) + |x.data| && |y.data| > 0
    ensures WholeEntries(hd, [x, y], k) == 1 && HeadersSeen(hd, [x, y], k) == 2
  {
    assert [x, y][1..] == [y];
    assert WholeEntries(hd, [y], EntryHeaderSize(hd)) == 0 && HeadersSeen(hd, [y], EntryHeaderSize(hd)) == 1;
  }

  /** The file that is left holds entry 0 and shows the header of entry 1. */
  lemma CutFacts(hash: Hash, a: Byte, b: Byte)
    ensures var s, hd, es := CutFile(hash, a, b), DefaultHeader, [Entry(0, D(a)), Entry(1, D(b))];
            && IsCutOf(hash, s, hd, es, CutAt()) && |s| == CutAt() <= HEADER_READ_LIMIT
            && HeaderFromReader(s).Ok? && HeaderFromReader(s).value.0 == hd
            && ScanFile(hash, s) == [Entry(0, D(a))]
            && StoredAt(hash, map[1 := s], 1) == Stored(hd, [Entry(0, D(a))], true)
  {
    hide HeaderBytes, EntryBytes, RunBytes, HeaderFromReader, WholeEntries, HeadersSeen, EndsDamaged, IdWidth, ScanFile;
    SmallIds();
    BothFit(a, b);
    var s, hd, es := CutFile(hash, a, b), DefaultHeader, [Entry(0, D(a)), Entry(1, D(b))];
    TwoEntryRun(hash, hd, es[0], es[1]);
    assert IsCutOf(hash, s, hd, es, CutAt());
    var n := CutAt() - |HeaderBytes(hd)|;
    OneWholeTwoSeen(hd, es[0], es[1], n);
    HeaderStays(hash, hd, es, n);
    assert s == HeaderBytes(hd) + RunBytes(hash, hd, es)[..n];
    CutParts(hash, s, hd, es, CutAt());
    DamagedPrefix(hash, hd, es, n);
    assert es[..1] == [es[0]];
  }

  lemma HeaderStays(hash: Hash, hd: WalHeader, es: seq<Entry>, n: nat)
    requires hd.Storable() && AllFit(hd, es) && n <= |RunBytes(hash, hd, es)|
    ensures var s := HeaderBytes(hd) + RunBytes(hash, hd, es)[..n];
            && HeaderFromReader(s) == Ok((hd, |HeaderBytes(hd)|))
            && s == (HeaderBytes(hd) + RunBytes(hash, hd, es))[..|HeaderBytes(hd)| + n]
  {
    hide HeaderBytes, RunBytes, HeaderFromReader, Fits;
    HeaderRoundTrip(hd, RunBytes(hash, hd, es)[..n]);
  }

  function SecondHeader(): WalHeader {
    DefaultHeader.(numEntriesBefore := 1)
  }

  lemma ResumedAfterCut(hash: Hash, a: Byte, b: Byte)
    ensures Resumed(hash, map[1 := CutFile(hash, a, b)], Some(1)) == Resume(2, SecondHeader(), Some(0))
    ensures SecondHeader().Storable()
  {
    hide ScanFile, HeaderFromReader, IdWidth, WalRange;
    SmallIds();
    CutFacts(hash, a, b);
    var files := map[1 := CutFile(hash, a, b)];
    assert EntriesIn(hash, files, 1) == [Entry(0, D(a))];
    assert LastWithEntries(hash, files, 1) == 1;
    assert FileEnd(hash, files, 1) == Some(0);
  }

  /** The restarted queue: entry 0 is there, id 1 is free again. */
  ghost predicate Restarted(hash: Hash, s: Queue, a: Byte, b: Byte) {
    && Idle(s) && s.log == [D(a)] && s.acked == 1 && s.delivered == 0 && s.mem == NewMem(Some(0))
    && SecondHeader().Storable()
    && s.output == Output(2, SecondHeader(), false, NewFile(HeaderBytes(SecondHeader())), map[1 := CutFile(hash, a, b)], [], [])
  }

  lemma CrashAndRestart(hash: Hash, s: Queue, a: Byte, b: Byte)
    requires OneWritten(hash, s, a)
    ensures var steps := WriteSteps(1, D(b)) + [Crash(Some(CutAt()), Some(1))];
            CanRun(hash, Setup, s, steps) && Restarted(hash, Run(hash, Setup, s, steps), a, b)
  {
    hide CanRun, Run, HeaderBytes, EntryBytes, IdWidth, Resumed, AfterEnqueue, CutFile;
    SmallIds();
    BothFit(a, b);
    WriteRun(hash, Setup, s, D(b));
    var t, crash := OnItsWay(hash, Setup, s, D(b)), Crash(Some(CutAt()), Some(1));
    CrashLeaves(hash, s, a, b);
    ResumedAfterCut(hash, a, b);
    RunSnoc(hash, Setup, s, WriteSteps(1, D(b)), crash);
    var r := Resume(2, SecondHeader(), Some(0));
    assert t.log == [D(a)] + [D(b)] && t.log[..1] == [D(a)];
    assert FilesLeft(t, Some(CutAt())) - {2} == FilesLeft(t, Some(CutAt()));
  }

  lemma CrashLeaves(hash: Hash, s: Queue, a: Byte, b: Byte)
    requires OneWritten(hash, s, a)
    ensures Fits(s.output.header, Entry(|s.log|, D(b)))
    ensures var t := OnItsWay(hash, Setup, s, D(b));
            && CrashCut(t.output, Some(CutAt())) && FilesLeft(t, Some(CutAt())) == map[1 := CutFile(hash, a, b)]
            && IsLatest(FilesLeft(t, Some(CutAt())), Some(1))
  {
    hide HeaderBytes, EntryBytes, IdWidth, AfterEnqueue, Idle;
    SmallIds();
    BothFit(a, b);
    var hd := DefaultHeader;
    ConcatAssociates(HeaderBytes(hd), EntryBytes(hash, hd, Entry(0, D(a))), EntryBytes(hash, hd, Entry(1, D(b))));
  }

  // ----- The second life -----

  function AllSteps(a: Byte, b: Byte, c: Byte): seq<Step> {
    WriteSteps(0, D(a)) + [FlushLands] + (WriteSteps(1, D(b)) + [Crash(Some(CutAt()), Some(1))])
    + (WriteSteps(1, D(c)) + [FlushLands] + [DeliverAck])
  }

  /** In the end both ids are acknowledged, and memory holds neither. */
  ghost predicate BothAcked(hash: Hash, s: Queue, a: Byte, b: Byte, c: Byte) {
    && s.log == [D(a), D(c)] && s.acked == 2 && s.mem.Oldest() == 2 && s.mem.NextId() == 2
    && s.output.fileId == 2 && s.output.others == map[1 := CutFile(hash, a, b)]
  }

  lemma SecondLife(hash: Hash, s: Queue, a: Byte, b: Byte, c: Byte)
    requires Restarted(hash, s, a, b)
    ensures var steps := WriteSteps(1, D(c)) + [FlushLands] + [DeliverAck];
            CanRun(hash, Setup, s, steps) && BothAcked(hash, Run(hash, Setup, s, steps), a, b, c)
  {
    hide CanRun, Run, HeaderBytes, EntryBytes, IdWidth, CutFile;
    SmallIds();
    assert IdWidth(|D(c)|) == 1;
    WriteRun(hash, Setup, s, D(c));
    var steps := WriteSteps(1, D(c));
    RunSnoc(hash, Setup, s, steps, FlushLands);
    assert MaxAck(1, [1]) == 2 by { assert AllBelow([1], 2); }
    EvictOne(D(c));
    RunSnoc(hash, Setup, s, steps + [FlushLands], DeliverAck);
    assert [D(a)] + [D(c)] == [D(a), D(c)];
  }

  /** With no memory to spare an entry goes as soon as it is acknowledged. */
  lemma EvictOne(data: Data)
    requires |data| == 1
    ensures var m := AfterEnqueue(NewMem(Some(0)), 0, data);
            m.Valid() && AfterAck(m, 0, 1).Oldest() == 2 && AfterAck(m, 0, 1).NextId() == 2
  {
    PushValid(NewMem(Some(0)), data);
    var m := AfterEnqueue(NewMem(Some(0)), 0, data);
    assert m.entries == [Entry(1, data)] && m.entries[1..] == [];
    assert AckedFront(m.entries, 1) == 1;
  }

  lemma TheRun(hash: Hash, a: Byte, b: Byte, c: Byte)
    ensures CanRun(hash, Setup, Start(), AllSteps(a, b, c))
    ensures BothAcked(hash, Run(hash, Setup, Start(), AllSteps(a, b, c)), a, b, c)
  {
    hide CanRun, Run, OneWritten, Restarted, BothAcked, Start, WriteSteps;
    var one, two, three := WriteSteps(0, D(a)) + [FlushLands], WriteSteps(1, D(b)) + [Crash(Some(CutAt()), Some(1))],
                           WriteSteps(1, D(c)) + [FlushLands] + [DeliverAck];
    FirstEntry(hash, a);
    CrashAndRestart(hash, Run(hash, Setup, Start(), one), a, b);
    RunConcat(hash, Setup, Start(), one, two);
    SecondLife(hash, Run(hash, Setup, Start(), one + two), a, b, c);
    RunConcat(hash, Setup, Start(), one + two, three);
  }

  // ----- The read -----

  /** The lookup starts every read of id 0 in the first file. */
  lemma StartsInFirstFile(env: ReaderFsm.Env, s: Queue, layout: Lookup.Layout)
    requires Reads(env, s, layout) && s.output.fileId == 2
    requires var sh := ShapeOf(env.hash, s); sh.Offset(0) == 0 && sh.Offset(1) == 1
    ensures env.find(0) == Ok(Some(1))
  {
    hide Flat, StoredAt, ReaderFsm.Fetch, ReaderFsm.NothingAfter, LogEntries;
    var sh := ShapeOf(env.hash, s);
    assert InfoAgrees(layout, sh, 0) && InfoAgrees(layout, sh, 1);
    FindIs(env, sh, layout, 0);
  }

  lemma TornShape(hash: Hash, s: Queue, a: Byte, b: Byte, c: Byte)
    requires BothAcked(hash, s, a, b, c)
    ensures var sh := ShapeOf(hash, s);
            && |sh.files| == 2 && sh.Offset(0) == 0 && sh.Offset(1) == 1 && sh.files[0].torn && sh.TornEndAt(0, 1)
  {
    hide StoredAt, Flat, CutFile, LogEntries;
    CutFacts(hash, a, b);
    var files := AllFiles(s);
    SameStored(hash, map[1 := CutFile(hash, a, b)], files, 1);
    FileOffsets(hash, s, 1);
    NoFilesYet(hash, files);
    OffsetIsDisk(hash, s, 0);
  }

  lemma SameStored(hash: Hash, x: Files, y: Files, i: nat)
    requires i in x && i in y && x[i] == y[i]
    ensures StoredAt(hash, x, i) == StoredAt(hash, y, i)
  {
  }

  /** The queue after this run. */
  ghost function Final(hash: Hash, a: Byte, b: Byte, c: Byte): (s: Queue)
    ensures CanRun(hash, Setup, Start(), AllSteps(a, b, c)) && s == Run(hash, Setup, Start(), AllSteps(a, b, c))
    ensures s.log == [D(a), D(c)] && s.acked == 2
    ensures Selected(LogEntries(s.log), 0, Some(EndOf(0, 2, 1)), 1) == [Entry(0, D(a)), Entry(1, D(c))]
  {
    hide CanRun, Run, Start, AllSteps, LogEntries, Selected;
    TheRun(hash, a, b, c);
    BothWanted([D(a), D(c)], a, c);
    Run(hash, Setup, Start(), AllSteps(a, b, c))
  }

  /**
   * After this run entries 0 and 1 are acknowledged, and every reader of the state, asked for both,
   * ends with entry 0 only.
   */
  lemma AckedEntryLeftOut(env: ReaderFsm.Env, layout: Lookup.Layout, a: Byte, b: Byte, c: Byte, prefetching: bool)
    requires Reads(env, Final(env.hash, a, b, c), layout)
    ensures ReaderFsm.EndsWith(env, ReaderFsm.LookupPositive(0, LIMIT), STEP, prefetching, ReaderFsm.Move(ReaderFsm.Completed, [Entry(0, D(a))]))
  {
    hide CanRun, Run, Start, AllSteps, Reads, Flat, StoredAt, CutFile, ReaderFsm.EndsWith, LogEntries, Selected, ReadIsRight, ShapeOf, Final, InvWith, Tidy;
    TheRun(env.hash, a, b, c);
    var s := Final(env.hash, a, b, c);
    NotRight(env, s, layout, a, b, c);
    BothWanted(s.log, a, c);
    StartIsOk(env.hash, Setup);
    StartTidy(env.hash);
    RunTidy(env.hash, Setup, Start(), AllSteps(a, b, c));
    var lay :| InvWith(env.hash, Setup, s, lay);
    ReaderReturnsLog(env, layout, Setup, s, lay, 0, 2, 1, prefetching);
    var sent :| && [Entry(0, D(a)), Entry(1, D(c))] == sent + [Entry(1, s.log[1])]
                && ReaderFsm.EndsWith(env, ReaderFsm.LookupPositive(0, 2), 1, prefetching, ReaderFsm.Move(ReaderFsm.Completed, sent));
    OnlyTheFirst(sent, Entry(0, D(a)), Entry(1, D(c)));
  }

  /** The run takes the whole system there, without any conversion, and its own reader leaves the entry out. */
  lemma SystemLeavesOut(g: Setting, a: Byte, b: Byte, c: Byte, prefetching: bool) returns (events: seq<Event>)
    requires g.crypto.Lawful() && g.cfg == Setup
    ensures CanAll(g, Begin(), events)
    ensures var s := AfterAll(g, Begin(), events);
            && s.queue.log == [D(a), D(c)] && s.queue.acked == 2 && s.queue.output.fileId >= 1
            && ReaderFsm.EndsWith(TierEnv(g, s), ReaderFsm.LookupPositive(0, LIMIT), STEP, prefetching,
                                  ReaderFsm.Move(ReaderFsm.Completed, [Entry(0, D(a))]))
  {
    hide CanRun, Run, Start, AllSteps, ReaderFsm.EndsWith, LogEntries, Selected, Final, SystemInv, CanAll, AfterAll, Reads, TierEnv, TierLayout, AllShort,
      EntriesIn, Dirs;
    var q := Final(g.hash, a, b, c);
    BeginOk(g);
    StartAlone(g);
    FewEnqueued(a, b, c);
    FewIds(g, Start(), AllSteps(a, b, c), 3);
    events := WritePathAlone(g, Start(), AllSteps(a, b, c));
    var s := AfterAll(g, Begin(), events);
    ReaderExists(g, events);
    EnvIs(g, s);
    AckedEntryLeftOut(TierEnv(g, s), TierLayout(g, s), a, b, c, prefetching);
  }

  lemma StartAlone(g: Setting)
    ensures Begin() == System(Start(), Conversion.Unconverted(Start().output.others)) && Start().log == []
  {
    hide HeaderBytes;
    StartOutput();
  }

  lemma FewEnqueued(a: Byte, b: Byte, c: Byte)
    ensures NumbersIn(AllSteps(a, b, c)) == 3 && IdWidth(3) <= 32
  {
    hide NumbersIn, IdWidth;
    SmallIds();
    OneEnqueued(0, D(a));
    OneEnqueued(1, D(b));
    OneEnqueued(1, D(c));
    var one, two, three := WriteSteps(0, D(a)), WriteSteps(1, D(b)), WriteSteps(1, D(c));
    var crash := Crash(Some(CutAt()), Some(1));
    NoneEnqueued(FlushLands);
    NoneEnqueued(DeliverAck);
    NoneEnqueued(crash);
    NumbersConcat(one, [FlushLands]);
    NumbersConcat(two, [crash]);
    NumbersConcat(one + [FlushLands], two + [crash]);
    NumbersConcat(three, [FlushLands]);
    NumbersConcat(three + [FlushLands], [DeliverAck]);
    NumbersConcat(one + [FlushLands] + (two + [crash]), three + [FlushLands] + [DeliverAck]);
  }

  lemma NoneEnqueued(step: Step)
    requires Numbers(step) == 0
    ensures NumbersIn([step]) == 0
  {
    assert [step][1..] == [];
  }

  lemma OneEnqueued(id: nat, data: Data)
    ensures NumbersIn(WriteSteps(id, data)) == 1
  {
    hide NumbersIn;
    var receive := Receive(Ordering([], Some(id)), [Entry(id, data)]);
    FirstEnqueued(data);
    NoneEnqueued(Submit(0));
    NoneEnqueued(receive);
    NoneEnqueued(WriteNext(true));
    NoneEnqueued(StartFlush);
    NumbersConcat([Enqueue(data)], [Submit(0)]);
    NumbersConcat([Enqueue(data)] + [Submit(0)], [receive]);
    NumbersConcat([Enqueue(data)] + [Submit(0)] + [receive], [WriteNext(true)]);
    NumbersConcat([Enqueue(data)] + [Submit(0)] + [receive] + [WriteNext(true)], [StartFlush]);
  }

  lemma FirstEnqueued(data: Data)
    ensures NumbersIn([Enqueue(data)]) == 1
  {
    assert [Enqueue(data)][1..] == [];
  }

  lemma OnlyTheFirst(sent: seq<Entry>, x: Entry, y: Entry)
    requires [x, y] == sent + [y]
    ensures sent == [x]
  {
    assert sent == [x, y][..1];
  }

  lemma NotRight(env: ReaderFsm.Env, s: Queue, layout: Lookup.Layout, a: Byte, b: Byte, c: Byte)
    requires Reads(env, s, layout) && BothAcked(env.hash, s, a, b, c)
    ensures env.find(0) == Ok(Some(1)) && !ReadIsRight(ShapeOf(env.hash, s), s.mem, env.find(0), 0, EndOf(0, 2, 1), 1)
  {
    hide Flat, StoredAt, CutFile, LogEntries, Selected, NextAt, Reads;
    TornShape(env.hash, s, a, b, c);
    StartsInFirstFile(env, s, layout);
    assert !ShapeOf(env.hash, s).NoTornFrom(0, 1);
  }

  lemma BothWanted(log: seq<Data>, a: Byte, c: Byte)
    requires log == [D(a), D(c)]
    ensures Selected(LogEntries(log), 0, Some(EndOf(0, 2, 1)), 1) == [Entry(0, D(a)), Entry(1, D(c))]
  {
    hide Selected;
    assert LogEntries(log) == [Entry(0, D(a))] + [Entry(1, D(c))];
    SelectedConcat([Entry(0, D(a))], [Entry(1, D(c))], 0, Some(1), 1);
    OneWanted(Entry(0, D(a)), 0, 1, 1);
    OneWanted(Entry(1, D(c)), 0, 1, 1);
  }

  lemma OneWanted(e: Entry, from: nat, last: nat, step: ReaderFsm.Count)
    requires Wanted(e.id, from, Some(last), step)
    ensures Selected([e], from, Some(last), step) == [e]
  {
    assert [e][1..] == [];
  }
}
