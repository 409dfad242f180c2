/**
 * The write path as a whole: memory numbers entries, writers submit them in any order, the
 * reordering buffer releases them, the WAL writer files them, the flusher puts them on disk and
 * acknowledges them, memory lets go of them. Any of these may happen at any time, and at any time
 * the process may die, leave the newest file cut off, and start again.
 */
module Durability {
  import opened Outcomes
  import opened Bytes
  import opened WalCodec
  import opened WalScan
  import opened Selection
  import opened OrderedBuffering
  import opened AckFileWriting
  import opened MemQueues
  import opened Disk
  import opened WalWriting
  import opened Recovery

  /**
   * One queue. `log` is the data under every assigned id; `unsent` has been numbered but not yet
   * submitted, `channel` submitted, `toWrite` released; `delivered` acknowledgements of this life
   * have reached memory; ids below `acked` have been acknowledged, in this life or an earlier one.
   */
  datatype Queue = Queue(log: seq<Data>, mem: Mem, unsent: seq<Entry>, channel: seq<Entry>,
                         ordering: Ordering, toWrite: seq<Entry>, output: Output,
                         delivered: nat, acked: nat)

  datatype Step =
    | Enqueue(data: Data)
    | EnqueueBatch(datas: seq<Data>)
    | Submit(i: nat)
    | Receive(post: Ordering, ready: seq<Entry>)
    | WriteNext(lands: bool)
    | StartFlush
    | FlushLands
    | FlushFails
    | DeliverAck
    | Crash(left: Option<nat>, latest: Option<nat>)

  function LogEntries(log: seq<Data>): (es: seq<Entry>)
    ensures |es| == |log| && Numbered(es, 0)
    ensures forall i :: 0 <= i < |log| ==> es[i] == Entry(i, log[i])
  {
    seq(|log|, i requires 0 <= i < |log| => Entry(i, log[i]))
  }

  function NewEntries(first: nat, datas: seq<Data>): (es: seq<Entry>)
    ensures |es| == |datas|
    ensures forall i :: 0 <= i < |datas| ==> es[i] == Entry(first + i, datas[i])
  {
    seq(|datas|, i requires 0 <= i < |datas| => Entry(first + i, datas[i]))
  }

  function Drop<T>(s: seq<T>, i: nat): seq<T>
    requires i < |s|
  {
    s[..i] + s[i + 1..]
  }

  /** One more than the greatest acknowledged id. */
  function MaxAck(acked: nat, ids: seq<nat>): (r: nat)
    ensures acked <= r && AllBelow(ids, r)
    ensures forall bound: nat :: acked <= bound && AllBelow(ids, bound) ==> r <= bound
  {
    if ids == [] then acked
    else
      var last := ids[|ids| - 1];
      var rest := MaxAck(acked, ids[..|ids| - 1]);
      assert forall bound: nat :: AllBelow(ids, bound) ==> AllBelow(ids[..|ids| - 1], bound) && last < bound;
      if last < rest then rest else last + 1
  }

  /** A crash may take any part of the newest file that was not synced, even the file itself. */
  ghost predicate CrashCut(o: Output, left: Option<nat>) {
    if left.None? then o.out.synced == 0
    else o.out.synced <= left.value <= |o.out.file + o.out.InflightBytes()|
  }

  /** The file a crash leaves behind: a front part of what was on its way to it, or no file at all. */
  function FilesLeft(s: Queue, left: Option<nat>): Files
    requires left.Some? ==> left.value <= |s.output.out.file + s.output.out.InflightBytes()|
  {
    if left.None? then s.output.others
    else s.output.others[s.output.fileId := (s.output.out.file + s.output.out.InflightBytes())[..left.value]]
  }

  ghost predicate CanStep(hash: Hash, cfg: Config, s: Queue, step: Step) {
    match step
    case Enqueue(_) => s.mem.Valid() && StorableId(|s.log| + 1)
    case EnqueueBatch(datas) => s.mem.Valid() && StorableId(|s.log| + |datas|)
    case Submit(i) => i < |s.unsent|
    case Receive(post, ready) => s.channel != [] && s.toWrite == [] && Accepts(s.ordering, s.channel[0], post, ready)
    case WriteNext(_) => s.toWrite != [] && StorableId(s.toWrite[0].id)
    case StartFlush => s.output.out.inflight.None?
    case FlushLands => s.output.out.inflight.Some?
    case FlushFails => s.output.out.inflight.Some?
    case DeliverAck => s.delivered < |s.output.sent| && s.mem.Valid()
    case Crash(left, latest) =>
      && CrashCut(s.output, left)
      && IsLatest(FilesLeft(s, left), latest)
      && Resumed(hash, FilesLeft(s, left), latest).header.Storable()
  }

  /** A queue started on the files of an earlier life. */
  function Restart(log: seq<Data>, files: Files, r: Resume, acked: nat): Queue
    requires r.header.Storable()
  {
    Queue(if r.Next() <= |log| then log[..r.Next()] else log, NewMem(r.lastEntry), [], [],
          Ordering([], r.lastEntry), [],
          Output(r.fileId, r.header, false, NewFile(HeaderBytes(r.header)), files - {r.fileId}, [], []),
          0, if r.Next() < acked then r.Next() else acked)
  }

  ghost function Apply(hash: Hash, cfg: Config, s: Queue, step: Step): Queue
    requires CanStep(hash, cfg, s, step)
  {
    match step
    case Enqueue(data) =>
      s.(log := s.log + [data], mem := AfterEnqueue(s.mem, cfg.maxMemory, data),
         unsent := s.unsent + [Entry(|s.log|, data)])
    case EnqueueBatch(datas) =>
      s.(log := s.log + datas, mem := AfterBatch(s.mem, cfg.maxMemory, datas),
         unsent := s.unsent + NewEntries(|s.log|, datas))
    case Submit(i) =>
      s.(unsent := Drop(s.unsent, i), channel := s.channel + [s.unsent[i]])
    case Receive(post, ready) =>
      s.(channel := s.channel[1..], ordering := post, toWrite := ready)
    case WriteNext(lands) =>
      var o := WriteOne(s.output, hash, cfg, s.toWrite[0], _ => lands);
      s.(toWrite := s.toWrite[1..], output := o,
         acked := if |s.output.sent| <= |o.sent| then MaxAck(s.acked, o.sent[|s.output.sent|..]) else s.acked)
    case StartFlush =>
      s.(output := s.output.(out := TakeBlock(s.output.out)))
    case FlushLands =>
      var acks := s.output.out.inflight.value.acks;
      s.(output := s.output.(out := BlockLanded(s.output.out, cfg.fsync), sent := s.output.sent + acks),
         acked := MaxAck(s.acked, acks))
    case FlushFails =>
      s.(output := s.output.(out := BlockFailed(s.output.out)))
    case DeliverAck =>
      s.(mem := AfterAck(s.mem, cfg.maxMemory, s.output.sent[s.delivered]), delivered := s.delivered + 1)
    case Crash(left, latest) =>
      var files := FilesLeft(s, left);
      Restart(s.log, files, Resumed(hash, files, latest), s.acked)
  }

  /** A new queue, without any file. */
  function Start(): Queue {
    DefaultIsStorable();
    Restart([], map[], Resume(1, DefaultHeader, None), 0)
  }

  lemma DefaultIsStorable()
    ensures DefaultHeader.Storable() && StorableId(0)
  {
  }

  // ----- The invariant -----

  /** Memory holds the newest entries, from its oldest id on. */
  ghost predicate MemOk(s: Queue) {
    && s.mem.Valid() && s.mem.AcksAssigned() && s.mem.NextId() == |s.log|
    && s.mem.entries == LogEntries(s.log)[s.mem.Oldest()..]
    && StorableId(|s.log|)
  }

  /** What was released is in the files or on its way, in order; the rest is still to be released. */
  ghost predicate FlowOk(hash: Hash, s: Queue, lay: Lay)
    requires s.output.fileId >= 1
  {
    && s.ordering.Next() <= |s.log|
    && Content(hash, s.output, lay) + s.toWrite == LogEntries(s.log)[..s.ordering.Next()]
    && multiset(s.ordering.pending) + multiset(s.channel) + multiset(s.unsent)
       == multiset(LogEntries(s.log)[s.ordering.Next()..])
  }

  /** With fsync, whatever is acknowledged in the newest file is synced; without, nothing is. */
  ghost predicate SyncOk(cfg: Config, s: Queue) {
    if cfg.fsync then s.acked <= s.output.header.numEntriesBefore || s.output.out.synced == |s.output.out.file|
    else s.output.out.synced == 0
  }

  /** Only entries in files are acknowledged, and only acknowledged or recovered ones leave memory. */
  ghost predicate AcksOk(hash: Hash, cfg: Config, s: Queue, lay: Lay)
    requires s.output.fileId >= 1
  {
    && s.delivered <= |s.output.sent| && AllBelow(s.output.sent, s.acked)
    && (s.mem.lastAcked.Some? ==> s.mem.lastAcked.value < s.acked)
    && s.acked <= Durable(hash, s.output, lay)
    && s.mem.Oldest() <= Durable(hash, s.output, lay)
    && SyncOk(cfg, s)
  }

  ghost predicate InvWith(hash: Hash, cfg: Config, s: Queue, lay: Lay) {
    && OutputInv(hash, cfg, s.output, lay)
    && MemOk(s)
    && FlowOk(hash, s, lay)
    && AcksOk(hash, cfg, s, lay)
  }

  ghost predicate Inv(hash: Hash, cfg: Config, s: Queue) {
    exists lay :: InvWith(hash, cfg, s, lay)
  }

  // ----- Memory steps -----

  lemma OldestIs(m: Mem)
    requires m.Valid()
    ensures m.Oldest() == m.NextId() - |m.entries|
  {
  }

  /** Letting go of acknowledged entries keeps memory the tail of the log. */
  lemma CleanupKeepsTail(m: Mem, max: nat, all: seq<Entry>)
    requires m.Valid() && m.AcksAssigned() && m.NextId() == |all| && m.entries == all[m.Oldest()..]
    ensures var r := Cleanup(m, max);
            && r.Valid() && r.AcksAssigned() && r.NextId() == |all| && r.lastAcked == m.lastAcked
            && r.entries == all[r.Oldest()..]
            && (r.Oldest() == m.Oldest() || (m.lastAcked.Some? && r.Oldest() <= m.lastAcked.value + 1))
  {
    hide Cleanup;
    CleanupValid(m, max);
    CleanupDropsAcked(m, max);
    OldestIs(m);
    OldestIs(Cleanup(m, max));
  }

  lemma EnqueueMem(s: Queue, max: nat, data: Data)
    requires MemOk(s) && StorableId(|s.log| + 1)
    ensures var s' := s.(log := s.log + [data], mem := AfterEnqueue(s.mem, max, data));
            && MemOk(s') && s'.mem.lastAcked == s.mem.lastAcked
            && (s'.mem.Oldest() == s.mem.Oldest() || (s.mem.lastAcked.Some? && s'.mem.Oldest() <= s.mem.lastAcked.value + 1))
  {
    hide Cleanup, IdWidth;
    PushValid(s.mem, data);
    var m, all := Push(s.mem, data), LogEntries(s.log + [data]);
    OldestIs(s.mem);
    OldestIs(m);
    assert m.entries == all[m.Oldest()..];
    CleanupKeepsTail(m, max, all);
  }

  lemma LogGrows(log: seq<Data>, data: Data)
    ensures LogEntries(log + [data]) == LogEntries(log) + [Entry(|log|, data)]
  {
  }

  lemma EnqueueFlow(hash: Hash, s: Queue, lay: Lay, data: Data, mem: Mem)
    requires s.output.fileId >= 1 && FlowOk(hash, s, lay)
    ensures FlowOk(hash, s.(log := s.log + [data], mem := mem, unsent := s.unsent + [Entry(|s.log|, data)]), lay)
  {
    hide Content;
    var n, e := s.ordering.Next(), Entry(|s.log|, data);
    LogGrows(s.log, data);
    var all := LogEntries(s.log);
    assert (all + [e])[..n] == all[..n];
    assert (all + [e])[n..] == all[n..] + [e];
    SnocMultiset(s.ordering.pending, s.channel, s.unsent, e, all[n..]);
  }

  lemma SnocMultiset(a: seq<Entry>, b: seq<Entry>, c: seq<Entry>, e: Entry, all: seq<Entry>)
    requires multiset(a) + multiset(b) + multiset(c) == multiset(all)
    ensures multiset(a) + multiset(b) + multiset(c + [e]) == multiset(all + [e])
  {
    assert multiset(c + [e]) == multiset(c) + multiset{e};
    assert multiset(all + [e]) == multiset(all) + multiset{e};
  }

  lemma EnqueueKeeps(hash: Hash, cfg: Config, s: Queue, lay: Lay, data: Data)
    requires InvWith(hash, cfg, s, lay) && CanStep(hash, cfg, s, Enqueue(data))
    ensures InvWith(hash, cfg, Apply(hash, cfg, s, Enqueue(data)), lay)
  {
    hide OutputInv, MemOk, FlowOk, Content, Durable, AfterEnqueue;
    OutputHasContent(hash, cfg, s.output, lay);
    assert s.mem.Valid();
    EnqueueMem(s, cfg.maxMemory, data);
    EnqueueFlow(hash, s, lay, data, AfterEnqueue(s.mem, cfg.maxMemory, data));
    var s' := Apply(hash, cfg, s, Enqueue(data));
    MemOkOf(s.(log := s.log + [data], mem := AfterEnqueue(s.mem, cfg.maxMemory, data)), s');
  }

  lemma MemOkOf(s: Queue, s': Queue)
    requires MemOk(s) && s'.log == s.log && s'.mem == s.mem
    ensures MemOk(s')
  {
  }

  lemma StorableBelow(a: nat, b: nat)
    requires a <= b && StorableId(b)
    ensures StorableId(a)
  {
    IdWidthMonotone(a, b);
  }

  /** The queue after a batch, with memory looked after once per entry. */
  ghost function EnqueuedEach(s: Queue, max: nat, datas: seq<Data>): Queue
    requires s.mem.Valid()
  {
    s.(log := s.log + datas, mem := AfterEach(s.mem, max, datas), unsent := s.unsent + NewEntries(|s.log|, datas))
  }

  lemma {:induction false} EachKeeps(hash: Hash, cfg: Config, s: Queue, lay: Lay, datas: seq<Data>)
    requires InvWith(hash, cfg, s, lay) && StorableId(|s.log| + |datas|)
    ensures s.mem.Valid() && InvWith(hash, cfg, EnqueuedEach(s, cfg.maxMemory, datas), lay)
    decreases |datas|
  {
    hide InvWith, AfterEnqueue, EnqueuedEach, StorableId;
    ValidOf(hash, cfg, s, lay);
    if datas == [] {
      NothingEnqueued(s, cfg.maxMemory);
    } else {
      StorableBelow(|s.log| + 1, |s.log| + |datas|);
      EnqueueKeeps(hash, cfg, s, lay, datas[0]);
      var s1 := Apply(hash, cfg, s, Enqueue(datas[0]));
      EachKeeps(hash, cfg, s1, lay, datas[1..]);
      EachIsNext(s, cfg.maxMemory, datas);
    }
  }

  lemma ValidOf(hash: Hash, cfg: Config, s: Queue, lay: Lay)
    requires InvWith(hash, cfg, s, lay)
    ensures s.mem.Valid() && s.mem.AcksAssigned()
  {
    hide OutputInv, FlowOk, AcksOk;
  }

  lemma NothingEnqueued(s: Queue, max: nat)
    requires s.mem.Valid()
    ensures EnqueuedEach(s, max, []) == s
  {
  }

  lemma EachIsNext(s: Queue, max: nat, datas: seq<Data>)
    requires s.mem.Valid() && datas != []
    ensures var s1 := s.(log := s.log + [datas[0]], mem := AfterEnqueue(s.mem, max, datas[0]),
                         unsent := s.unsent + [Entry(|s.log|, datas[0])]);
            s1.mem.Valid() && EnqueuedEach(s1, max, datas[1..]) == EnqueuedEach(s, max, datas)
  {
    hide Cleanup;
    PushValid(s.mem, datas[0]);
    CleanupValid(Push(s.mem, datas[0]), max);
    assert s.log + [datas[0]] + datas[1..] == s.log + datas;
    assert s.unsent + [Entry(|s.log|, datas[0])] + NewEntries(|s.log| + 1, datas[1..]) == s.unsent + NewEntries(|s.log|, datas);
  }

  lemma BatchKeeps(hash: Hash, cfg: Config, s: Queue, lay: Lay, datas: seq<Data>)
    requires InvWith(hash, cfg, s, lay) && CanStep(hash, cfg, s, EnqueueBatch(datas))
    ensures InvWith(hash, cfg, Apply(hash, cfg, s, EnqueueBatch(datas)), lay)
  {
    hide InvWith, AfterBatch, AfterEach, StorableId;
    ValidOf(hash, cfg, s, lay);
    EachKeeps(hash, cfg, s, lay, datas);
    BatchIsOneByOne(s.mem, cfg.maxMemory, datas);
  }

  // ----- The way to the writer -----

  lemma SubmitKeeps(hash: Hash, cfg: Config, s: Queue, lay: Lay, i: nat)
    requires InvWith(hash, cfg, s, lay) && CanStep(hash, cfg, s, Submit(i))
    ensures InvWith(hash, cfg, Apply(hash, cfg, s, Submit(i)), lay)
  {
    hide OutputInv, Content, Durable, LogEntries;
    OutputHasContent(hash, cfg, s.output, lay);
    var s' := Apply(hash, cfg, s, Submit(i));
    Moved(s.channel, s.unsent, i);
    MemOkOf(s, s');
    assert multiset(s.ordering.pending) + multiset(s'.channel) + multiset(s'.unsent)
        == multiset(s.ordering.pending) + (multiset(s'.channel) + multiset(s'.unsent));
  }

  lemma Moved(to: seq<Entry>, from: seq<Entry>, i: nat)
    requires i < |from|
    ensures multiset(to + [from[i]]) + multiset(Drop(from, i)) == multiset(to) + multiset(from)
  {
    assert from == from[..i] + ([from[i]] + from[i + 1..]);
    assert multiset(from) == multiset(from[..i]) + (multiset{from[i]} + multiset(from[i + 1..]));
    assert multiset(Drop(from, i)) == multiset(from[..i]) + multiset(from[i + 1..]);
    assert multiset(to + [from[i]]) == multiset(to) + multiset{from[i]};
  }

  /** What the buffer releases is the next piece of the log, and the rest stays to be released. */
  lemma ReleasedIsNext(pre: Ordering, post: Ordering, channel: seq<Entry>, unsent: seq<Entry>, ready: seq<Entry>,
                       ids: seq<Entry>)
    requires channel != [] && Accepts(pre, channel[0], post, ready) && Numbered(ids, pre.Next())
    requires multiset(pre.pending) + multiset(channel) + multiset(unsent) == multiset(ids)
    ensures post.Next() == pre.Next() + |ready| && |ready| <= |ids| && ready == ids[..|ready|]
    ensures multiset(post.pending) + multiset(channel[1..]) + multiset(unsent) == multiset(ids[|ready|..])
  {
    AcceptsConserves(pre, channel[0], post, ready);
    assert channel == [channel[0]] + channel[1..];
    assert multiset(channel) == multiset{channel[0]} + multiset(channel[1..]);
    var rest := multiset(post.pending) + multiset(channel[1..]) + multiset(unsent);
    ReleaseRegroups(multiset(pre.pending), multiset{channel[0]}, multiset(channel[1..]), multiset(unsent),
                    multiset(ready), multiset(post.pending));
    FrontOfRange(ready, ids, pre.Next(), rest);
    assert ids == ids[..|ready|] + ids[|ready|..];
    assert multiset(ids) == multiset(ready) + multiset(ids[|ready|..]);
    Cancel(multiset(ready), rest, multiset(ids[|ready|..]));
  }

  lemma Cancel(a: multiset<Entry>, b: multiset<Entry>, c: multiset<Entry>)
    requires a + b == a + c
    ensures b == c
  {
    forall x: Entry
      ensures b[x] == c[x]
    {
      assert (a + b)[x] == (a + c)[x];
    }
  }

  lemma ReleaseRegroups(pending: multiset<Entry>, one: multiset<Entry>, channel: multiset<Entry>, unsent: multiset<Entry>,
                 ready: multiset<Entry>, end: multiset<Entry>)
    requires pending + one == ready + end
    ensures ready + (end + channel + unsent) == pending + (one + channel) + unsent
  {
    assert ready + (end + channel + unsent) == (ready + end) + channel + unsent;
  }

  lemma ReceiveFlow(hash: Hash, s: Queue, lay: Lay, post: Ordering, ready: seq<Entry>)
    requires s.output.fileId >= 1 && FlowOk(hash, s, lay)
    requires s.channel != [] && s.toWrite == [] && Accepts(s.ordering, s.channel[0], post, ready)
    ensures FlowOk(hash, s.(channel := s.channel[1..], ordering := post, toWrite := ready), lay)
  {
    hide Content, Accepts, LogEntries, Numbered;
    var all, n := LogEntries(s.log), s.ordering.Next();
    TailNumbered(all, n);
    ReleasedIsNext(s.ordering, post, s.channel, s.unsent, ready, all[n..]);
    FrontGrows(all, n, |ready|);
    assert Content(hash, s.output, lay) == all[..n];
  }

  lemma TailNumbered(all: seq<Entry>, n: nat)
    requires Numbered(all, 0) && n <= |all|
    ensures Numbered(all[n..], n)
  {
  }

  lemma FrontGrows(all: seq<Entry>, n: nat, k: nat)
    requires n + k <= |all|
    ensures all[..n] + all[n..][..k] == all[..n + k] && all[n..][k..] == all[n + k..]
  {
  }

  lemma ReceiveKeeps(hash: Hash, cfg: Config, s: Queue, lay: Lay, post: Ordering, ready: seq<Entry>)
    requires InvWith(hash, cfg, s, lay) && CanStep(hash, cfg, s, Receive(post, ready))
    ensures InvWith(hash, cfg, Apply(hash, cfg, s, Receive(post, ready)), lay)
  {
    hide OutputInv, FlowOk, MemOk, Durable, Accepts, AllBelow;
    OutputHasContent(hash, cfg, s.output, lay);
    ReceiveFlow(hash, s, lay, post, ready);
    MemOkOf(s, Apply(hash, cfg, s, Receive(post, ready)));
  }

  // ----- The writer -----

  lemma NextToWrite(hash: Hash, s: Queue, lay: Lay)
    requires s.output.fileId >= 1 && FlowOk(hash, s, lay) && s.toWrite != []
    ensures s.toWrite[0].id == |Content(hash, s.output, lay)|
  {
    hide Content;
    var all, c := LogEntries(s.log)[..s.ordering.Next()], Content(hash, s.output, lay);
    assert all[|c|] == s.toWrite[0];
  }

  lemma WriteNextKeeps(hash: Hash, cfg: Config, s: Queue, lay: Lay, lands: bool) returns (lay': Lay)
    requires InvWith(hash, cfg, s, lay) && CanStep(hash, cfg, s, WriteNext(lands))
    ensures InvWith(hash, cfg, Apply(hash, cfg, s, WriteNext(lands)), lay')
  {
    hide MemOk, StorableId, OutputInv, Content, Durable, WriteOne, AllBelow, LogEntries, SyncOk, MustRotate;
    OutputHasContent(hash, cfg, s.output, lay);
    NextToWrite(hash, s, lay);
    var e := s.toWrite[0];
    WriteOneKeeps(hash, cfg, s.output, lay, e, _ => lands);
    var s' := Apply(hash, cfg, s, WriteNext(lands));
    lay' := LayAfter(s.output, cfg, lay, e);
    OutputHasContent(hash, cfg, s'.output, lay');
    MemOkOf(s, s');
    var c := Content(hash, s.output, lay);
    assert c + [e] + s.toWrite[1..] == c + s.toWrite;
    SentBelow(s.output.sent, s'.output.sent, s.acked, s'.acked);
    assert s'.acked <= Durable(hash, s'.output, lay');
    NewFileHasNone(hash, cfg, s'.output, lay');
    WriteKeepsFile(s.output, hash, cfg, e, _ => lands);
    assert SyncOk(cfg, s') by {
      assert SyncOk(cfg, s);
      if !MustRotate(s.output, cfg, e) {
        assert s.output.sent[|s.output.sent|..] == [];
      }
      SyncStays(cfg, s, s', MustRotate(s.output, cfg, e));
    }
  }

  lemma NewFileHasNone(hash: Hash, cfg: Config, o: Output, lay: Lay)
    requires OutputInv(hash, cfg, o, lay)
    ensures o.fileId >= 1 && (lay.inFile == [] ==> Durable(hash, o, lay) == o.header.numEntriesBefore)
  {
    hide Laid, DiskEntries, Numbered;
  }

  /** Writing an entry changes the bytes of the file only by starting a new one. */
  lemma WriteKeepsFile(o: Output, hash: Hash, cfg: Config, e: Entry, lands: nat -> bool)
    requires StorableId(e.id)
    ensures var r := WriteOne(o, hash, cfg, e, lands);
            if MustRotate(o, cfg, e) then r.out.synced == 0
            else r.out.synced == o.out.synced && r.out.file == o.out.file && r.header == o.header && r.sent == o.sent
  {
    hide EntryBytes, CloseFile, HeaderBytes, MustRotate;
  }

  lemma SyncStays(cfg: Config, s: Queue, s': Queue, rotated: bool)
    requires SyncOk(cfg, s)
    requires rotated ==> s'.output.out.synced == 0 && s'.acked <= s'.output.header.numEntriesBefore
    requires !rotated ==> s'.acked == s.acked && s'.output.header == s.output.header
    requires !rotated ==> s'.output.out.synced == s.output.out.synced && s'.output.out.file == s.output.out.file
    ensures SyncOk(cfg, s')
  {
  }

  lemma SentBelow(a: seq<nat>, b: seq<nat>, m: nat, n: nat)
    requires a <= b && AllBelow(a, m) && m <= n && AllBelow(b[|a|..], n)
    ensures AllBelow(b, n)
  {
    forall i | 0 <= i < |b|
      ensures b[i] < n
    {
      assert i >= |a| ==> b[i] == b[|a|..][i - |a|];
    }
  }

  // ----- The flusher -----

  /** Moving entries along inside the current file changes nothing about the output as a whole. */
  lemma OutputMoves(hash: Hash, cfg: Config, o: Output, lay: Lay, out: AckState, lay': Lay, sent: seq<nat>)
    requires OutputInv(hash, cfg, o, lay) && Laid(out, hash, o.header, lay')
    requires lay'.All() == lay.All() && out.currentSize == o.out.currentSize
    ensures o.fileId >= 1
    ensures var o' := o.(out := out, sent := sent);
            OutputInv(hash, cfg, o', lay') && Content(hash, o', lay') == Content(hash, o, lay)
  {
    hide Laid, DiskEntries, Numbered;
  }

  lemma LaidOf(hash: Hash, cfg: Config, o: Output, lay: Lay)
    requires OutputInv(hash, cfg, o, lay)
    ensures o.fileId >= 1 && Laid(o.out, hash, o.header, lay)
    ensures o.header.numEntriesBefore == |DiskEntries(hash, o.others, o.fileId - 1)|
    ensures Numbered(lay.All(), o.header.numEntriesBefore)
  {
    hide Laid, DiskEntries;
    CurrentNumbered(hash, o, lay);
  }

  lemma StartFlushKeeps(hash: Hash, cfg: Config, s: Queue, lay: Lay)
    requires InvWith(hash, cfg, s, lay) && CanStep(hash, cfg, s, StartFlush)
    ensures InvWith(hash, cfg, Apply(hash, cfg, s, StartFlush),
                    if lay.inBuffer == [] then lay else Lay(lay.inFile, lay.inBuffer, []))
  {
    hide OutputInv, Content, Laid, LogEntries;
    LaidOf(hash, cfg, s.output, lay);
    LaidFlight(s.output.out, hash, s.output.header, lay);
    TakeBlockLaid(s.output.out, hash, s.output.header, lay);
    var lay' := if lay.inBuffer == [] then lay else Lay(lay.inFile, lay.inBuffer, []);
    assert lay'.All() == lay.All();
    OutputMoves(hash, cfg, s.output, lay, TakeBlock(s.output.out), lay', s.output.sent);
    MemOkOf(s, Apply(hash, cfg, s, StartFlush));
  }

  lemma FlushFailsKeeps(hash: Hash, cfg: Config, s: Queue, lay: Lay)
    requires InvWith(hash, cfg, s, lay) && CanStep(hash, cfg, s, FlushFails)
    ensures InvWith(hash, cfg, Apply(hash, cfg, s, FlushFails), Lay(lay.inFile, [], lay.inFlight + lay.inBuffer))
  {
    hide OutputInv, Content, Laid, LogEntries;
    LaidOf(hash, cfg, s.output, lay);
    BlockFailedLaid(s.output.out, hash, s.output.header, lay);
    var lay' := Lay(lay.inFile, [], lay.inFlight + lay.inBuffer);
    assert lay'.All() == lay.All();
    OutputMoves(hash, cfg, s.output, lay, BlockFailed(s.output.out), lay', s.output.sent);
    MemOkOf(s, Apply(hash, cfg, s, FlushFails));
  }

  lemma FlushLandsKeeps(hash: Hash, cfg: Config, s: Queue, lay: Lay)
    requires InvWith(hash, cfg, s, lay) && CanStep(hash, cfg, s, FlushLands)
    ensures InvWith(hash, cfg, Apply(hash, cfg, s, FlushLands), Lay(lay.inFile + lay.inFlight, [], lay.inBuffer))
  {
    hide OutputInv, Content, Laid, LogEntries, DiskEntries;
    LaidOf(hash, cfg, s.output, lay);
    LaidFlight(s.output.out, hash, s.output.header, lay);
    BlockLandedLaid(s.output.out, hash, s.output.header, lay, cfg.fsync);
    var lay', s' := Lay(lay.inFile + lay.inFlight, [], lay.inBuffer), Apply(hash, cfg, s, FlushLands);
    assert lay'.All() == lay.All();
    OutputMoves(hash, cfg, s.output, lay, s'.output.out, lay', s'.output.sent);
    MemOkOf(s, s');
    var acks := s.output.out.inflight.value.acks;
    assert acks[0] < s.output.header.numEntriesBefore + |lay'.inFile| by {
      assert lay.All()[|lay'.inFile| - 1] == lay.inFlight[|lay.inFlight| - 1];
    }
    assert AllBelow(acks, Durable(hash, s'.output, lay'));
    assert s'.output.sent[|s.output.sent|..] == acks;
    SentBelow(s.output.sent, s'.output.sent, s.acked, s'.acked);
  }

  lemma DeliverKeeps(hash: Hash, cfg: Config, s: Queue, lay: Lay)
    requires InvWith(hash, cfg, s, lay) && CanStep(hash, cfg, s, DeliverAck)
    ensures InvWith(hash, cfg, Apply(hash, cfg, s, DeliverAck), lay)
  {
    hide OutputInv, Content, LogEntries, Cleanup, IdWidth;
    OutputHasContent(hash, cfg, s.output, lay);
    DurableAssigned(hash, s, lay);
    var m, id := s.mem, s.output.sent[s.delivered];
    var acked := m.(lastAcked := if m.lastAcked.None? || id > m.lastAcked.value then Some(id) else m.lastAcked);
    CleanupKeepsTail(acked, cfg.maxMemory, LogEntries(s.log));
  }

  lemma DurableAssigned(hash: Hash, s: Queue, lay: Lay)
    requires s.output.fileId >= 1 && FlowOk(hash, s, lay)
    ensures Durable(hash, s.output, lay) <= s.ordering.Next() <= |s.log|
  {
    hide DiskEntries, LogEntries;
    var c := Content(hash, s.output, lay) + s.toWrite;
    assert |c| == s.ordering.Next();
  }

  // ----- Crashes -----

  /** How many entries of the newest file survive a crash. */
  ghost function Kept(o: Output, lay: Lay, left: Option<nat>): (n: nat)
    requires o.header.Storable()
    ensures n <= |lay.inFile + lay.inFlight|
  {
    if left.None? then 0 else Survivors(o.header, lay.inFile + lay.inFlight, left.value)
  }

  /** The bytes on their way to the file are a file of the entries in it and on their way. */
  lemma OnTheWay(hash: Hash, out: AckState, hd: WalHeader, lay: Lay)
    requires Laid(out, hash, hd, lay)
    ensures AllFit(hd, lay.inFile + lay.inFlight)
    ensures out.file + out.InflightBytes() == HeaderBytes(hd) + RunBytes(hash, hd, lay.inFile + lay.inFlight)
  {
    hide HeaderBytes, Fits, EntryBytes;
    var out', lay' := out.(buffer := [], acks := [], currentSize := |out.file| + |out.InflightBytes()|), lay.(inBuffer := []);
    assert Laid(out', hash, hd, lay');
    NothingLostOnTheWay(out', hash, hd, lay');
    assert lay'.All() == lay.inFile + lay.inFlight;
    assert out'.file + out'.InflightBytes() + out'.buffer == out.file + out.InflightBytes();
  }

  lemma CutFileGood(hash: Hash, cfg: Config, o: Output, lay: Lay, left: nat)
    requires OutputInv(hash, cfg, o, lay) && left <= |o.out.file + o.out.InflightBytes()|
    ensures var cut := (o.out.file + o.out.InflightBytes())[..left];
            && GoodFile(hash, cfg, cut) && o.header.Storable()
            && ScanFile(hash, cut) == (lay.inFile + lay.inFlight)[..Kept(o, lay, Some(left))]
  {
    hide RunBytes, HeaderBytes, Fits, ScanFile, DiskEntries, Survivors;
    LaidOf(hash, cfg, o, lay);
    OnTheWay(hash, o.out, o.header, lay);
    var es := lay.inFile + lay.inFlight;
    assert forall i :: 0 <= i < |es| ==> es[i] == lay.All()[i];
    var cut := (o.out.file + o.out.InflightBytes())[..left];
    assert IsCutOf(hash, cut, o.header, es, left);
    ScanCutFile(hash, cut, o.header, es, left);
  }

  lemma SameEntriesUpTo(hash: Hash, files: Files, latest: Option<nat>, m: nat)
    requires IsLatest(files, latest) && forall i :: i > m ==> EntriesIn(hash, files, i) == []
    ensures DiskEntries(hash, files, if latest.Some? then latest.value else 0) == DiskEntries(hash, files, m)
  {
    hide ScanFile;
    var n := if latest.Some? then latest.value else 0;
    var top := if n < m then m else n;
    DiskEntriesBeyond(hash, files, n, top);
    DiskEntriesBeyond(hash, files, m, top);
  }

  /** The files a crash leaves are good ones and hold the log up to the last surviving entry. */
  lemma CrashFiles(hash: Hash, cfg: Config, s: Queue, lay: Lay, left: Option<nat>, latest: Option<nat>)
    requires InvWith(hash, cfg, s, lay) && CrashCut(s.output, left) && IsLatest(FilesLeft(s, left), latest)
    ensures s.output.header.Storable()
    ensures var files, m := FilesLeft(s, left), s.output.header.numEntriesBefore + Kept(s.output, lay, left);
            && 0 !in files && (forall i :: i in files ==> GoodFile(hash, cfg, files[i]))
            && m <= |s.log|
            && DiskEntries(hash, files, if latest.Some? then latest.value else 0) == LogEntries(s.log)[..m]
  {
    hide GoodFile, ScanFile, Laid, DiskEntries, Kept, LogEntries;
    var o, files := s.output, FilesLeft(s, left);
    LaidOf(hash, cfg, o, lay);
    assert o.header.Storable() by { CutFileGood(hash, cfg, o, lay, 0); }
    var es, n := lay.inFile + lay.inFlight, Kept(o, lay, left);
    if left.Some? {
      CutFileGood(hash, cfg, o, lay, left.value);
    } else {
      NoneKept(o, lay);
    }
    assert EntriesIn(hash, files, o.fileId) == es[..n];
    NoLaterEntries(hash, cfg, s, left);
    SameEntriesUpTo(hash, files, latest, o.fileId);
    OnlyNewestChanged(hash, s, left);
    DiskEntriesLocal(hash, files, o.others, o.fileId - 1);
    LastFile(hash, files, o.fileId);
    FrontOfContent(hash, s, lay, n);
  }

  lemma LastFile(hash: Hash, files: Files, n: nat)
    requires n >= 1
    ensures DiskEntries(hash, files, n) == DiskEntries(hash, files, n - 1) + EntriesIn(hash, files, n)
  {
  }

  lemma NoneKept(o: Output, lay: Lay)
    requires o.header.Storable()
    ensures Kept(o, lay, None) == 0
  {
  }

  lemma NoLaterEntries(hash: Hash, cfg: Config, s: Queue, left: Option<nat>)
    requires FilesOk(hash, cfg, s.output.fileId, s.output.others) && CrashCut(s.output, left)
    ensures forall i :: i > s.output.fileId ==> EntriesIn(hash, FilesLeft(s, left), i) == []
  {
    hide ScanFile, GoodFile;
    forall i | i > s.output.fileId
      ensures EntriesIn(hash, FilesLeft(s, left), i) == []
    {
      assert EntriesIn(hash, s.output.others, i) == [];
    }
  }

  lemma OnlyNewestChanged(hash: Hash, s: Queue, left: Option<nat>)
    requires CrashCut(s.output, left)
    ensures forall i :: 0 <= i < s.output.fileId ==> EntriesIn(hash, FilesLeft(s, left), i) == EntriesIn(hash, s.output.others, i)
  {
    hide ScanFile;
  }

  /** Earlier files and a front of the newest one hold a front of the log. */
  lemma FrontOfContent(hash: Hash, s: Queue, lay: Lay, n: nat)
    requires s.output.fileId >= 1 && FlowOk(hash, s, lay) && n <= |lay.inFile + lay.inFlight|
    ensures var before := DiskEntries(hash, s.output.others, s.output.fileId - 1);
            && |before| + n <= |s.log|
            && before + (lay.inFile + lay.inFlight)[..n] == LogEntries(s.log)[..|before| + n]
  {
    hide DiskEntries, LogEntries;
    var before, es, all := DiskEntries(hash, s.output.others, s.output.fileId - 1), lay.inFile + lay.inFlight, LogEntries(s.log);
    DurableAssigned(hash, s, lay);
    var c := before + (es + (lay.inBuffer + s.toWrite));
    assert c == all[..s.ordering.Next()];
    assert before + es[..n] == c[..|before| + n];
    assert c[..|before| + n] == all[..|before| + n];
  }

  /** Recovery resumes right after the last surviving entry, and can write the header it needs. */
  lemma ResumesAfterSurvivors(hash: Hash, cfg: Config, s: Queue, lay: Lay, left: Option<nat>, latest: Option<nat>)
    requires InvWith(hash, cfg, s, lay) && CrashCut(s.output, left) && IsLatest(FilesLeft(s, left), latest)
    ensures s.output.header.Storable()
    ensures var r, m := Resumed(hash, FilesLeft(s, left), latest), s.output.header.numEntriesBefore + Kept(s.output, lay, left);
            && m <= |s.log| && StorableId(m) && r.header.Storable()
            && r.fileId >= 1 && r.Next() == m && r.header.numEntriesBefore == m
            && EntriesIn(hash, FilesLeft(s, left), r.fileId) == []
            && (forall i :: i > r.fileId ==> EntriesIn(hash, FilesLeft(s, left), i) == [])
            && DiskEntries(hash, FilesLeft(s, left) - {r.fileId}, r.fileId - 1) == LogEntries(s.log)[..m]
  {
    hide OutputInv, DiskEntries, EntriesIn, Resumed, FlowOk, AcksOk, Kept, IdWidth, FilesLeft, IsLatest, GoodFile;
    CrashFiles(hash, cfg, s, lay, left, latest);
    var m := s.output.header.numEntriesBefore + Kept(s.output, lay, left);
    RecoveryResumes(hash, FilesLeft(s, left), latest, LogEntries(s.log)[..m]);
    StorableBelow(m, |s.log|);
  }

  lemma CrashKeeps(hash: Hash, cfg: Config, s: Queue, lay: Lay, left: Option<nat>, latest: Option<nat>)
    requires InvWith(hash, cfg, s, lay) && CanStep(hash, cfg, s, Crash(left, latest))
    ensures InvWith(hash, cfg, Apply(hash, cfg, s, Crash(left, latest)), Lay([], [], []))
  {
    hide DiskEntries, EntriesIn, Resumed, Kept, GoodFile, HeaderBytes, LogEntries, IdWidth, InvWith, FilesLeft, Restart;
    CrashFiles(hash, cfg, s, lay, left, latest);
    ResumesAfterSurvivors(hash, cfg, s, lay, left, latest);
    var files, m := FilesLeft(s, left), s.output.header.numEntriesBefore + Kept(s.output, lay, left);
    RestartKeeps(hash, cfg, s.log, files, Resumed(hash, files, latest), m, s.acked);
  }

  lemma LogFront(log: seq<Data>, m: nat)
    requires m <= |log|
    ensures LogEntries(log)[..m] == LogEntries(log[..m])
  {
  }

  /** A queue restarted on good files that hold the log's front is in order. */
  lemma RestartKeeps(hash: Hash, cfg: Config, log: seq<Data>, files: Files, r: Resume, m: nat, acked: nat)
    requires m <= |log| && StorableId(m) && r.header.Storable()
    requires r.fileId >= 1 && r.Next() == m && r.header.numEntriesBefore == m
    requires 0 !in files && forall i :: i in files ==> GoodFile(hash, cfg, files[i])
    requires forall i :: i > r.fileId ==> EntriesIn(hash, files, i) == []
    requires DiskEntries(hash, files - {r.fileId}, r.fileId - 1) == LogEntries(log)[..m]
    ensures InvWith(hash, cfg, Restart(log, files, r, acked), Lay([], [], []))
  {
    hide DiskEntries, GoodFile, HeaderBytes, RunBytes, ScanFile, Laid, LogEntries;
    var s, none := Restart(log, files, r, acked), Lay([], [], []);
    NewFileLaid(hash, r.header);
    OtherFilesStay(hash, files, r.fileId);
    LogFront(log, m);
    var all := LogEntries(s.log);
    assert Content(hash, s.output, none) == all + [] == all;
    assert all[m..] == [] && all[..m] == all;
    assert OutputInv(hash, cfg, s.output, none);
  }

  // ----- Whole runs -----

  /** Every step of the system keeps the invariant. */
  lemma StepKeeps(hash: Hash, cfg: Config, s: Queue, step: Step)
    requires Inv(hash, cfg, s) && CanStep(hash, cfg, s, step)
    ensures Inv(hash, cfg, Apply(hash, cfg, s, step))
  {
    hide InvWith, CanStep, Apply;
    var lay :| InvWith(hash, cfg, s, lay);
    var lay' := StepLay(hash, cfg, s, lay, step);
  }

  lemma StepLay(hash: Hash, cfg: Config, s: Queue, lay: Lay, step: Step) returns (lay': Lay)
    requires InvWith(hash, cfg, s, lay) && CanStep(hash, cfg, s, step)
    ensures InvWith(hash, cfg, Apply(hash, cfg, s, step), lay')
  {
    hide InvWith, Apply, OutputInv, IdWidth, Accepts, LogEntries, Resumed;
    lay' := lay;
    match step
    case Enqueue(data) => EnqueueKeeps(hash, cfg, s, lay, data);
    case EnqueueBatch(datas) => BatchKeeps(hash, cfg, s, lay, datas);
    case Submit(i) => SubmitKeeps(hash, cfg, s, lay, i);
    case Receive(post, ready) => ReceiveKeeps(hash, cfg, s, lay, post, ready);
    case WriteNext(lands) =>
      lay' := WriteNextKeeps(hash, cfg, s, lay, lands);
    case StartFlush =>
      StartFlushKeeps(hash, cfg, s, lay);
      lay' := if lay.inBuffer == [] then lay else Lay(lay.inFile, lay.inBuffer, []);
    case FlushLands =>
      FlushLandsKeeps(hash, cfg, s, lay);
      lay' := Lay(lay.inFile + lay.inFlight, [], lay.inBuffer);
    case FlushFails =>
      FlushFailsKeeps(hash, cfg, s, lay);
      lay' := Lay(lay.inFile, [], lay.inFlight + lay.inBuffer);
    case DeliverAck => DeliverKeeps(hash, cfg, s, lay);
    case Crash(left, latest) =>
      CrashKeeps(hash, cfg, s, lay, left, latest);
      lay' := Lay([], [], []);
  }

  lemma StartIsOk(hash: Hash, cfg: Config)
    ensures Inv(hash, cfg, Start())
  {
    hide InvWith, HeaderBytes;
    DefaultIsStorable();
    RestartKeeps(hash, cfg, [], map[], Resume(1, DefaultHeader, None), 0, 0);
  }

  ghost predicate CanRun(hash: Hash, cfg: Config, s: Queue, steps: seq<Step>)
    decreases |steps|
  {
    steps != [] ==> CanStep(hash, cfg, s, steps[0]) && CanRun(hash, cfg, Apply(hash, cfg, s, steps[0]), steps[1..])
  }

  ghost function Run(hash: Hash, cfg: Config, s: Queue, steps: seq<Step>): Queue
    requires CanRun(hash, cfg, s, steps)
    decreases |steps|
  {
    if steps == [] then s else Run(hash, cfg, Apply(hash, cfg, s, steps[0]), steps[1..])
  }

  lemma {:induction false} RunKeeps(hash: Hash, cfg: Config, s: Queue, steps: seq<Step>)
    requires Inv(hash, cfg, s) && CanRun(hash, cfg, s, steps)
    ensures Inv(hash, cfg, Run(hash, cfg, s, steps))
    decreases |steps|
  {
    hide Inv, CanStep, Apply;
    if steps != [] {
      StepKeeps(hash, cfg, s, steps[0]);
      RunKeeps(hash, cfg, Apply(hash, cfg, s, steps[0]), steps[1..]);
    }
  }

  /** Nothing gets stuck half way: whatever has come somewhere can go on from there, and a flush can end either way. */
  lemma WorkGoesOn(hash: Hash, cfg: Config, s: Queue, data: Data, lands: bool) returns (post: Ordering, ready: seq<Entry>)
    requires Inv(hash, cfg, s)
    ensures StorableId(|s.log| + 1) ==> CanStep(hash, cfg, s, Enqueue(data)) && CanStep(hash, cfg, s, EnqueueBatch([data]))
    ensures forall i: nat :: i < |s.unsent| ==> CanStep(hash, cfg, s, Submit(i))
    ensures s.channel != [] && s.toWrite == [] ==> CanStep(hash, cfg, s, Receive(post, ready))
    ensures s.toWrite != [] ==> CanStep(hash, cfg, s, WriteNext(lands))
    ensures if s.output.out.inflight.None? then CanStep(hash, cfg, s, StartFlush)
            else CanStep(hash, cfg, s, FlushLands) && CanStep(hash, cfg, s, FlushFails)
    ensures s.delivered < |s.output.sent| ==> CanStep(hash, cfg, s, DeliverAck)
  {
    hide InvWith, Accepts, StorableId;
    var lay :| InvWith(hash, cfg, s, lay);
    ValidOf(hash, cfg, s, lay);
    post, ready := s.ordering, [];
    if s.channel != [] {
      post, ready := ArrivalPossible(s.ordering, s.channel[0]);
    }
    if s.toWrite != [] {
      WritableNext(hash, cfg, s, lay);
    }
  }

  lemma WritableNext(hash: Hash, cfg: Config, s: Queue, lay: Lay)
    requires InvWith(hash, cfg, s, lay) && s.toWrite != []
    ensures StorableId(s.toWrite[0].id)
  {
    hide OutputInv, AcksOk, IdWidth, Content;
    OutputHasContent(hash, cfg, s.output, lay);
    NextToWrite(hash, s, lay);
    var c := Content(hash, s.output, lay);
    assert |c + s.toWrite| == s.ordering.Next();
    StorableBelow(s.toWrite[0].id, |s.log|);
  }

  // ----- What the invariant is for -----

  /** All WAL files of the queue, the one being written included. */
  function AllFiles(s: Queue): Files {
    s.output.others[s.output.fileId := s.output.out.file]
  }

  /** The valid entries of all files are one consecutive run from id 0, with the data that was enqueued. */
  lemma FilesAreOneRun(hash: Hash, cfg: Config, s: Queue, lay: Lay)
    requires InvWith(hash, cfg, s, lay)
    ensures Durable(hash, s.output, lay) <= |s.log|
    ensures DiskEntries(hash, AllFiles(s), s.output.fileId) == LogEntries(s.log)[..Durable(hash, s.output, lay)]
    ensures forall i :: i > s.output.fileId ==> EntriesIn(hash, AllFiles(s), i) == []
    ensures forall i :: i in AllFiles(s) ==> GoodFile(hash, cfg, AllFiles(s)[i])
  {
    hide GoodFile, ScanFile, Laid, DiskEntries, LogEntries, HeaderBytes, RunBytes;
    var o := s.output;
    LaidOf(hash, cfg, o, lay);
    CurrentFile(hash, cfg, o, lay);
    DurableAssigned(hash, s, lay);
    assert forall i :: i > o.fileId ==> EntriesIn(hash, AllFiles(s), i) == EntriesIn(hash, o.others, i);
    FrontOfContent(hash, s, lay, |lay.inFile|);
    assert (lay.inFile + lay.inFlight)[..|lay.inFile|] == lay.inFile;
    DiskEntriesLocal(hash, AllFiles(s), o.others, o.fileId - 1);
    LastFile(hash, AllFiles(s), o.fileId);
  }

  lemma CurrentFile(hash: Hash, cfg: Config, o: Output, lay: Lay)
    requires OutputInv(hash, cfg, o, lay)
    ensures ScanFile(hash, o.out.file) == lay.inFile && GoodFile(hash, cfg, o.out.file)
  {
    hide HeaderBytes, RunBytes, ScanFile, Fits, DiskEntries;
    LaidOf(hash, cfg, o, lay);
    ScanWholeFile(hash, o.header, lay.inFile);
    var whole := HeaderBytes(o.header) + RunBytes(hash, o.header, lay.inFile);
    TakeAll(whole);
    assert forall i :: 0 <= i < |lay.inFile| ==> lay.inFile[i] == lay.All()[i];
    assert IsCutOf(hash, o.out.file, o.header, lay.inFile, |whole|);
  }

  /** An entry is found among the files: the id-th valid entry on disk is this one. */
  ghost predicate OnDisk(hash: Hash, s: Queue, id: nat)
    requires id < |s.log|
  {
    var all := DiskEntries(hash, AllFiles(s), s.output.fileId);
    id < |all| && all[id] == Entry(id, s.log[id])
  }

  ghost predicate InMemory(s: Queue, id: nat)
    requires id < |s.log|
  {
    Entry(id, s.log[id]) in s.mem.entries
  }

  /**
   * In every reachable state, crashes included, every assigned id is in memory or on disk with the
   * data it was given, everything that left memory is on disk, and so is everything acknowledged.
   */
  lemma NothingIsLost(hash: Hash, cfg: Config, steps: seq<Step>, id: nat)
    requires CanRun(hash, cfg, Start(), steps) && id < |Run(hash, cfg, Start(), steps).log|
    ensures var s := Run(hash, cfg, Start(), steps);
            && (InMemory(s, id) || OnDisk(hash, s, id))
            && (id < s.mem.Oldest() ==> OnDisk(hash, s, id))
            && (id < s.acked ==> OnDisk(hash, s, id))
  {
    hide InvWith, Start, LogEntries, CanRun, Run;
    StartIsOk(hash, cfg);
    RunKeeps(hash, cfg, Start(), steps);
    var s := Run(hash, cfg, Start(), steps);
    var lay :| InvWith(hash, cfg, s, lay);
    HeldSomewhere(hash, cfg, s, lay, id);
  }

  lemma HeldSomewhere(hash: Hash, cfg: Config, s: Queue, lay: Lay, id: nat)
    requires InvWith(hash, cfg, s, lay) && id < |s.log|
    ensures s.mem.Oldest() <= id ==> InMemory(s, id)
    ensures id < s.mem.Oldest() || id < s.acked ==> OnDisk(hash, s, id)
  {
    hide OutputInv, DiskEntries, Durable, Content;
    FilesAreOneRun(hash, cfg, s, lay);
    OutputHasContent(hash, cfg, s.output, lay);
    if s.mem.Oldest() <= id {
      assert s.mem.entries[id - s.mem.Oldest()] == Entry(id, s.log[id]);
    }
  }

  // ----- Acknowledgements get through -----

  /** Once a block has landed, everything in files is acknowledged. */
  lemma LandedIsAcked(hash: Hash, cfg: Config, s: Queue, lay: Lay)
    requires InvWith(hash, cfg, s, lay) && CanStep(hash, cfg, s, FlushLands)
    ensures var t, lay' := Apply(hash, cfg, s, FlushLands), Lay(lay.inFile + lay.inFlight, [], lay.inBuffer);
            t.output.fileId >= 1 && t.acked == Durable(hash, t.output, lay') == Durable(hash, s.output, lay) + |lay.inFlight|
  {
    hide InvWith, OutputInv, MemOk, FlowOk, Laid, LogEntries, DiskEntries, Numbered;
    var t, lay' := Apply(hash, cfg, s, FlushLands), Lay(lay.inFile + lay.inFlight, [], lay.inBuffer);
    FlushLandsKeeps(hash, cfg, s, lay);
    AckedIsDurable(hash, cfg, t, lay');
    OutputPart(hash, cfg, s, lay);
    LaidOf(hash, cfg, s.output, lay);
    LaidFlight(s.output.out, hash, s.output.header, lay);
    var acks := s.output.out.inflight.value.acks;
    LastOfFlight(lay, s.output.header.numEntriesBefore);
    assert AllBelow(acks, t.acked) && acks[0] < t.acked;
  }

  lemma AckedIsDurable(hash: Hash, cfg: Config, s: Queue, lay: Lay)
    requires InvWith(hash, cfg, s, lay)
    ensures s.output.fileId >= 1 && s.acked <= Durable(hash, s.output, lay)
  {
    hide OutputInv, MemOk, FlowOk, Durable;
    OutputHasContent(hash, cfg, s.output, lay);
  }

  lemma OutputPart(hash: Hash, cfg: Config, s: Queue, lay: Lay)
    requires InvWith(hash, cfg, s, lay)
    ensures OutputInv(hash, cfg, s.output, lay)
  {
    hide OutputInv, MemOk, FlowOk, AcksOk;
  }

  lemma LastOfFlight(lay: Lay, first: nat)
    requires Numbered(lay.All(), first) && lay.inFlight != []
    ensures lay.inFlight[|lay.inFlight| - 1].id == first + |lay.inFile| + |lay.inFlight| - 1
  {
    assert lay.All()[|lay.inFile| + |lay.inFlight| - 1] == lay.inFlight[|lay.inFlight| - 1];
  }

  /** Only what is sent counts as acknowledged; a crash acknowledges nothing. */
  lemma AckedMeansSent(hash: Hash, cfg: Config, s: Queue, step: Step)
    requires CanStep(hash, cfg, s, step)
    ensures var t := Apply(hash, cfg, s, step);
            t.acked <= s.acked || (!step.Crash? && t.acked - 1 in t.output.sent)
  {
    hide StorableId, Accepts, AfterEnqueue, AfterBatch, AfterAck, WriteOne, TakeBlock, FilesLeft, Resumed, CrashCut, IsLatest, HeaderBytes;
    match step
    case WriteNext(lands) =>
      var o, r := s.output, WriteOne(s.output, hash, cfg, s.toWrite[0], _ => lands);
      if |o.sent| <= |r.sent| {
        MaxAckIn(s.acked, r.sent[|o.sent|..]);
      }
    case FlushLands => MaxAckIn(s.acked, s.output.out.inflight.value.acks);
    case _ =>
  }

  lemma {:induction false} MaxAckIn(acked: nat, ids: seq<nat>)
    ensures var r := MaxAck(acked, ids); r == acked || (r > 0 && r - 1 in ids)
  {
    if ids != [] {
      MaxAckIn(acked, ids[..|ids| - 1]);
    }
  }

  /** A crash may take everything that is not synced or nothing at all, the file itself only while none of it is synced, and never more. */
  lemma CutsPossible(o: Output, left: nat)
    requires o.out.synced <= |o.out.file|
    ensures CrashCut(o, Some(o.out.synced)) && CrashCut(o, Some(|o.out.file + o.out.InflightBytes()|))
    ensures CrashCut(o, None) <==> o.out.synced == 0
    ensures left < o.out.synced || left > |o.out.file| + |o.out.InflightBytes()| ==> !CrashCut(o, Some(left))
  {
  }

  /** Memory knows the greatest acknowledgement that was delivered to it. */
  ghost predicate AcksDelivered(s: Queue) {
    && s.delivered <= |s.output.sent|
    && (s.mem.lastAcked.None? <==> s.delivered == 0)
    && (s.mem.lastAcked.Some? ==>
          && s.mem.lastAcked.value in s.output.sent[..s.delivered]
          && forall id :: id in s.output.sent[..s.delivered] ==> id <= s.mem.lastAcked.value)
  }

  lemma DeliverAcks(hash: Hash, cfg: Config, s: Queue)
    requires AcksDelivered(s) && CanStep(hash, cfg, s, DeliverAck)
    ensures AcksDelivered(Apply(hash, cfg, s, DeliverAck))
  {
    hide Cleanup;
    var n, m, id := s.delivered, s.mem, s.output.sent[s.delivered];
    CleanupValid(m.(lastAcked := if m.lastAcked.None? || id > m.lastAcked.value then Some(id) else m.lastAcked), cfg.maxMemory);
    assert s.output.sent[..n + 1] == s.output.sent[..n] + [id];
  }

  lemma SentStays(hash: Hash, cfg: Config, o: Output, e: Entry, lands: nat -> bool)
    requires StorableId(e.id)
    ensures o.sent <= WriteOne(o, hash, cfg, e, lands).sent
  {
    hide EntryBytes, CloseFile, HeaderBytes, MustRotate;
  }

  lemma StepDelivers(hash: Hash, cfg: Config, s: Queue, step: Step)
    requires AcksDelivered(s) && CanStep(hash, cfg, s, step)
    ensures AcksDelivered(Apply(hash, cfg, s, step))
  {
    hide StorableId, Accepts, Cleanup, WriteOne, TakeBlock, FilesLeft, Resumed, CrashCut, IsLatest, HeaderBytes, MaxAck, PushAll;
    var t := Apply(hash, cfg, s, step);
    match step
    case DeliverAck => DeliverAcks(hash, cfg, s);
    case WriteNext(lands) =>
      SentStays(hash, cfg, s.output, s.toWrite[0], _ => lands);
      assert t.output.sent[..s.delivered] == s.output.sent[..s.delivered];
    case FlushLands => assert t.output.sent[..s.delivered] == s.output.sent[..s.delivered];
    case Enqueue(data) =>
      PushValid(s.mem, data);
      CleanupValid(Push(s.mem, data), cfg.maxMemory);
    case EnqueueBatch(datas) =>
      PushAllValid(s.mem, datas);
      PushAllIs(s.mem, datas);
      CleanupValid(PushAll(s.mem, datas), cfg.maxMemory);
    case _ =>
  }

  /** In every reachable state. */
  lemma {:induction false} RunDelivers(hash: Hash, cfg: Config, s: Queue, steps: seq<Step>)
    requires AcksDelivered(s) && CanRun(hash, cfg, s, steps)
    ensures AcksDelivered(Run(hash, cfg, s, steps))
    decreases |steps|
  {
    hide CanStep, Apply, AcksDelivered;
    if steps != [] {
      StepDelivers(hash, cfg, s, steps[0]);
      RunDelivers(hash, cfg, Apply(hash, cfg, s, steps[0]), steps[1..]);
    }
  }

  // ----- Acknowledged entries survive -----

  /** With fsync, whatever is acknowledged survives every crash. */
  lemma AckedSurvive(hash: Hash, cfg: Config, s: Queue, lay: Lay, left: Option<nat>)
    requires InvWith(hash, cfg, s, lay) && CrashCut(s.output, left) && cfg.fsync
    ensures s.output.header.Storable() && s.acked <= s.output.header.numEntriesBefore + Kept(s.output, lay, left)
  {
    hide FilesOk, DiskEntries, HeaderBytes, RunBytes, LogEntries, Fits, Survivors;
    if s.acked > s.output.header.numEntriesBefore {
      OnTheWay(hash, s.output.out, s.output.header, lay);
      SyncedSurvive(hash, s.output.header, lay.inFile, lay.inFlight, left.value);
    }
  }

  lemma SyncedSurvive(hash: Hash, hd: WalHeader, synced: seq<Entry>, more: seq<Entry>, k: nat)
    requires hd.Storable() && AllFit(hd, synced) && AllFit(hd, synced + more)
    requires |HeaderBytes(hd) + RunBytes(hash, hd, synced)| <= k
    ensures Survivors(hd, synced + more, k) >= |synced|
  {
    hide HeaderBytes, RunBytes;
    WholeAtLeast(hash, hd, synced, more, k - |HeaderBytes(hd)|);
  }

  lemma {:induction false} WholeAtLeast(hash: Hash, hd: WalHeader, es: seq<Entry>, more: seq<Entry>, k: nat)
    requires AllFit(hd, es) && |RunBytes(hash, hd, es)| <= k
    ensures WholeEntries(hd, es + more, k) >= |es|
  {
    hide EntryBytes, Fits;
    if es != [] {
      assert (es + more)[1..] == es[1..] + more;
      WholeAtLeast(hash, hd, es[1..], more, k - |EntryBytes(hash, hd, es[0])|);
    }
  }

  /**
   * Every possible crash keeps every acknowledged entry exactly when files are synced or nothing
   * of the newest file has been acknowledged yet.
   */
  lemma LossExactly(hash: Hash, cfg: Config, s: Queue, lay: Lay)
    requires InvWith(hash, cfg, s, lay)
    ensures s.output.header.Storable()
    ensures (forall left :: CrashCut(s.output, left) ==>
               s.acked <= s.output.header.numEntriesBefore + Kept(s.output, lay, left))
            <==> cfg.fsync || s.acked <= s.output.header.numEntriesBefore
  {
    hide OutputInv, DiskEntries, MemOk, FlowOk, Kept;
    assert s.output.header.Storable() by { CutFileGood(hash, cfg, s.output, lay, 0); }
    if cfg.fsync {
      forall left | CrashCut(s.output, left)
        ensures s.acked <= s.output.header.numEntriesBefore + Kept(s.output, lay, left)
      {
        AckedSurvive(hash, cfg, s, lay, left);
      }
    } else {
      assert CrashCut(s.output, None);
      NoneKept(s.output, lay);
    }
  }

  /** The acknowledged part of the log, which no step may take back. */
  ghost predicate Keeps(s: Queue, t: Queue) {
    s.acked <= |s.log| && s.acked <= |t.log| && s.acked <= t.acked && t.log[..s.acked] == s.log[..s.acked]
  }

  lemma AckedAssigned(hash: Hash, cfg: Config, s: Queue, lay: Lay)
    requires InvWith(hash, cfg, s, lay)
    ensures s.acked <= |s.log|
  {
    hide OutputInv, FlowOk, Durable;
    OutputHasContent(hash, cfg, s.output, lay);
    DurableAssigned(hash, s, lay);
  }

  lemma StepKeepsAcked(hash: Hash, cfg: Config, s: Queue, step: Step)
    requires cfg.fsync && Inv(hash, cfg, s) && CanStep(hash, cfg, s, step)
    ensures Keeps(s, Apply(hash, cfg, s, step))
  {
    hide InvWith, WriteOne, Resumed, IdWidth, Accepts, AfterEnqueue, AfterBatch, AfterAck, FilesLeft, TakeBlock;
    var lay :| InvWith(hash, cfg, s, lay);
    AckedAssigned(hash, cfg, s, lay);
    if step.Crash? {
      ResumesAfterSurvivors(hash, cfg, s, lay, step.left, step.latest);
      AckedSurvive(hash, cfg, s, lay, step.left);
    }
  }

  /**
   * With fsync, over any run with any number of crashes, an acknowledged entry keeps its id and
   * its data and stays on disk.
   */
  lemma {:induction false} AckedForever(hash: Hash, cfg: Config, s: Queue, steps: seq<Step>)
    requires cfg.fsync && Inv(hash, cfg, s) && CanRun(hash, cfg, s, steps)
    ensures var t := Run(hash, cfg, s, steps);
            Keeps(s, t) && forall id :: 0 <= id < s.acked ==> OnDisk(hash, t, id)
    decreases |steps|
  {
    hide InvWith, CanStep, Apply, OnDisk;
    if steps == [] {
      var lay :| InvWith(hash, cfg, s, lay);
      AckedAssigned(hash, cfg, s, lay);
      forall id | 0 <= id < s.acked
        ensures OnDisk(hash, s, id)
      {
        HeldSomewhere(hash, cfg, s, lay, id);
      }
    } else {
      var s1 := Apply(hash, cfg, s, steps[0]);
      StepKeeps(hash, cfg, s, steps[0]);
      StepKeepsAcked(hash, cfg, s, steps[0]);
      AckedForever(hash, cfg, s1, steps[1..]);
      var t := Run(hash, cfg, s, steps);
      assert t.log[..s.acked] == t.log[..s1.acked][..s.acked] == s1.log[..s1.acked][..s.acked] == s1.log[..s.acked];
    }
  }

  lemma {:induction false} RunSnoc(hash: Hash, cfg: Config, s: Queue, steps: seq<Step>, step: Step)
    requires CanRun(hash, cfg, s, steps) && CanStep(hash, cfg, Run(hash, cfg, s, steps), step)
    ensures CanRun(hash, cfg, s, steps + [step])
    ensures Run(hash, cfg, s, steps + [step]) == Apply(hash, cfg, Run(hash, cfg, s, steps), step)
    decreases |steps|
  {
    hide CanStep, Apply;
    if steps == [] {
      assert [step][1..] == [];
    } else {
      RunSnoc(hash, cfg, Apply(hash, cfg, s, steps[0]), steps[1..], step);
      assert (steps + [step])[1..] == steps[1..] + [step];
    }
  }

  /** A run that writes one entry and has it acknowledged. */
  function OneEntryAcked(data: Data): seq<Step> {
    [Enqueue(data)] + [Submit(0)] + [Receive(Ordering([], Some(0)), [Entry(0, data)])] + [WriteNext(true)]
    + [StartFlush] + [FlushLands]
  }

  /** The queue just before its only entry is written. */
  lemma OneEntryReleased(hash: Hash, cfg: Config, data: Data)
    ensures var steps := [Enqueue(data)] + [Submit(0)] + [Receive(Ordering([], Some(0)), [Entry(0, data)])];
            && CanRun(hash, cfg, Start(), steps)
            && var s := Run(hash, cfg, Start(), steps);
               && s.log == [data] && s.toWrite == [Entry(0, data)] && s.output == Start().output && s.acked == 0
  {
    hide CanRun, Run, HeaderBytes, Cleanup;
    var e := Entry(0, data);
    assert CanRun(hash, cfg, Start(), []) && Run(hash, cfg, Start(), []) == Start() by { NoSteps(hash, cfg); }
    RunSnoc(hash, cfg, Start(), [], Enqueue(data));
    var steps := [Enqueue(data)];
    assert [] + steps == steps;
    RunSnoc(hash, cfg, Start(), steps, Submit(0));
    steps := steps + [Submit(0)];
    var s := Run(hash, cfg, Start(), steps);
    assert s.channel == [e] && s.toWrite == [] && s.ordering == Ordering([], None);
    RunSnoc(hash, cfg, Start(), steps, Receive(Ordering([], Some(0)), [e]));
  }

  lemma NoSteps(hash: Hash, cfg: Config)
    ensures CanRun(hash, cfg, Start(), []) && Run(hash, cfg, Start(), []) == Start()
  {
  }

  lemma OneEntryWritten(hash: Hash, cfg: Config, data: Data)
    requires !cfg.fsync
    ensures CanRun(hash, cfg, Start(), OneEntryAcked(data))
    ensures var s := Run(hash, cfg, Start(), OneEntryAcked(data));
            s.log == [data] && s.acked == 1 && s.output.out.synced == 0 && s.output.others == map[]
  {
    hide CanRun, Run, HeaderBytes, EntryBytes, Start;
    OneEntryReleased(hash, cfg, data);
    StartOutput();
    var steps := [Enqueue(data)] + [Submit(0)] + [Receive(Ordering([], Some(0)), [Entry(0, data)])];
    var o := Start().output;
    assert !MustRotate(o, cfg, Entry(0, data)) by { RecordWidth(|data|); }
    RunSnoc(hash, cfg, Start(), steps, WriteNext(true));
    steps := steps + [WriteNext(true)];
    var s := Run(hash, cfg, Start(), steps);
    assert o.sent[0..] == [];
    assert s.output.out.acks == [0] && s.output.out.buffer != [];
    RunSnoc(hash, cfg, Start(), steps, StartFlush);
    steps := steps + [StartFlush];
    RunSnoc(hash, cfg, Start(), steps, FlushLands);
    assert MaxAck(0, [0]) == 1 by { assert AllBelow([0], 1); }
  }

  lemma StartOutput()
    ensures DefaultHeader.Storable()
    ensures Start().output == Output(1, DefaultHeader, false, NewFile(HeaderBytes(DefaultHeader)), map[], [], [])
  {
    hide HeaderBytes;
    DefaultIsStorable();
    var none: Files := map[];
    assert none - {1} == none;
  }

  /** Without fsync it is not so: one entry, written and acknowledged, is gone after a crash. */
  lemma UnsyncedAckIsLost(hash: Hash, cfg: Config, data: Data)
    requires !cfg.fsync
    ensures CanRun(hash, cfg, Start(), OneEntryAcked(data)) && CanRun(hash, cfg, Start(), OneEntryAcked(data) + [Crash(None, None)])
    ensures var s := Run(hash, cfg, Start(), OneEntryAcked(data)); s.acked == 1 && s.log == [data]
    ensures Run(hash, cfg, Start(), OneEntryAcked(data) + [Crash(None, None)]).log == []
  {
    hide CanRun, Run, HeaderBytes, Start, OneEntryAcked;
    OneEntryWritten(hash, cfg, data);
    DefaultIsStorable();
    RunSnoc(hash, cfg, Start(), OneEntryAcked(data), Crash(None, None));
  }

  /**
   * From any reachable state, after a crash that leaves any front part of the newest file:
   * recovery succeeds, resumes one past the greatest surviving id, truncates a file that holds no
   * valid entry, and with fsync resumes above everything acknowledged.
   */
  lemma CrashRecovers(hash: Hash, cfg: Config, steps: seq<Step>, left: Option<nat>, latest: Option<nat>)
    requires CanRun(hash, cfg, Start(), steps)
    requires var s := Run(hash, cfg, Start(), steps);
             CrashCut(s.output, left) && IsLatest(FilesLeft(s, left), latest)
    ensures var s := Run(hash, cfg, Start(), steps);
            var files := FilesLeft(s, left);
            var r, all := Resumed(hash, files, latest), DiskEntries(hash, files, if latest.Some? then latest.value else 0);
            && CanStep(hash, cfg, s, Crash(left, latest))
            && r.Next() == |all| && |all| <= |s.log| && all == LogEntries(s.log)[..|all|]
            && EntriesIn(hash, files, r.fileId) == []
            && (cfg.fsync ==> s.acked <= r.Next())
  {
    hide InvWith, Start, LogEntries, CanRun, Run, CanStep, Resumed, DiskEntries, EntriesIn, FilesLeft, Kept, CrashCut, IsLatest;
    StartIsOk(hash, cfg);
    RunKeeps(hash, cfg, Start(), steps);
    var s := Run(hash, cfg, Start(), steps);
    var lay :| InvWith(hash, cfg, s, lay);
    CrashRecoversFrom(hash, cfg, s, lay, left, latest);
  }

  lemma CrashRecoversFrom(hash: Hash, cfg: Config, s: Queue, lay: Lay, left: Option<nat>, latest: Option<nat>)
    requires InvWith(hash, cfg, s, lay) && CrashCut(s.output, left) && IsLatest(FilesLeft(s, left), latest)
    ensures var files := FilesLeft(s, left);
            var r, all := Resumed(hash, files, latest), DiskEntries(hash, files, if latest.Some? then latest.value else 0);
            && CanStep(hash, cfg, s, Crash(left, latest))
            && r.Next() == |all| && |all| <= |s.log| && all == LogEntries(s.log)[..|all|]
            && EntriesIn(hash, files, r.fileId) == []
            && (cfg.fsync ==> s.acked <= r.Next())
  {
    hide InvWith, LogEntries, Resumed, DiskEntries, EntriesIn, FilesLeft, Kept, StorableId, CanStep, CrashCut, IsLatest, GoodFile;
    CrashFiles(hash, cfg, s, lay, left, latest);
    ResumesAfterSurvivors(hash, cfg, s, lay, left, latest);
    CrashAllowed(hash, cfg, s, left, latest);
    if cfg.fsync {
      AckedSurvive(hash, cfg, s, lay, left);
    }
  }

  lemma CrashAllowed(hash: Hash, cfg: Config, s: Queue, left: Option<nat>, latest: Option<nat>)
    requires CrashCut(s.output, left) && IsLatest(FilesLeft(s, left), latest)
    requires Resumed(hash, FilesLeft(s, left), latest).header.Storable()
    ensures CanStep(hash, cfg, s, Crash(left, latest))
  {
  }
}
