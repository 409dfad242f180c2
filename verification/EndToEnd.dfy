/**
 * The write path, conversions, recovery and the read path together: in every reachable state, a read
 * over the files of both tiers and memory returns what was enqueued, exactly when.
 */
module EndToEnd {
  import opened Outcomes
  import opened Bytes
  import opened WalCodec
  import opened WalScan
  import opened WalReader
  import opened Selection
  import opened OrderedBuffering
  import opened AckFileWriting
  import opened MemQueues
  import opened Disk
  import opened WalWriting
  import opened Recovery
  import opened Durability
  import opened FileOrder
  import opened WholeSystem
  import opened DenseRead
  import ReaderFsm
  import Lookup
  import StoreCodec
  import Conversion = StoreConversion

  // ----- Files as the reader sees them -----

  /** After the whole entries there is the header of one more. */
  function EndsDamaged(hash: Hash, hd: WalHeader, s: Bytes): bool
    decreases |s|
  {
    match NextEntry(hash, hd, s)
    case Whole(_, size) => EndsDamaged(hash, hd, s[size..])
    case Damaged(_) => true
    case Nothing => false
  }

  lemma {:induction false} DamagedPrefix(hash: Hash, hd: WalHeader, es: seq<Entry>, k: nat)
    requires AllFit(hd, es) && k <= |RunBytes(hash, hd, es)|
    ensures HeadersSeen(hd, es, k) == WholeEntries(hd, es, k) + if EndsDamaged(hash, hd, RunBytes(hash, hd, es)[..k]) then 1 else 0
    decreases es
  {
    hide NextEntry, EntryBytes, Fits;
    var s := RunBytes(hash, hd, es)[..k];
    if es == [] {
      EmptyHasNoEntry(hash, hd);
      assert s == [];
    } else {
      var head, rest := EntryBytes(hash, hd, es[0]), RunBytes(hash, hd, es[1..]);
      if k < |head| {
        SliceLeft(head, rest, 0, k);
        assert s == head[..k];
        NextOfTorn(hash, hd, es[0], k);
      } else {
        var tail := rest[..k - |head|];
        assert s == head + tail;
        NextOfWhole(hash, hd, es[0], tail);
        DropLeft(head, tail);
        DamagedPrefix(hash, hd, es[1..], k - |head|);
      }
    }
  }

  function StoredAt(hash: Hash, files: Files, i: nat): (f: Stored)
    ensures f.entries == EntriesIn(hash, files, i)
  {
    if i in files && HeaderFromReader(files[i]).Ok? then
      var (hd, size) := HeaderFromReader(files[i]).value;
      Stored(hd, ScanFile(hash, files[i]), EndsDamaged(hash, hd, files[i][size..]))
    else Stored(DefaultHeader, [], false)
  }

  /** The first n files, as the reader sees them. */
  function FilesUpTo(hash: Hash, files: Files, n: nat): (fs: seq<Stored>)
    ensures |fs| == n && forall i :: 0 <= i < n ==> fs[i] == StoredAt(hash, files, i + 1)
  {
    seq(n, i requires 0 <= i < n => StoredAt(hash, files, i + 1))
  }

  lemma {:induction false} FlatIsDisk(hash: Hash, files: Files, n: nat)
    ensures Flat(FilesUpTo(hash, files, n)) == DiskEntries(hash, files, n)
  {
    hide EntriesIn, StoredAt;
    if n > 0 {
      FlatIsDisk(hash, files, n - 1);
      assert FilesUpTo(hash, files, n)[..n - 1] == FilesUpTo(hash, files, n - 1);
    }
  }

  /** A good file with a readable, true header is a file of the run. */
  lemma GoodIsFile(env: ReaderFsm.Env, cfg: Config, files: Files, i: nat)
    requires i >= 1 && i in files && GoodFile(env.hash, cfg, files[i]) && HeaderFromReader(files[i]).Ok?
    requires HeaderTrue(env.hash, files, i) && ReaderFsm.Fetch(env, i) == Ok(Some(files[i]))
    ensures IsFile(env, i, StoredAt(env.hash, files, i), |DiskEntries(env.hash, files, i - 1)|)
  {
    hide HeaderBytes, RunBytes, ScanFile, HeaderFromReader, WholeEntries, HeadersSeen, Fits, DiskEntries, SizeBound, EndsDamaged;
    var hash, s := env.hash, files[i];
    var hd, es, k: nat :| IsCutOf(hash, s, hd, es, k) && SizeBound(cfg, hd, |es|, |HeaderBytes(hd) + RunBytes(hash, hd, es)|);
    CutParts(hash, s, hd, es, k);
    var n := k - |HeaderBytes(hd)|;
    var whole := WholeEntries(hd, es, n);
    DamagedPrefix(hash, hd, es, n);
    assert es == es[..whole] + es[whole..];
    assert IsCut(env, i, StoredAt(hash, files, i), |DiskEntries(hash, files, i - 1)|, es[whole..], n);
  }

  // ----- Looking files up -----

  /** What probing a WAL file tells the lookup: the start its header announces, read from the first bytes. */
  function Probe(files: Files, id: nat): Lookup.Info {
    if id !in files then Lookup.Missing
    else
      var s := files[id];
      match HeaderFromReader(if |s| <= HEADER_READ_LIMIT then s else s[..HEADER_READ_LIMIT])
      case Ok((hd, _)) => Lookup.InWal(hd.numEntriesBefore)
      case Err(HeaderVersion(_)) => Lookup.Broken(false)
      case Err(_) => Lookup.EmptyWal
  }

  /** Probing a good file with a readable, true and short header tells where it starts. */
  lemma ProbeTells(hash: Hash, cfg: Config, files: Files, i: nat)
    requires i >= 1 && i in files && GoodFile(hash, cfg, files[i]) && HeaderFromReader(files[i]).Ok? && HeaderTrue(hash, files, i)
    requires IdWidth(|DiskEntries(hash, files, i - 1)|) <= 96
    ensures Probe(files, i) == Lookup.InWal(|DiskEntries(hash, files, i - 1)|)
  {
    hide HeaderBytes, RunBytes, Fits, HeaderFromReader, ScanFile, IdWidth, DiskEntries, SizeBound, WholeEntries, Numbered;
    var s := files[i];
    var hd, es, k: nat :| IsCutOf(hash, s, hd, es, k) && SizeBound(cfg, hd, |es|, |HeaderBytes(hd) + RunBytes(hash, hd, es)|);
    CutParts(hash, s, hd, es, k);
    var head := HeaderBytes(hd);
    var part := s[|head|..];
    if |s| > HEADER_READ_LIMIT {
      assert s[..HEADER_READ_LIMIT] == head + part[..HEADER_READ_LIMIT - |head|];
      HeaderRoundTrip(hd, part[..HEADER_READ_LIMIT - |head|]);
    }
  }

  /** What probing tells about any file: missing, a foreign version, a header within the first 128 bytes, or none there. */
  lemma ProbeExactly(files: Files, id: nat, hd: WalHeader, rest: Bytes, version: U64)
    ensures id !in files ==> Probe(files, id) == Lookup.Missing
    ensures id in files && |files[id]| >= WAL_HEADER_FIXED_SIZE && version != 0 && files[id][..8] == U64Bytes(version) ==>
              Probe(files, id) == Lookup.Broken(false)
    ensures id in files && hd.Storable() && files[id] == HeaderBytes(hd) + rest ==>
              Probe(files, id) == if IdWidth(hd.numEntriesBefore) <= 96 then Lookup.InWal(hd.numEntriesBefore) else Lookup.EmptyWal
    ensures id in files && hd.Storable() && files[id] < HeaderBytes(hd) ==> Probe(files, id) == Lookup.EmptyWal
  {
    hide HeaderBytes, HeaderFromReader, IdWidth, U64Bytes;
    if id in files {
      var s := files[id];
      var t := if |s| <= HEADER_READ_LIMIT then s else s[..HEADER_READ_LIMIT];
      HeaderFromReaderExactly(t, hd, 0, version);
      if |s| >= WAL_HEADER_FIXED_SIZE {
        assert t[..8] == s[..8];
      }
      if hd.Storable() && s == HeaderBytes(hd) + rest {
        ProbeHeader(s, hd, rest);
      }
      if hd.Storable() && s < HeaderBytes(hd) {
        assert t == HeaderBytes(hd)[..|t|];
        HeaderTorn(hd, |t|);
      }
    }
  }

  lemma ProbeHeader(s: Bytes, hd: WalHeader, rest: Bytes)
    requires hd.Storable() && s == HeaderBytes(hd) + rest
    ensures var t := if |s| <= HEADER_READ_LIMIT then s else s[..HEADER_READ_LIMIT];
            HeaderFromReader(t) == if IdWidth(hd.numEntriesBefore) <= 96 then Ok((hd, |HeaderBytes(hd)|)) else Err(HeaderTooShort)
  {
    hide HeaderBytes, HeaderFromReader, IdWidth;
    var head := HeaderBytes(hd);
    if |s| <= HEADER_READ_LIMIT {
      HeaderRoundTrip(hd, rest);
    } else if |head| <= HEADER_READ_LIMIT {
      assert s[..HEADER_READ_LIMIT] == head + rest[..HEADER_READ_LIMIT - |head|];
      HeaderRoundTrip(hd, rest[..HEADER_READ_LIMIT - |head|]);
    } else {
      SliceLeft(head, rest, 0, HEADER_READ_LIMIT);
      assert s[..HEADER_READ_LIMIT] == head[..HEADER_READ_LIMIT];
      HeaderTorn(hd, HEADER_READ_LIMIT);
    }
  }

  // ----- Reading what was written -----

  /**
   * A reader of this state: it gets the bytes of the state's files, from either tier, sees the
   * state's memory, and looks files up in a layout that tells the truth about them. The file being
   * written is found in the WAL.
   */
  ghost predicate Reads(env: ReaderFsm.Env, s: Queue, lay: Lookup.Layout) {
    && s.output.fileId >= 1 && env.mem == s.mem
    && (forall i :: i in AllFiles(s) ==> ReaderFsm.Fetch(env, i) == Ok(Some(AllFiles(s)[i])))
    && ReaderFsm.NothingAfter(env, s.output.fileId)
    && FindsFiles(env, ShapeOf(env.hash, s), lay) && lay.info(s.output.fileId).InWal?
  }

  function ShapeOf(hash: Hash, s: Queue): Shape {
    Shape(1, FilesUpTo(hash, AllFiles(s), s.output.fileId), 0, LogEntries(s.log))
  }

  /** Every file's header can be read and announces the number of entries before it, the current file's too. */
  lemma AllHeadersTrue(hash: Hash, cfg: Config, s: Queue, lay: Lay, i: nat)
    requires InvWith(hash, cfg, s, lay) && Tidy(hash, s.output) && 1 <= i <= s.output.fileId
    ensures i in AllFiles(s) && HeaderTrue(hash, AllFiles(s), i) && HeaderFromReader(AllFiles(s)[i]).Ok?
  {
    hide OutputInv, HeaderTrue, FlowOk, MemOk, AcksOk, ScanFile, RunBytes, HeaderBytes, HeaderFromReader;
    var o, files := s.output, AllFiles(s);
    assert forall j :: 1 <= j < o.fileId ==> EntriesIn(hash, files, j) == EntriesIn(hash, o.others, j);
    if i < o.fileId {
      HeaderTrueLocal(hash, o.others, files, i);
    } else {
      LaidOf(hash, cfg, o, lay);
      OwnHeaderTrue(hash, cfg, o, lay, RunBytes(hash, o.header, lay.inFile), files);
    }
  }

  lemma OffsetIsDisk(hash: Hash, s: Queue, i: nat)
    requires i <= s.output.fileId
    ensures ShapeOf(hash, s).Offset(i) == |DiskEntries(hash, AllFiles(s), i)|
  {
    hide StoredAt, Flat, DiskEntries;
    FlatIsDisk(hash, AllFiles(s), i);
    assert ShapeOf(hash, s).files[..i] == FilesUpTo(hash, AllFiles(s), i);
  }

  lemma FilesAreDense(env: ReaderFsm.Env, cfg: Config, s: Queue, lay: Lay, layout: Lookup.Layout)
    requires InvWith(env.hash, cfg, s, lay) && Tidy(env.hash, s.output) && Reads(env, s, layout)
    ensures FilesDense(env, ShapeOf(env.hash, s)) && MemDense(env.mem, ShapeOf(env.hash, s))
  {
    hide OutputInv, LogEntries, DiskEntries, Flat, StoredAt, IsFile, GoodFile, Lookup.Find, HeaderTrue, EntriesIn, Numbered,
      HeaderFromReader, FindsFiles;
    var sh := ShapeOf(env.hash, s);
    FlatIsDisk(env.hash, AllFiles(s), s.output.fileId);
    FilesAreOneRun(env.hash, cfg, s, lay);
    forall i | 0 <= i < |sh.files|
      ensures IsFile(env, sh.first + i, sh.files[i], sh.base + sh.Offset(i))
    {
      AllHeadersTrue(env.hash, cfg, s, lay, i + 1);
      OffsetIsDisk(env.hash, s, i);
      GoodIsFile(env, cfg, AllFiles(s), i + 1);
    }
  }

  /**
   * A limited read ends with exactly the enqueued entries it asks for if and only if it is right: memory
   * serves its start, or the lookup answers and no file from there on was cut off by a crash in the last
   * entry asked for, or that entry was never enqueued again, or memory takes over before. A read for
   * which the lookup answers always ends, and leaves out at most that entry.
   */
  ghost predicate ReturnsExactly(env: ReaderFsm.Env, s: Queue, start: nat, limit: ReaderFsm.Count, step: ReaderFsm.Count, prefetching: bool) {
    var sh, last, found := ShapeOf(env.hash, s), EndOf(start, limit, step), env.find(start);
    var state, wanted := ReaderFsm.LookupPositive(start, limit), Selected(LogEntries(s.log), start, Some(last), step);
    && (ReaderFsm.EndsWith(env, state, step, prefetching, ReaderFsm.Move(ReaderFsm.Completed, wanted)) <==>
          ReadIsRight(sh, s.mem, found, start, last, step))
    && (found.Ok? && found.value.Some? && !ReadIsRight(sh, s.mem, found, start, last, step) ==>
          && last < |s.log|
          && exists sent :: && wanted == sent + [Entry(last, s.log[last])]
                            && ReaderFsm.EndsWith(env, state, step, prefetching, ReaderFsm.Move(ReaderFsm.Completed, sent)))
  }

  /** So does every read by every reader of a queue in order, whatever its files and headers look like. */
  lemma ReaderReturnsLog(env: ReaderFsm.Env, layout: Lookup.Layout, cfg: Config, s: Queue, lay: Lay,
                         start: nat, limit: ReaderFsm.Count, step: ReaderFsm.Count, prefetching: bool)
    requires InvWith(env.hash, cfg, s, lay) && Tidy(env.hash, s.output) && Reads(env, s, layout)
    ensures ReturnsExactly(env, s, start, limit, step, prefetching)
  {
    hide InvWith, Tidy, Selected, FilesDense, MemDense, FindsFiles, ReadIsRight, ReaderFsm.EndsWith, ReaderFsm.Steps,
      Flat, ReaderFsm.Fetch, ReaderFsm.NothingAfter, StoredAt, ReadResult;
    FilesAreDense(env, cfg, s, lay, layout);
    var sh := ShapeOf(env.hash, s);
    MachineReads(env, sh, layout, start, limit, step, prefetching);
    RightExactly(env, sh, layout, start, limit, step);
    if env.find(start).Ok? && env.find(start).value.Some? {
      AnsweredReadEnds(sh, s.mem, env.find(start), start, EndOf(start, limit, step), step);
    }
  }

  /** Where the run starts at id 0, a read for which the lookup answers comes to an end. */
  lemma AnsweredReadEnds(sh: Shape, m: Mem, find: Result<Option<nat>, Lookup.LookupError>, start: nat, last: nat, step: ReaderFsm.Count)
    requires sh.base == 0 && find.Ok? && find.value.Some?
    ensures ReadResult(sh, m, find, start, last, step).Done?
  {
  }

  /**
   * Where the lookup answers, it is because the target is at an end or the search does not stumble; it
   * cannot stumble when every WAL file is followed by a file that is found.
   */
  lemma LookupInState(env: ReaderFsm.Env, s: Queue, layout: Lookup.Layout, start: nat)
    requires Reads(env, s, layout) && Tidy(env.hash, s.output) && FilesDense(env, ShapeOf(env.hash, s))
    ensures var n := s.output.fileId;
            && layout.Holds(1) && layout.Holds(n)
            && (env.find(start).Ok? && env.find(start).value.Some? <==>
                  !(&& layout.Start(1) <= start <= layout.Start(n)
                    && !(layout.info(1).InStore? && start <= layout.info(1).end)
                    && Lookup.Stumbles(layout.info, start, 1, n)))
            && ((forall f: nat :: 1 < f < n && layout.info(f).InWal? ==> layout.info(f + 1).HasData()) ==>
                  env.find(start).Ok? && env.find(start).value.Some?)
  {
    hide FilesDense, FindsFiles, Flat, ReaderFsm.Fetch, ReaderFsm.NothingAfter, StoredAt, Lookup.Find, Lookup.Stumbles, HeaderTrue, HeaderFromReader;
    var sh, n := ShapeOf(env.hash, s), s.output.fileId;
    LayoutInOrder(env, sh, layout);
    FirstAndLast(env, sh, layout);
    FirstFileFound(env, s, layout);
    assert layout.IsLastData(n);
    Lookup.FindFailsExactly(layout, start, n);
    Lookup.DismissedAt(layout, start, n);
    assert env.find(start) == Lookup.Find(layout.info, 1, n, start) by { FindIs(env, sh, layout, start); }
    if forall f: nat :: 1 < f < n && layout.info(f).InWal? ==> layout.info(f + 1).HasData() {
      Lookup.NoStumbling(layout.info, start, 1, n);
    }
  }

  lemma FindIs(env: ReaderFsm.Env, sh: Shape, layout: Lookup.Layout, start: nat)
    requires sh.files != [] && FindsFiles(env, sh, layout)
    ensures layout.first <= layout.last && env.find(start) == Lookup.Find(layout.info, layout.first, layout.last, start)
  {
  }

  /** The first file holds entries or is the one being written, so it is found. */
  lemma FirstFileFound(env: ReaderFsm.Env, s: Queue, layout: Lookup.Layout)
    requires Reads(env, s, layout) && Tidy(env.hash, s.output)
    ensures layout.Holds(1)
  {
    hide Flat, ReaderFsm.Fetch, ReaderFsm.NothingAfter, StoredAt, Lookup.Find, HeaderTrue, HeaderFromReader, ScanFile, DiskEntries;
    var sh := ShapeOf(env.hash, s);
    FirstAndLast(env, sh, layout);
    if s.output.fileId > 1 {
      FileBounds(env, sh, layout, 0);
      OffsetIsDisk(env.hash, s, 0);
      OffsetIsDisk(env.hash, s, 1);
      LastFile(env.hash, AllFiles(s), 1);
      NoFilesYet(env.hash, AllFiles(s));
    }
  }

  lemma NoFilesYet(hash: Hash, files: Files)
    ensures DiskEntries(hash, files, 0) == []
  {
  }

  // ----- Every reachable state has a reader -----

  /** What probing both tiers tells: the store's range first, then the WAL header. */
  function TierProbe(g: Setting, s: System, id: nat): Lookup.Info {
    match Conversion.GetRange(g.crypto, g.verify, Dirs(s), id)
    case Err(_) => Lookup.Broken(true)
    case Ok(Some((first, last))) => Lookup.InStore(first, last)
    case Ok(None) => Probe(Dirs(s).wal, id)
  }

  ghost function TierLayout(g: Setting, s: System): Lookup.Layout {
    Lookup.Layout(1, s.queue.output.fileId, (id: nat) => TierProbe(g, s, id), (id: nat) => |DiskEntries(g.hash, AllFiles(s.queue), id)|)
  }

  /** The reader over the system's memory and the files of both tiers. */
  ghost function TierEnv(g: Setting, s: System): ReaderFsm.Env
    requires s.queue.output.fileId >= 1
  {
    ReaderFsm.Env(
      g.hash,
      id => if id in Dirs(s).store then ReaderFsm.Got(Dirs(s).store[id]) else ReaderFsm.Absent,
      id => if id in Dirs(s).wal then ReaderFsm.Got(Dirs(s).wal[id]) else ReaderFsm.Absent,
      (id, bytes) => match StoreCodec.Extract(g.crypto, id, bytes, false) case Ok(wal) => Some(wal) case Err(_) => None,
      s.queue.mem,
      (target: nat) => Lookup.Find((id: nat) => TierProbe(g, s, id), 1, s.queue.output.fileId, target))
  }

  /** What probing tells about a file that starts at an id and holds so many entries. */
  predicate Tells(info: Lookup.Info, before: nat, count: nat) {
    match info
    case InStore(a, b) => a == before && b + 1 == before + count
    case InWal(a) => a == before
    case Missing => count == 0
    case _ => false
  }

  /** A file in its tiers: it reads as the original, and probing agrees with it. */
  lemma FileTold(g: Setting, s: System, id: nat, wal: Bytes, before: nat, count: nat)
    requires g.crypto.Lawful() && s.queue.output.fileId >= 1
    requires Conversion.FileOk(g.crypto, g.hash, Dirs(s), id, wal) && ContentOf(g.hash, Some(wal)) == Ok(WalContent(before, count, wal))
    requires IdWidth(before) <= 32 && IdWidth(count) <= 32 && Probe(map[id := wal], id) == Lookup.InWal(before)
    ensures ReaderFsm.Fetch(TierEnv(g, s), id) == Ok(Some(wal)) && Tells(TierProbe(g, s, id), before, count)
    ensures TierProbe(g, s, id).HasData() <==> count > 0 || id in Dirs(s).wal || id in Dirs(s).ranges
    ensures id in Dirs(s).wal && id !in Dirs(s).ranges && count == 0 ==> TierProbe(g, s, id).InWal?
    ensures id in Dirs(s).wal && id !in Dirs(s).store && id !in Dirs(s).ranges ==> TierProbe(g, s, id).InWal?
  {
    hide IdWidth, ContentOf, HeaderFromReader, StoreCodec.Extract, StoreCodec.RangeFromFile, Conversion.IsStoreOf, Lookup.Find;
    assert Conversion.NarrowNumbers(g.hash, wal);
    var dirs := Dirs(s);
    if id in dirs.store {
      Conversion.StoreOfExtracts(g.crypto, g.hash, id, dirs.store[id], wal, false);
      Conversion.StoreOfRange(g.crypto, g.hash, id, dirs.store[id], wal, g.verify);
    }
  }

  /** The numbers of a file are small, and each of its tiers tells the truth about it. */
  lemma FileInTiers(g: Setting, s: System, lay: Lay, i: nat)
    requires g.crypto.Lawful() && InvWith(g.hash, g.cfg, s.queue, lay) && Tidy(g.hash, s.queue.output) && ShortIds(s.queue)
    requires Filed(g, s.queue.output, s.tiers) && 1 <= i <= s.queue.output.fileId
    ensures var before, count := |DiskEntries(g.hash, AllFiles(s.queue), i - 1)|, |EntriesIn(g.hash, AllFiles(s.queue), i)|;
            && i in AllFiles(s.queue) && ReaderFsm.Fetch(TierEnv(g, s), i) == Ok(Some(AllFiles(s.queue)[i]))
            && Tells(TierProbe(g, s, i), before, count)
            && (TierProbe(g, s, i).HasData() <==> count > 0 || i in Dirs(s).wal || i in Dirs(s).ranges)
            && (i == s.queue.output.fileId ==> TierProbe(g, s, i).InWal?)
  {
    hide InvWith, DiskEntries, EntriesIn, HeaderTrue, GoodFile, IdWidth, ContentOf, HeaderFromReader, Filed, Dirs,
      Conversion.FileOk, TierProbe, Probe, ReaderFsm.Fetch, LogEntries, Tells, TierEnv;
    var hash, q, files := g.hash, s.queue, AllFiles(s.queue);
    var before, count, n := |DiskEntries(hash, files, i - 1)|, |EntriesIn(hash, files, i)|, q.output.fileId;
    FilesAreOneRun(hash, g.cfg, q, lay);
    AllHeadersTrue(hash, g.cfg, q, lay, i);
    ContentTells(hash, g.cfg, files, i);
    EntriesAdd(hash, files, i, n);
    SmallNumbers(before, count, |q.log|);
    ProbeTells(hash, g.cfg, files, i);
    ProbeLocal(files, map[i := files[i]], i);
    StandsInTiers(g, s, lay, i);
    FileTold(g, s, i, files[i], before, count);
    if i == n {
      CurrentIsWal(g, s, lay);
    }
  }

  /** The file being written is in the WAL, without a range, and in the store only if it holds nothing. */
  lemma CurrentIsWal(g: Setting, s: System, lay: Lay)
    requires InvWith(g.hash, g.cfg, s.queue, lay) && Tidy(g.hash, s.queue.output) && Filed(g, s.queue.output, s.tiers)
    ensures var n, dirs := s.queue.output.fileId, Dirs(s);
            && n in dirs.wal && n !in dirs.ranges && (n in dirs.store ==> EntriesIn(g.hash, AllFiles(s.queue), n) == [])
  {
    hide InvWith, Tidy, Conversion.FileOk, HeaderBytes, IdWidth, ScanFile, Conversion.IsStoreOf;
    var o := s.queue.output;
    CurrentNotFinished(g.hash, o);
    OutputOf(g.hash, g.cfg, s.queue, lay);
    if o.fileId in s.tiers.store {
      NothingWritten(g.hash, g.cfg, o, lay);
      HeaderOnly(g.hash, o.header);
    }
  }

  /** The store is asked first: its range decides, an error of its is one for the lookup, and only without either is the WAL asked. */
  lemma StoreAskedFirst(g: Setting, s: System, id: nat)
    ensures var range, probe := Conversion.GetRange(g.crypto, g.verify, Dirs(s), id), TierProbe(g, s, id);
            && (range.Err? <==> probe.StoreBroken())
            && (range.Ok? && range.value.Some? <==> probe.InStore?)
            && (probe.InStore? ==> range.value == Some((probe.start, probe.end)))
            && (range == Ok(None) ==> probe == Probe(Dirs(s).wal, id))
  {
    hide Conversion.GetRange, HeaderFromReader;
  }

  lemma ProbeLocal(a: Files, b: Files, i: nat)
    requires i in a && i in b && a[i] == b[i]
    ensures Probe(a, i) == Probe(b, i)
  {
  }

  /**
   * A system in order has a reader over both tiers. The files it does not find are exactly the finished
   * ones without entries whose WAL file is deleted and whose range is not cached.
   */
  lemma ReaderInState(g: Setting, s: System, lay: Lay)
    requires g.crypto.Lawful() && InvWith(g.hash, g.cfg, s.queue, lay) && SystemInv(g, s)
    ensures var q, layout := s.queue, TierLayout(g, s);
            && q.output.fileId >= 1 && Reads(TierEnv(g, s), q, layout)
            && forall i :: 1 <= i <= q.output.fileId ==>
                 (layout.Holds(i) <==> EntriesIn(g.hash, AllFiles(q), i) != [] || i in Dirs(s).wal || i in Dirs(s).ranges)
  {
    hide InvWith, Inv, Tidy, EmptiesOk, ShortIds, EntriesIn, Filed, ShapeOf, Dirs, TierEnv, TierLayout, FindsFiles, ReaderFsm.Fetch,
      ReaderFsm.NothingAfter;
    FirstFileId(g.hash, s.queue.output);
    EveryFileFetched(g, s, lay);
    LayoutTells(g, s, lay);
    NothingLater(g, s);
    EnvIs(g, s);
  }

  lemma FirstFileId(hash: Hash, o: Output)
    requires Tidy(hash, o)
    ensures o.fileId >= 1 && forall i :: i in o.others <==> 1 <= i < o.fileId
  {
    hide HeaderTrue, HeaderFromReader, EntriesIn;
  }

  lemma EveryFileFetched(g: Setting, s: System, lay: Lay)
    requires g.crypto.Lawful() && InvWith(g.hash, g.cfg, s.queue, lay) && SystemInv(g, s) && s.queue.output.fileId >= 1
    ensures forall i :: i in AllFiles(s.queue) ==> ReaderFsm.Fetch(TierEnv(g, s), i) == Ok(Some(AllFiles(s.queue)[i]))
  {
    hide InvWith, Inv, Tidy, EmptiesOk, ShortIds, EntriesIn, DiskEntries, Filed, Dirs, TierEnv, TierProbe, ReaderFsm.Fetch, Tells;
    FirstFileId(g.hash, s.queue.output);
    forall i | i in AllFiles(s.queue)
      ensures ReaderFsm.Fetch(TierEnv(g, s), i) == Ok(Some(AllFiles(s.queue)[i]))
    {
      FileInTiers(g, s, lay, i);
    }
  }

  lemma LayoutTells(g: Setting, s: System, lay: Lay)
    requires g.crypto.Lawful() && InvWith(g.hash, g.cfg, s.queue, lay) && SystemInv(g, s) && s.queue.output.fileId >= 1
    ensures var q, layout := s.queue, TierLayout(g, s);
            && FindsFiles(TierEnv(g, s), ShapeOf(g.hash, q), layout) && layout.info(q.output.fileId).InWal?
            && forall i :: 1 <= i <= q.output.fileId ==>
                 (layout.Holds(i) <==> EntriesIn(g.hash, AllFiles(q), i) != [] || i in Dirs(s).wal || i in Dirs(s).ranges)
  {
    hide InvWith, Inv, Tidy, EmptiesOk, ShortIds, EntriesIn, DiskEntries, Filed, Dirs, TierProbe, ReaderFsm.Fetch, Tells, InfoAgrees,
      Lookup.Find, StoreCodec.Extract, StoredAt, LogEntries;
    var q, layout, sh := s.queue, TierLayout(g, s), ShapeOf(g.hash, s.queue);
    forall i | 1 <= i <= q.output.fileId
      ensures layout.Holds(i) <==> EntriesIn(g.hash, AllFiles(q), i) != [] || i in Dirs(s).wal || i in Dirs(s).ranges
      ensures i == q.output.fileId ==> layout.info(i).InWal?
    {
      FileInTiers(g, s, lay, i);
    }
    forall i | 0 <= i < |sh.files|
      ensures InfoAgrees(layout, sh, i)
    {
      FileInTiers(g, s, lay, i + 1);
      TiersAgree(g, s, i + 1);
    }
  }

  lemma NothingLater(g: Setting, s: System)
    requires Tidy(g.hash, s.queue.output) && Filed(g, s.queue.output, s.tiers)
    ensures ReaderFsm.NothingAfter(TierEnv(g, s), s.queue.output.fileId)
  {
    hide HeaderTrue, HeaderFromReader, EntriesIn, Conversion.FileOk, TakenUp, StoreCodec.Extract, Lookup.Find, TierProbe;
  }

  lemma TiersAgree(g: Setting, s: System, i: nat)
    requires 1 <= i <= s.queue.output.fileId
    requires Tells(TierProbe(g, s, i), |DiskEntries(g.hash, AllFiles(s.queue), i - 1)|, |EntriesIn(g.hash, AllFiles(s.queue), i)|)
    ensures InfoAgrees(TierLayout(g, s), ShapeOf(g.hash, s.queue), i - 1)
  {
    hide DiskEntries, EntriesIn, TierProbe, StoredAt, Flat, LogEntries;
    FileOffsets(g.hash, s.queue, i);
  }

  lemma FileOffsets(hash: Hash, s: Queue, i: nat)
    requires 1 <= i <= s.output.fileId
    ensures var sh := ShapeOf(hash, s);
            && sh.Offset(i - 1) == |DiskEntries(hash, AllFiles(s), i - 1)|
            && sh.Offset(i) == |DiskEntries(hash, AllFiles(s), i)| == sh.Offset(i - 1) + |EntriesIn(hash, AllFiles(s), i)|
  {
    hide EntriesIn, StoredAt, Flat;
    OffsetIsDisk(hash, s, i - 1);
    OffsetIsDisk(hash, s, i);
    LastFile(hash, AllFiles(s), i);
  }

  /**
   * Every reachable state has a reader, wherever conversions and crashes came in between. The files it
   * does not find are exactly the finished ones without entries whose WAL file is deleted and whose
   * range is not cached.
   */
  lemma ReaderExists(g: Setting, events: seq<Event>)
    requires g.crypto.Lawful() && CanAll(g, Begin(), events)
    ensures var s := AfterAll(g, Begin(), events);
            var q, layout := s.queue, TierLayout(g, s);
            && q.output.fileId >= 1 && Reads(TierEnv(g, s), q, layout)
            && forall i :: 1 <= i <= q.output.fileId ==>
                 (layout.Holds(i) <==> EntriesIn(g.hash, AllFiles(q), i) != [] || i in Dirs(s).wal || i in Dirs(s).ranges)
  {
    hide InvWith, CanAll, AfterAll, Begin, SystemInv, Reads, TierEnv, TierLayout, EntriesIn, Dirs;
    var lay := ReachedInOrder(g, events);
    ReaderInState(g, AfterAll(g, Begin(), events), lay);
  }

  /**
   * In every reachable state, after any number of conversions and crashes in any order, every limited
   * read over both tiers and memory returns exactly the enqueued entries it asks for if and only if it
   * is right, and leaves out at most the last one otherwise.
   */
  lemma ReadReturnsLog(g: Setting, events: seq<Event>, start: nat, limit: ReaderFsm.Count, step: ReaderFsm.Count, prefetching: bool)
    requires g.crypto.Lawful() && CanAll(g, Begin(), events)
    ensures var s := AfterAll(g, Begin(), events);
            s.queue.output.fileId >= 1 && ReturnsExactly(TierEnv(g, s), s.queue, start, limit, step, prefetching)
  {
    hide InvWith, CanAll, AfterAll, Begin, Inv, Tidy, EmptiesOk, ShortIds, Filed, Reads, TierLayout, ReturnsExactly, TierEnv, EntriesIn, Dirs;
    var lay := ReachedInOrder(g, events);
    var s := AfterAll(g, Begin(), events);
    ReaderInState(g, s, lay);
    EnvIs(g, s);
    ReaderReturnsLog(TierEnv(g, s), TierLayout(g, s), g.cfg, s.queue, lay, start, limit, step, prefetching);
  }

  lemma EnvIs(g: Setting, s: System)
    requires s.queue.output.fileId >= 1
    ensures TierEnv(g, s).hash == g.hash && TierEnv(g, s).mem == s.queue.mem
  {
    hide Lookup.Find, TierProbe, StoreCodec.Extract;
  }

  /** In every reachable state the lookup answers, except when its search stumbles over an empty file that is not found. */
  lemma LookupFailsExactly(g: Setting, events: seq<Event>, start: nat)
    requires g.crypto.Lawful() && CanAll(g, Begin(), events)
    ensures var s := AfterAll(g, Begin(), events);
            var layout, n := TierLayout(g, s), s.queue.output.fileId;
            && n >= 1 && layout.Holds(1) && layout.Holds(n)
            && var find := TierEnv(g, s).find(start);
               && (find.Ok? && find.value.Some? <==>
                     !(&& layout.Start(1) <= start <= layout.Start(n)
                       && !(layout.info(1).InStore? && start <= layout.info(1).end)
                       && Lookup.Stumbles(layout.info, start, 1, n)))
               && ((forall f: nat :: 1 < f < n && layout.info(f).InWal? ==> layout.info(f + 1).HasData()) ==>
                     find.Ok? && find.value.Some?)
  {
    hide InvWith, CanAll, AfterAll, Begin, Inv, Tidy, EmptiesOk, ShortIds, Filed, Reads, TierLayout, TierEnv, EntriesIn, Dirs, FilesDense, MemDense,
      Lookup.Stumbles, ShapeOf;
    var lay := ReachedInOrder(g, events);
    var s := AfterAll(g, Begin(), events);
    ReaderInState(g, s, lay);
    EnvIs(g, s);
    FilesAreDense(TierEnv(g, s), g.cfg, s.queue, lay, TierLayout(g, s));
    LookupInState(TierEnv(g, s), s.queue, TierLayout(g, s), start);
  }

  // ----- Without crashes nothing is cut off -----

  /** A file that is not cut off: a header and the encoded entries, nothing else. */
  ghost predicate IsWhole(hash: Hash, s: Bytes) {
    exists hd, es :: IsWholeOf(hash, s, hd, es)
  }

  ghost predicate IsWholeOf(hash: Hash, s: Bytes, hd: WalHeader, es: seq<Entry>) {
    hd.Storable() && AllFit(hd, es) && s == HeaderBytes(hd) + RunBytes(hash, hd, es)
  }

  ghost predicate Untorn(hash: Hash, o: Output) {
    forall i :: i in o.others ==> IsWhole(hash, o.others[i])
  }

  /** Every finished file holds entries, and so will the current one. */
  ghost predicate Full(hash: Hash, o: Output) {
    (forall i :: i in o.others ==> EntriesIn(hash, o.others, i) != []) && (o.fileId > 1 ==> o.hasWritten)
  }

  lemma WholeIsNotTorn(hash: Hash, files: Files, i: nat)
    requires i in files && IsWhole(hash, files[i])
    ensures !StoredAt(hash, files, i).torn
  {
    hide HeaderBytes, RunBytes, ScanFile, HeaderFromReader, Fits, WholeEntries, HeadersSeen, EndsDamaged;
    var hd, es :| IsWholeOf(hash, files[i], hd, es);
    var run := RunBytes(hash, hd, es);
    HeaderRoundTrip(hd, run);
    DropLeft(HeaderBytes(hd), run);
    DamagedPrefix(hash, hd, es, |run|);
    WholeRun(hash, hd, es);
    TakeAll(run);
  }

  lemma StepUntorn(hash: Hash, cfg: Config, s: Queue, step: Step)
    requires Inv(hash, cfg, s) && Untorn(hash, s.output) && CanStep(hash, cfg, s, step) && !step.Crash?
    ensures Untorn(hash, Apply(hash, cfg, s, step).output)
  {
    hide InvWith, IsWhole, Resumed, StorableId, Accepts, AfterEnqueue, AfterBatch, AfterAck, EntryBytes, TakeBlock, FilesLeft, CloseFile, MustRotate;
    if step.WriteNext? && MustRotate(s.output, cfg, s.toWrite[0]) {
      var lay :| InvWith(hash, cfg, s, lay);
      ClosedIsWhole(hash, cfg, s, lay, step.lands);
    }
  }

  lemma ClosedIsWhole(hash: Hash, cfg: Config, s: Queue, lay: Lay, lands: bool)
    requires InvWith(hash, cfg, s, lay)
    ensures IsWhole(hash, CloseFile(s.output.out, lands, cfg.fsync).state.file)
    ensures IsWhole(hash, s.output.out.file)
  {
    hide OutputInv, CloseFile, RunBytes, HeaderBytes, Fits, MemOk, FlowOk, AcksOk;
    LaidOf(hash, cfg, s.output, lay);
    CloseFileLaid(s.output.out, hash, s.output.header, lay, lands, cfg.fsync);
    assert IsWholeOf(hash, CloseFile(s.output.out, lands, cfg.fsync).state.file, s.output.header, lay.All());
    assert IsWholeOf(hash, s.output.out.file, s.output.header, lay.inFile);
  }

  /** Without a crash no file is left before it has an entry. */
  lemma WriteFull(hash: Hash, cfg: Config, o: Output, lay: Lay, e: Entry, lands: nat -> bool)
    requires OutputInv(hash, cfg, o, lay) && Tidy(hash, o) && Full(hash, o) && StorableId(e.id) && e.id == |Content(hash, o, lay)|
    ensures Full(hash, WriteOne(o, hash, cfg, e, lands))
  {
    hide OutputInv, Tidy, Content, CloseFile, MustRotate, ScanFile, EntryBytes, HeaderBytes, Append, StorableId;
    if MustRotate(o, cfg, e) {
      if o.fileId == 1 {
        FirstFileNotEmpty(hash, cfg, o, lay, e);
      } else {
        FirstFileId(hash, o);
        WrittenHasEntries(hash, cfg, o, lay);
      }
      ClosedFileGood(hash, cfg, o, lay, lands(o.fileId));
    }
  }

  lemma StepFull(hash: Hash, cfg: Config, s: Queue, step: Step)
    requires Inv(hash, cfg, s) && Tidy(hash, s.output) && Full(hash, s.output) && CanStep(hash, cfg, s, step) && !step.Crash?
    ensures Full(hash, Apply(hash, cfg, s, step).output)
  {
    hide InvWith, Tidy, Full, StorableId, Accepts, AfterEnqueue, AfterBatch, AfterAck, WriteOne, TakeBlock, FilesLeft;
    if step.WriteNext? {
      var lay :| InvWith(hash, cfg, s, lay);
      OutputOf(hash, cfg, s, lay);
      NextToWrite(hash, s, lay);
      WriteFull(hash, cfg, s.output, lay, s.toWrite[0], _ => step.lands);
    } else {
      SameFull(hash, s.output, Apply(hash, cfg, s, step).output);
    }
  }

  lemma SameFull(hash: Hash, a: Output, b: Output)
    requires a.fileId == b.fileId && a.hasWritten == b.hasWritten && a.others == b.others && Full(hash, a)
    ensures Full(hash, b)
  {
  }

  lemma WrittenHasEntries(hash: Hash, cfg: Config, o: Output, lay: Lay)
    requires OutputInv(hash, cfg, o, lay) && o.hasWritten
    ensures lay.All() != []
  {
    hide Laid, DiskEntries, Numbered;
  }

  lemma {:induction false} RunUntorn(hash: Hash, cfg: Config, s: Queue, steps: seq<Step>)
    requires Inv(hash, cfg, s) && Tidy(hash, s.output) && Untorn(hash, s.output) && Full(hash, s.output) && CanRun(hash, cfg, s, steps)
    requires forall i :: 0 <= i < |steps| ==> !steps[i].Crash?
    ensures Untorn(hash, Run(hash, cfg, s, steps).output) && Full(hash, Run(hash, cfg, s, steps).output)
    decreases |steps|
  {
    hide Inv, CanStep, Apply, Untorn, Full, Tidy;
    if steps != [] {
      StepKeeps(hash, cfg, s, steps[0]);
      StepTidy(hash, cfg, s, steps[0]);
      StepUntorn(hash, cfg, s, steps[0]);
      StepFull(hash, cfg, s, steps[0]);
      RunUntorn(hash, cfg, Apply(hash, cfg, s, steps[0]), steps[1..]);
    }
  }

  /** In a run without crashes no file is cut off, and none is left without entries. */
  lemma NoCrashNoTear(hash: Hash, cfg: Config, steps: seq<Step>, id: nat)
    requires CanRun(hash, cfg, Start(), steps) && forall i :: 0 <= i < |steps| ==> !steps[i].Crash?
    ensures var s := Run(hash, cfg, Start(), steps);
            ShapeOf(hash, s).NoTornFrom(0, id) && forall i :: i in s.output.others ==> EntriesIn(hash, s.output.others, i) != []
  {
    hide InvWith, CanRun, Run, Start, Tidy, Untorn, ShapeOf, EntriesIn;
    StartIsOk(hash, cfg);
    StartTidy(hash);
    StartUntorn(hash);
    RunTidy(hash, cfg, Start(), steps);
    RunUntorn(hash, cfg, Start(), steps);
    var s := Run(hash, cfg, Start(), steps);
    var lay :| InvWith(hash, cfg, s, lay);
    NothingTorn(hash, cfg, s, lay, id);
  }

  /** So in runs without crashes, whatever is converted meanwhile, every limited read returns exactly what it asks for. */
  lemma CrashFreeRead(g: Setting, events: seq<Event>, start: nat, limit: ReaderFsm.Count, step: ReaderFsm.Count, prefetching: bool)
    requires g.crypto.Lawful() && CanAll(g, Begin(), events) && forall i :: 0 <= i < |events| ==> !events[i].Fail?
    ensures var s := AfterAll(g, Begin(), events);
            var wanted := Selected(LogEntries(s.queue.log), start, Some(EndOf(start, limit, step)), step);
            && s.queue.output.fileId >= 1
            && ReaderFsm.EndsWith(TierEnv(g, s), ReaderFsm.LookupPositive(start, limit), step, prefetching,
                                  ReaderFsm.Move(ReaderFsm.Completed, wanted))
  {
    hide InvWith, CanAll, AfterAll, Begin, SystemInv, CanRun, Run, Start, LogEntries, Selected, ReaderFsm.EndsWith, TierEnv, TierLayout,
      Reads, ShapeOf,
      ReadIsRight, EntriesIn, Dirs, Lookup.Stumbles;
    BeginOk(g);
    var steps := RunKeepsSystem(g, Begin(), events);
    BeginQueue();
    var s, last := AfterAll(g, Begin(), events), EndOf(start, limit, step);
    NoCrashNoTear(g.hash, g.cfg, steps, last);
    var lay := ReachedInOrder(g, events);
    ReaderInState(g, s, lay);
    EnvIs(g, s);
    EveryFileFound(g, s, lay);
    ReadReturnsLog(g, events, start, limit, step, prefetching);
    LookupFailsExactly(g, events, start);
    AllFoundIsRight(TierEnv(g, s), s.queue, TierLayout(g, s), start, last, step);
  }

  lemma BeginQueue()
    ensures Begin().queue == Start()
  {
    hide Start;
  }

  lemma EveryFileFound(g: Setting, s: System, lay: Lay)
    requires g.crypto.Lawful() && InvWith(g.hash, g.cfg, s.queue, lay) && SystemInv(g, s)
    requires forall i :: i in s.queue.output.others ==> EntriesIn(g.hash, s.queue.output.others, i) != []
    ensures forall f: nat :: 1 <= f <= s.queue.output.fileId ==> TierLayout(g, s).info(f).HasData()
  {
    hide InvWith, Inv, EmptiesOk, ShortIds, Filed, HeaderTrue, HeaderFromReader, TierProbe, Lookup.Find, Reads, ScanFile, StoreCodec.Extract;
    ReaderInState(g, s, lay);
    forall f: nat | 1 <= f <= s.queue.output.fileId
      ensures TierLayout(g, s).info(f).HasData()
    {
      if f < s.queue.output.fileId {
        assert EntriesIn(g.hash, AllFiles(s.queue), f) == EntriesIn(g.hash, s.queue.output.others, f);
      }
      assert TierLayout(g, s).Holds(f);
    }
  }

  /** Where the lookup answers and no file is cut off, a read is right. */
  lemma AllFoundIsRight(env: ReaderFsm.Env, s: Queue, layout: Lookup.Layout, start: nat, last: nat, step: ReaderFsm.Count)
    requires Reads(env, s, layout) && env.find(start).Ok? && env.find(start).value.Some? && ShapeOf(env.hash, s).NoTornFrom(0, last)
    ensures ReadIsRight(ShapeOf(env.hash, s), s.mem, env.find(start), start, last, step)
  {
    hide Flat, StoredAt, LogEntries, Lookup.Find, ReaderFsm.Fetch, ReaderFsm.NothingAfter;
    FirstAndLast(env, ShapeOf(env.hash, s), layout);
    AnswerIsAFile(env, ShapeOf(env.hash, s), layout, start);
  }

  lemma AnswerIsAFile(env: ReaderFsm.Env, sh: Shape, layout: Lookup.Layout, start: nat)
    requires sh.files != [] && FindsFiles(env, sh, layout) && env.find(start).Ok? && env.find(start).value.Some?
    ensures env.find(start).value.value >= sh.first
  {
    hide Lookup.Find, InfoAgrees;
    FindIs(env, sh, layout, start);
    Lookup.FindInBounds(layout.info, layout.first, layout.last, start);
  }

  lemma NothingTorn(hash: Hash, cfg: Config, s: Queue, lay: Lay, id: nat)
    requires InvWith(hash, cfg, s, lay) && Tidy(hash, s.output) && Untorn(hash, s.output)
    ensures ShapeOf(hash, s).NoTornFrom(0, id)
  {
    hide InvWith, StoredAt, IsWhole, LogEntries, Flat, HeaderTrue, HeaderFromReader;
    ClosedIsWhole(hash, cfg, s, lay, true);
    forall i | 0 <= i < s.output.fileId
      ensures !ShapeOf(hash, s).files[i].torn
    {
      WholeIsNotTorn(hash, AllFiles(s), i + 1);
    }
  }

  lemma StartUntorn(hash: Hash)
    ensures Untorn(hash, Start().output) && Full(hash, Start().output)
  {
    hide HeaderBytes, IsWhole;
    StartOutput();
  }
}
