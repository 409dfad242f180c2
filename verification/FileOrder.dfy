/**
 * The files of a queue stay in order: numbered without gaps, with headers that tell the truth, and
 * without entries only where recovery had to leave a file behind.
 */
module FileOrder {
  import opened Outcomes
  import opened Bytes
  import opened WalCodec
  import opened WalScan
  import opened WalReader
  import opened Selection
  import opened OrderedBuffering
  import opened AckFileWriting
  import opened MemQueues
  import opened Disk
  import opened WalWriting
  import opened Recovery
  import opened Durability

  // ----- File ids and headers stay in line -----

  /** A file's header, as far as it can be read, announces how many entries precede the file. */
  ghost predicate HeaderTrue(hash: Hash, files: Files, i: nat)
    requires i in files && i >= 1
  {
    var r := HeaderFromReader(files[i]);
    r.Ok? ==> r.value.0.numEntriesBefore == |DiskEntries(hash, files, i - 1)|
  }

  /** Files are numbered 1, 2, ... up to the one being written; the first of several holds entries. */
  ghost predicate Tidy(hash: Hash, o: Output) {
    && o.fileId >= 1
    && (forall i :: i in o.others <==> 1 <= i < o.fileId)
    && (forall i :: i in o.others ==> HeaderTrue(hash, o.others, i) && HeaderFromReader(o.others[i]).Ok?)
    && (if o.fileId == 1 then o.header == DefaultHeader else EntriesIn(hash, o.others, 1) != [])
  }

  lemma HeaderTrueLocal(hash: Hash, a: Files, b: Files, i: nat)
    requires i >= 1 && i in a && i in b && a[i] == b[i] && HeaderTrue(hash, a, i)
    requires forall j :: 1 <= j < i ==> EntriesIn(hash, a, j) == EntriesIn(hash, b, j)
    ensures HeaderTrue(hash, b, i)
  {
    hide ScanFile, HeaderFromReader;
    DiskEntriesLocal(hash, a, b, i - 1);
  }

  /** A file that starts with the current header keeps the headers true. */
  lemma OwnHeaderTrue(hash: Hash, cfg: Config, o: Output, lay: Lay, rest: Bytes, files: Files)
    requires OutputInv(hash, cfg, o, lay) && o.fileId in files && o.header.Storable()
    requires files[o.fileId] == HeaderBytes(o.header) + rest
    requires forall j :: 1 <= j < o.fileId ==> EntriesIn(hash, files, j) == EntriesIn(hash, o.others, j)
    ensures o.fileId >= 1 && HeaderTrue(hash, files, o.fileId) && HeaderFromReader(files[o.fileId]).Ok?
  {
    hide ScanFile, HeaderFromReader, HeaderBytes, OutputInv, Laid, DiskEntries;
    LaidOf(hash, cfg, o, lay);
    HeaderRoundTrip(o.header, rest);
    DiskEntriesLocal(hash, files, o.others, o.fileId - 1);
  }

  /** The first file gets an entry before it is left. */
  lemma FirstFileNotEmpty(hash: Hash, cfg: Config, o: Output, lay: Lay, e: Entry)
    requires OutputInv(hash, cfg, o, lay) && Tidy(hash, o) && o.fileId == 1
    requires e.id == |Content(hash, o, lay)| && MustRotate(o, cfg, e)
    ensures lay.All() != []
  {
    hide Laid, FilesOk, HeaderTrue;
    RecordWidth(|e.data|);
    assert DiskEntries(hash, o.others, 0) == [];
    assert o.header.CanHold(0, |e.data|);
  }

  lemma RotateTidy(hash: Hash, cfg: Config, o: Output, lay: Lay, e: Entry, lands: bool)
    requires OutputInv(hash, cfg, o, lay) && Tidy(hash, o) && StorableId(e.id)
    requires e.id == |Content(hash, o, lay)| && MustRotate(o, cfg, e)
    ensures Tidy(hash, Rotated(o, cfg, e, lands))
  {
    hide RunBytes, HeaderBytes, Fits, CloseFile, ScanFile, DiskEntries, GoodFile, HeaderTrue, OutputInv, MustRotate, Content, HeaderFromReader;
    var c, r := CloseFile(o.out, lands, cfg.fsync), Rotated(o, cfg, e, lands);
    var files := r.others;
    LaidOf(hash, cfg, o, lay);
    ClosedFileGood(hash, cfg, o, lay, lands);
    CloseFileLaid(o.out, hash, o.header, lay, lands, cfg.fsync);
    assert forall j :: 1 <= j < o.fileId ==> EntriesIn(hash, files, j) == EntriesIn(hash, o.others, j);
    OwnHeaderTrue(hash, cfg, o, lay, RunBytes(hash, o.header, lay.All()), files);
    forall i | i in files
      ensures HeaderTrue(hash, files, i) && HeaderFromReader(files[i]).Ok?
    {
      if i < o.fileId {
        HeaderTrueLocal(hash, o.others, files, i);
      }
    }
    if o.fileId == 1 {
      FirstFileNotEmpty(hash, cfg, o, lay, e);
    }
  }

  lemma WriteNextTidy(hash: Hash, cfg: Config, s: Queue, lay: Lay, lands: bool)
    requires InvWith(hash, cfg, s, lay) && Tidy(hash, s.output) && CanStep(hash, cfg, s, WriteNext(lands))
    ensures Tidy(hash, Apply(hash, cfg, s, WriteNext(lands)).output)
  {
    hide OutputInv, Content, Durable, WriteOne, LogEntries, SyncOk, Tidy, StorableId, MemOk, AcksOk;
    OutputHasContent(hash, cfg, s.output, lay);
    NextToWrite(hash, s, lay);
    WriteOneTidy(hash, cfg, s.output, lay, s.toWrite[0], _ => lands);
  }

  lemma WriteOneTidy(hash: Hash, cfg: Config, o: Output, lay: Lay, e: Entry, lands: nat -> bool)
    requires OutputInv(hash, cfg, o, lay) && Tidy(hash, o) && StorableId(e.id) && e.id == |Content(hash, o, lay)|
    ensures Tidy(hash, WriteOne(o, hash, cfg, e, lands))
  {
    hide OutputInv, Content, Rotated, EntryBytes, Append, MustRotate, HeaderTrue, StorableId, HeaderFromReader, EntriesIn;
    if MustRotate(o, cfg, e) {
      RotateTidy(hash, cfg, o, lay, e, lands(o.fileId));
    }
  }

  /** The headers of the files a crash leaves are true, those that can still be read. */
  lemma CrashHeaders(hash: Hash, cfg: Config, s: Queue, lay: Lay, left: Option<nat>)
    requires InvWith(hash, cfg, s, lay) && Tidy(hash, s.output) && CrashCut(s.output, left)
    ensures var files := FilesLeft(s, left);
            forall i :: i in files ==> i >= 1 && HeaderTrue(hash, files, i)
  {
    hide OutputInv, HeaderTrue, ScanFile, FlowOk, MemOk, AcksOk;
    var o, files := s.output, FilesLeft(s, left);
    OnlyNewestChanged(hash, s, left);
    forall i | i in files
      ensures i >= 1 && HeaderTrue(hash, files, i)
    {
      if i < o.fileId {
        HeaderTrueLocal(hash, o.others, files, i);
      } else {
        CutHeader(hash, cfg, s, lay, left.value);
      }
    }
  }

  lemma CutHeader(hash: Hash, cfg: Config, s: Queue, lay: Lay, left: nat)
    requires InvWith(hash, cfg, s, lay) && CrashCut(s.output, Some(left))
    ensures s.output.fileId >= 1 && HeaderTrue(hash, FilesLeft(s, Some(left)), s.output.fileId)
  {
    hide HeaderTrue, ScanFile, FlowOk, MemOk, AcksOk, HeaderBytes, RunBytes, OutputInv, HeaderFromReader, DiskEntries;
    var o, files := s.output, FilesLeft(s, Some(left));
    LaidOf(hash, cfg, o, lay);
    OnTheWay(hash, o.out, o.header, lay);
    OnlyNewestChanged(hash, s, Some(left));
    var head, run := HeaderBytes(o.header), RunBytes(hash, o.header, lay.inFile + lay.inFlight);
    if left < |head| {
      SliceLeft(head, run, 0, left);
      assert files[o.fileId] == head[..left];
      HeaderTorn(o.header, left);
      UnreadableHeaderTrue(hash, files, o.fileId);
    } else {
      assert files[o.fileId] == head + run[..left - |head|];
      OwnHeaderTrue(hash, cfg, o, lay, run[..left - |head|], files);
    }
  }

  lemma UnreadableHeaderTrue(hash: Hash, files: Files, i: nat)
    requires i >= 1 && i in files && HeaderFromReader(files[i]).Err?
    ensures HeaderTrue(hash, files, i)
  {
  }

  /** Which files a crash leaves: all earlier ones, and the newest unless it is gone. */
  lemma CrashKeys(hash: Hash, s: Queue, left: Option<nat>, latest: Option<nat>)
    requires Tidy(hash, s.output) && CrashCut(s.output, left) && IsLatest(FilesLeft(s, left), latest)
    ensures var n := if left.Some? then s.output.fileId else s.output.fileId - 1;
            && (forall i :: i in FilesLeft(s, left) <==> 1 <= i <= n)
            && latest == (if n == 0 then None else Some(n))
  {
    hide HeaderTrue, ScanFile;
    var n := if left.Some? then s.output.fileId else s.output.fileId - 1;
    assert forall i :: i in FilesLeft(s, left) <==> 1 <= i <= n;
    if n > 0 {
      assert n in FilesLeft(s, left);
    }
  }

  /** Recovery goes on in the file after those that are kept. */
  lemma ResumeTidy(hash: Hash, files: Files, n: nat, latest: Option<nat>)
    requires (forall i :: i in files <==> 1 <= i <= n) && latest == (if n == 0 then None else Some(n))
    requires n > 1 ==> EntriesIn(hash, files, 1) != []
    ensures var r := Resumed(hash, files, latest);
            && r.fileId >= 1
            && (forall i :: i in files - {r.fileId} <==> 1 <= i < r.fileId)
            && (n >= 1 && n != r.fileId && n in files - {r.fileId} ==> EntriesIn(hash, files, n) != [])
            && (if r.fileId == 1 then r.header == DefaultHeader else EntriesIn(hash, files - {r.fileId}, 1) != [])
  {
    hide ScanFile, FileEnd, FileHeader;
    if n > 0 {
      var j := LastWithEntries(hash, files, n);
    }
  }

  lemma EntriesNeedHeader(hash: Hash, files: Files, i: nat)
    requires i in files && EntriesIn(hash, files, i) != []
    ensures HeaderFromReader(files[i]).Ok?
  {
    hide HeaderFromReader;
  }

  lemma EarlierFile(s: Queue, left: Option<nat>, i: nat)
    requires CrashCut(s.output, left) && i in FilesLeft(s, left) && i < s.output.fileId
    ensures i in s.output.others && FilesLeft(s, left)[i] == s.output.others[i]
  {
  }

  lemma CrashTidy(hash: Hash, cfg: Config, s: Queue, lay: Lay, left: Option<nat>, latest: Option<nat>)
    requires InvWith(hash, cfg, s, lay) && Tidy(hash, s.output) && CanStep(hash, cfg, s, Crash(left, latest))
    ensures Tidy(hash, Apply(hash, cfg, s, Crash(left, latest)).output)
  {
    hide InvWith, HeaderTrue, Resumed, EntriesIn, HeaderBytes, FilesLeft, IsLatest, HeaderFromReader;
    var files := FilesLeft(s, left);
    var n := if left.Some? then s.output.fileId else s.output.fileId - 1;
    CrashKeys(hash, s, left, latest);
    assert n > 1 ==> EntriesIn(hash, files, 1) == EntriesIn(hash, s.output.others, 1) by {
      if s.output.fileId > 1 {
        OnlyNewestChanged(hash, s, left);
      }
    }
    ResumeTidy(hash, files, n, latest);
    CrashHeaders(hash, cfg, s, lay, left);
    var r := Resumed(hash, files, latest);
    OtherFilesStay(hash, files, r.fileId);
    forall i | i in files - {r.fileId}
      ensures HeaderTrue(hash, files - {r.fileId}, i) && HeaderFromReader(files[i]).Ok?
    {
      HeaderTrueLocal(hash, files, files - {r.fileId}, i);
      if i == n {
        EntriesNeedHeader(hash, files, n);
      } else {
        EarlierFile(s, left, i);
      }
    }
  }

  /** Every step keeps files in line. */
  lemma StepTidy(hash: Hash, cfg: Config, s: Queue, step: Step)
    requires Inv(hash, cfg, s) && Tidy(hash, s.output) && CanStep(hash, cfg, s, step)
    ensures Tidy(hash, Apply(hash, cfg, s, step).output)
  {
    hide InvWith, HeaderTrue, Resumed, StorableId, Accepts, AfterEnqueue, AfterBatch, AfterAck, WriteOne, TakeBlock, FilesLeft, Restart;
    var lay :| InvWith(hash, cfg, s, lay);
    match step
    case WriteNext(lands) => WriteNextTidy(hash, cfg, s, lay, lands);
    case Crash(left, latest) => CrashTidy(hash, cfg, s, lay, left, latest);
    case _ =>
  }

  lemma StartTidy(hash: Hash)
    ensures Tidy(hash, Start().output)
  {
    hide HeaderBytes;
    StartOutput();
  }

  /** Every reachable state is in order. */
  lemma {:induction false} RunTidy(hash: Hash, cfg: Config, s: Queue, steps: seq<Step>)
    requires Inv(hash, cfg, s) && Tidy(hash, s.output) && CanRun(hash, cfg, s, steps)
    ensures Inv(hash, cfg, Run(hash, cfg, s, steps)) && Tidy(hash, Run(hash, cfg, s, steps).output)
    decreases |steps|
  {
    hide Inv, CanStep, Apply, Tidy;
    if steps != [] {
      StepKeeps(hash, cfg, s, steps[0]);
      StepTidy(hash, cfg, s, steps[0]);
      RunTidy(hash, cfg, Apply(hash, cfg, s, steps[0]), steps[1..]);
    }
  }

  // ----- What a file's first bytes tell -----

  /** A file with a readable header is that header and a front part of its run. */
  lemma CutParts(hash: Hash, s: Bytes, hd: WalHeader, es: seq<Entry>, k: nat)
    requires IsCutOf(hash, s, hd, es, k) && HeaderFromReader(s).Ok?
    ensures var n := |HeaderBytes(hd)|;
            && k >= n && s == HeaderBytes(hd) + RunBytes(hash, hd, es)[..k - n]
            && HeaderFromReader(s).value == (hd, n) && s[n..] == RunBytes(hash, hd, es)[..k - n]
            && ScanFile(hash, s) == es[..WholeEntries(hd, es, k - n)]
  {
    hide HeaderBytes, RunBytes, ScanFile, HeaderFromReader, WholeEntries, Fits, Numbered;
    var head, run := HeaderBytes(hd), RunBytes(hash, hd, es);
    ScanCutFile(hash, s, hd, es, k);
    if k < |head| {
      SliceLeft(head, run, 0, k);
      assert s == head[..k];
      HeaderTorn(hd, k);
    } else {
      var part := run[..k - |head|];
      assert s == head + part;
      HeaderRoundTrip(hd, part);
      DropLeft(head, part);
    }
  }

  /** What the conversion reads off a good file with a true header: where it starts and how many entries it holds. */
  lemma ContentTells(hash: Hash, cfg: Config, files: Files, i: nat)
    requires i >= 1 && i in files && GoodFile(hash, cfg, files[i]) && HeaderFromReader(files[i]).Ok? && HeaderTrue(hash, files, i)
    ensures ContentOf(hash, Some(files[i])) == Ok(WalContent(|DiskEntries(hash, files, i - 1)|, |EntriesIn(hash, files, i)|, files[i]))
  {
    hide HeaderBytes, RunBytes, Fits, HeaderFromReader, HeaderFromBytes, Scan, ScanFile, DiskEntries, SizeBound, WholeEntries, Numbered,
      ContentOf, WalRange;
    var s := files[i];
    var hd, es, k: nat :| IsCutOf(hash, s, hd, es, k) && SizeBound(cfg, hd, |es|, |HeaderBytes(hd) + RunBytes(hash, hd, es)|);
    CutParts(hash, s, hd, es, k);
    FilePrefix(hash, hd, es, k);
  }

  lemma SmallNumbers(before: nat, count: nat, all: nat)
    requires before + count <= all && IdWidth(all) <= 32
    ensures IdWidth(before) <= 32 && IdWidth(count) <= 32
  {
    IdWidthMonotone(before, all);
    IdWidthMonotone(count, all);
  }

  lemma {:induction false} EntriesAdd(hash: Hash, files: Files, i: nat, n: nat)
    requires 1 <= i <= n
    ensures |DiskEntries(hash, files, i - 1)| + |EntriesIn(hash, files, i)| <= |DiskEntries(hash, files, n)|
    decreases n
  {
    hide EntriesIn;
    if i < n {
      EntriesAdd(hash, files, i, n - 1);
    }
  }

  // ----- Files without entries -----

  /** The header recovery gives file i, from the files before it. */
  function ResumeHeader(hash: Hash, files: Files, i: nat): WalHeader
    requires i >= 1
  {
    Resumed(hash, files, Some(i - 1)).header
  }

  /** The next entry does not fit under such a header, so its file is left as soon as one is to be written. */
  predicate TooNarrow(hd: WalHeader) {
    IdWidth(hd.numEntriesBefore) > hd.idSizeBytes
  }

  /** A file recovery started and the writer left without writing to it: nothing but recovery's header, too narrow. */
  ghost predicate LeftBehind(hash: Hash, files: Files, i: nat)
    requires i >= 1 && i in files
  {
    var hd := ResumeHeader(hash, files, i);
    hd.Storable() && files[i] == HeaderBytes(hd) && TooNarrow(hd)
  }

  /** Record lengths fit every header, so a finished file without entries was left behind because of the next id. */
  ghost predicate EmptiesOk(hash: Hash, o: Output) {
    && o.fileId >= 1 && o.header.dataSizeBytes >= 8
    && (forall i :: i in o.others ==> i >= 1 && FileHeader(o.others, i).dataSizeBytes >= 8)
    && (forall i :: i in o.others && EntriesIn(hash, o.others, i) == [] ==> LeftBehind(hash, o.others, i))
    && (!o.hasWritten ==> o.header == ResumeHeader(hash, o.others, o.fileId))
  }

  lemma {:induction false} LastWithEntriesLocal(hash: Hash, a: Files, b: Files, n: nat)
    requires forall i :: 1 <= i <= n ==> EntriesIn(hash, a, i) == EntriesIn(hash, b, i)
    ensures LastWithEntries(hash, a, n) == LastWithEntries(hash, b, n)
  {
    hide EntriesIn;
    if n > 0 {
      assert EntriesIn(hash, a, n) == EntriesIn(hash, b, n);
      LastWithEntriesLocal(hash, a, b, n - 1);
    }
  }

  lemma SameFile(hash: Hash, a: Files, b: Files, i: nat)
    requires FileAt(a, i) == FileAt(b, i)
    ensures EntriesIn(hash, a, i) == EntriesIn(hash, b, i) && FileHeader(a, i) == FileHeader(b, i)
    ensures FileEnd(hash, a, i) == FileEnd(hash, b, i)
  {
    hide ScanFile, HeaderFromReader, WalRange;
  }

  /** Only the files before i matter for its header. */
  lemma ResumeHeaderLocal(hash: Hash, a: Files, b: Files, i: nat)
    requires i >= 1 && forall j :: 1 <= j < i ==> FileAt(a, j) == FileAt(b, j)
    ensures ResumeHeader(hash, a, i) == ResumeHeader(hash, b, i)
  {
    hide EntriesIn, FileHeader, FileEnd, FileAt;
    forall j | 1 <= j < i
      ensures EntriesIn(hash, a, j) == EntriesIn(hash, b, j)
    {
      SameFile(hash, a, b, j);
    }
    LastWithEntriesLocal(hash, a, b, i - 1);
    var j := LastWithEntries(hash, a, i - 1);
    if j > 0 {
      SameFile(hash, a, b, j);
    }
  }

  lemma LeftBehindLocal(hash: Hash, a: Files, b: Files, i: nat)
    requires i >= 1 && i in a && i in b && a[i] == b[i] && LeftBehind(hash, a, i)
    requires forall j :: 1 <= j < i ==> FileAt(a, j) == FileAt(b, j)
    ensures LeftBehind(hash, b, i)
  {
    hide ResumeHeader, HeaderBytes, IdWidth;
    ResumeHeaderLocal(hash, a, b, i);
  }

  /** Whatever is left of a file, recovery reads its own header off it or none. */
  lemma HeaderOfCut(files: Files, id: nat, hd: WalHeader, rest: Bytes, k: nat)
    requires id in files && hd.Storable() && k <= |HeaderBytes(hd) + rest| && files[id] == (HeaderBytes(hd) + rest)[..k]
    ensures FileHeader(files, id) == hd || FileHeader(files, id) == DefaultHeader
  {
    hide HeaderBytes, HeaderFromReader;
    var s, head := files[id], HeaderBytes(hd);
    var m := if k <= HEADER_READ_LIMIT then k else HEADER_READ_LIMIT;
    var t := if |s| <= HEADER_READ_LIMIT then s else s[..HEADER_READ_LIMIT];
    assert t == (head + rest)[..m];
    if m < |head| {
      SliceLeft(head, rest, 0, m);
      assert t == head[..m];
      HeaderTorn(hd, m);
    } else {
      assert t == head + rest[..m - |head|];
      HeaderRoundTrip(hd, rest[..m - |head|]);
    }
  }

  /** A file left without entries is left because the next id does not fit. */
  lemma RotateEmpties(hash: Hash, cfg: Config, o: Output, lay: Lay, e: Entry, lands: bool)
    requires OutputInv(hash, cfg, o, lay) && Tidy(hash, o) && EmptiesOk(hash, o) && StorableId(e.id)
    requires e.id == |Content(hash, o, lay)| && MustRotate(o, cfg, e)
    ensures var r := Rotated(o, cfg, e, lands);
            && r.header.dataSizeBytes >= 8
            && (forall i :: i in r.others ==> i >= 1 && FileHeader(r.others, i).dataSizeBytes >= 8)
            && (forall i :: i in r.others && EntriesIn(hash, r.others, i) == [] ==> LeftBehind(hash, r.others, i))
  {
    hide RunBytes, HeaderBytes, Fits, CloseFile, ScanFile, DiskEntries, GoodFile, HeaderTrue, HeaderFromReader, FileHeader, ResumeHeader,
      Laid, IdWidth, FilesOk;
    var c, files, n := CloseFile(o.out, lands, cfg.fsync), Rotated(o, cfg, e, lands).others, o.fileId;
    LaidOf(hash, cfg, o, lay);
    ClosedFileGood(hash, cfg, o, lay, lands);
    ClosedBytes(hash, cfg, o, lay, lands);
    forall i | i in files
      ensures i >= 1 && FileHeader(files, i).dataSizeBytes >= 8
      ensures EntriesIn(hash, files, i) == [] ==> LeftBehind(hash, files, i)
    {
      if i == n {
        var rest := RunBytes(hash, o.header, lay.All());
        TakeAll(HeaderBytes(o.header) + rest);
        HeaderOfCut(files, n, o.header, rest, |HeaderBytes(o.header) + rest|);
        if lay.All() == [] {
          NarrowWhenLeft(o, cfg, e);
          ResumeHeaderLocal(hash, o.others, files, n);
        }
      } else {
        SameFile(hash, o.others, files, i);
        if EntriesIn(hash, files, i) == [] {
          LeftBehindLocal(hash, o.others, files, i);
        }
      }
    }
  }

  lemma ClosedBytes(hash: Hash, cfg: Config, o: Output, lay: Lay, lands: bool)
    requires Laid(o.out, hash, o.header, lay)
    ensures o.header.Storable() && AllFit(o.header, lay.All())
    ensures CloseFile(o.out, lands, cfg.fsync).state.file == HeaderBytes(o.header) + RunBytes(hash, o.header, lay.All())
    ensures lay.All() == [] ==> CloseFile(o.out, lands, cfg.fsync).state.file == HeaderBytes(o.header)
  {
    hide HeaderBytes, Fits, CloseFile, IdWidth, EntryBytes;
    CloseFileLaid(o.out, hash, o.header, lay, lands, cfg.fsync);
  }

  lemma NarrowWhenLeft(o: Output, cfg: Config, e: Entry)
    requires MustRotate(o, cfg, e) && !o.hasWritten && e.id == o.header.numEntriesBefore && o.header.dataSizeBytes >= 8
    ensures TooNarrow(o.header)
  {
    hide IdWidth;
    RecordWidth(|e.data|);
  }

  lemma WriteOneEmpties(hash: Hash, cfg: Config, o: Output, lay: Lay, e: Entry, lands: nat -> bool)
    requires OutputInv(hash, cfg, o, lay) && Tidy(hash, o) && EmptiesOk(hash, o)
    requires StorableId(e.id) && e.id == |Content(hash, o, lay)|
    ensures EmptiesOk(hash, WriteOne(o, hash, cfg, e, lands))
  {
    hide OutputInv, Content, EntryBytes, Append, MustRotate, StorableId, EntriesIn, FileHeader, LeftBehind, ResumeHeader, CloseFile,
      HeaderBytes, Tidy;
    if MustRotate(o, cfg, e) {
      RotateEmpties(hash, cfg, o, lay, e, lands(o.fileId));
    }
  }

  /** Recovery's header is the one it gives that file, by the files that are kept. */
  lemma ResumedHeader(hash: Hash, files: Files, latest: Option<nat>)
    requires 0 !in files && IsLatest(files, latest)
    ensures var r := Resumed(hash, files, latest);
            r.fileId >= 1 && r.header == ResumeHeader(hash, files - {r.fileId}, r.fileId)
  {
    hide EntriesIn, FileHeader, FileEnd;
    var r := Resumed(hash, files, latest);
    ResumeHeaderLocal(hash, files, files - {r.fileId}, r.fileId);
  }

  /** The headers of the files a crash leaves are still wide enough for every record. */
  lemma CrashWide(hash: Hash, cfg: Config, s: Queue, lay: Lay, left: Option<nat>)
    requires InvWith(hash, cfg, s, lay) && EmptiesOk(hash, s.output) && CrashCut(s.output, left)
    ensures var files := FilesLeft(s, left); forall i :: i in files ==> i >= 1 && FileHeader(files, i).dataSizeBytes >= 8
  {
    hide OutputInv, FlowOk, MemOk, AcksOk, HeaderBytes, RunBytes, FileHeader, LeftBehind, ResumeHeader, EntriesIn;
    var o, files := s.output, FilesLeft(s, left);
    LaidOf(hash, cfg, o, lay);
    OnTheWay(hash, o.out, o.header, lay);
    forall i | i in files
      ensures i >= 1 && FileHeader(files, i).dataSizeBytes >= 8
    {
      if left.Some? && i == o.fileId {
        HeaderOfCut(files, i, o.header, RunBytes(hash, o.header, lay.inFile + lay.inFlight), left.value);
      } else {
        SameFile(hash, o.others, files, i);
      }
    }
  }

  lemma ResumedWide(hash: Hash, files: Files, latest: Option<nat>)
    requires IsLatest(files, latest) && forall i :: i in files ==> FileHeader(files, i).dataSizeBytes >= 8
    ensures Resumed(hash, files, latest).header.dataSizeBytes >= 8
  {
    hide FileHeader, FileEnd, ScanFile;
  }

  lemma CrashEmpties(hash: Hash, cfg: Config, s: Queue, lay: Lay, left: Option<nat>, latest: Option<nat>)
    requires InvWith(hash, cfg, s, lay) && Tidy(hash, s.output) && EmptiesOk(hash, s.output)
    requires CanStep(hash, cfg, s, Crash(left, latest))
    ensures EmptiesOk(hash, Apply(hash, cfg, s, Crash(left, latest)).output)
  {
    hide InvWith, HeaderTrue, Resumed, EntriesIn, HeaderBytes, IsLatest, HeaderFromReader, FileHeader, LeftBehind, ResumeHeader;
    var o, files := s.output, FilesLeft(s, left);
    var n := if left.Some? then o.fileId else o.fileId - 1;
    CrashKeys(hash, s, left, latest);
    FirstFileStays(hash, s, left);
    ResumeTidy(hash, files, n, latest);
    CrashWide(hash, cfg, s, lay, left);
    ResumedWide(hash, files, latest);
    ResumedHeader(hash, files, latest);
    var r := Resumed(hash, files, latest);
    var kept := files - {r.fileId};
    forall i | i in kept
      ensures i >= 1 && FileHeader(kept, i).dataSizeBytes >= 8
      ensures EntriesIn(hash, kept, i) == [] ==> LeftBehind(hash, kept, i)
    {
      SameFile(hash, files, kept, i);
      if EntriesIn(hash, kept, i) == [] {
        SameFile(hash, o.others, kept, i);
        LeftBehindLocal(hash, o.others, kept, i);
      }
    }
  }

  /** A file other than the newest is what it was. */
  lemma FirstFileStays(hash: Hash, s: Queue, left: Option<nat>)
    requires Tidy(hash, s.output) && CrashCut(s.output, left)
    ensures var n := if left.Some? then s.output.fileId else s.output.fileId - 1;
            n > 1 ==> EntriesIn(hash, FilesLeft(s, left), 1) != []
  {
    hide HeaderTrue, ScanFile, HeaderFromReader;
    OnlyNewestChanged(hash, s, left);
  }

  /** Every step keeps the files without entries in order. */
  lemma StepEmpties(hash: Hash, cfg: Config, s: Queue, step: Step)
    requires Inv(hash, cfg, s) && Tidy(hash, s.output) && EmptiesOk(hash, s.output) && CanStep(hash, cfg, s, step)
    ensures EmptiesOk(hash, Apply(hash, cfg, s, step).output)
  {
    hide InvWith, Tidy, LeftBehind, FileHeader, ResumeHeader, EntriesIn, Resumed, StorableId, Accepts, AfterEnqueue, AfterBatch, AfterAck,
      WriteOne, TakeBlock, FilesLeft, Restart;
    var lay :| InvWith(hash, cfg, s, lay);
    match step
    case WriteNext(lands) =>
      OutputOf(hash, cfg, s, lay);
      NextToWrite(hash, s, lay);
      WriteOneEmpties(hash, cfg, s.output, lay, s.toWrite[0], _ => lands);
    case Crash(left, latest) => CrashEmpties(hash, cfg, s, lay, left, latest);
    case _ =>
  }

  lemma OutputOf(hash: Hash, cfg: Config, s: Queue, lay: Lay)
    requires InvWith(hash, cfg, s, lay)
    ensures OutputInv(hash, cfg, s.output, lay) && s.output.fileId >= 1 && FlowOk(hash, s, lay)
  {
    hide MemOk, AcksOk, Laid;
  }

  lemma StartEmpties(hash: Hash)
    ensures EmptiesOk(hash, Start().output)
  {
    hide HeaderBytes;
    StartOutput();
  }

  /**
   * When recovery takes up the id of a finished file again, it writes the very bytes that file held,
   * and the next entry will again not fit: the file is left as it is once more.
   */
  lemma ReuseChangesNothing(hash: Hash, cfg: Config, s: Queue, lay: Lay, left: Option<nat>, latest: Option<nat>)
    requires InvWith(hash, cfg, s, lay) && Tidy(hash, s.output) && EmptiesOk(hash, s.output)
    requires CanStep(hash, cfg, s, Crash(left, latest))
    ensures var o := Apply(hash, cfg, s, Crash(left, latest)).output;
            o.fileId in s.output.others ==> o.out.file == s.output.others[o.fileId] && TooNarrow(o.header)
    ensures var o := Apply(hash, cfg, s, Crash(left, latest)).output;
            o.fileId == s.output.fileId && !s.output.hasWritten ==> o.header == s.output.header
  {
    hide InvWith, HeaderTrue, Resumed, EntriesIn, HeaderBytes, HeaderFromReader, FileHeader, ResumeHeader, IdWidth;
    var o, files := s.output, FilesLeft(s, left);
    var r := Resumed(hash, files, latest);
    ZeroIsNoFile(hash, s, left);
    ResumedHeader(hash, files, latest);
    ResumeFileIsFree(hash, files, latest);
    if r.fileId <= o.fileId {
      assert forall j :: 1 <= j < r.fileId ==> FileAt(files - {r.fileId}, j) == FileAt(o.others, j);
      ResumeHeaderLocal(hash, o.others, files - {r.fileId}, r.fileId);
    }
    if r.fileId in o.others {
      SameFile(hash, files, o.others, r.fileId);
      assert LeftBehind(hash, o.others, r.fileId);
    }
  }

  lemma ZeroIsNoFile(hash: Hash, s: Queue, left: Option<nat>)
    requires Tidy(hash, s.output) && CrashCut(s.output, left)
    ensures 0 !in FilesLeft(s, left)
  {
    hide HeaderTrue, HeaderFromReader;
  }

  // ----- The header recovery goes on with -----

  /** The last file that holds an entry. */
  ghost predicate IsLastWithEntries(hash: Hash, files: Files, j: nat) {
    j in files && EntriesIn(hash, files, j) != [] && forall i :: i > j ==> EntriesIn(hash, files, i) == []
  }

  /** After a crash, while ids are short, recovery goes on with the widths of the last file that holds an entry. */
  lemma CrashResumesWide(hash: Hash, cfg: Config, s: Queue, lay: Lay, left: Option<nat>, latest: Option<nat>, j: nat)
    requires InvWith(hash, cfg, s, lay) && Tidy(hash, s.output) && IdWidth(|s.log|) <= 96
    requires CrashCut(s.output, left) && IsLatest(FilesLeft(s, left), latest) && IsLastWithEntries(hash, FilesLeft(s, left), j)
    ensures var files := FilesLeft(s, left);
            var r, hd := Resumed(hash, files, latest), HeaderFromReader(files[j]);
            && hd.Ok? && r.header == hd.value.0.(numEntriesBefore := r.Next())
            && forall id, size :: hd.value.0.CanHold(id, size) ==> r.header.CanHold(id, size)
  {
    hide InvWith, Tidy, HeaderTrue, Resumed, EntriesIn, HeaderBytes, RunBytes, HeaderFromReader, IdWidth, SizeBound, DiskEntries, FilesLeft, Survivors, CrashCut,
      LogEntries, Kept, StorableId;
    CutInsideQueue(s, left);
    var files := FilesLeft(s, left);
    CrashFiles(hash, cfg, s, lay, left, latest);
    CrashHeaders(hash, cfg, s, lay, left);
    EntriesNeedHeader(hash, files, j);
    var hd, es, k: nat :| IsCutOf(hash, files[j], hd, es, k) && SizeBound(cfg, hd, |es|, |HeaderBytes(hd) + RunBytes(hash, hd, es)|);
    CutParts(hash, files[j], hd, es, k);
    CutSurvivors(hash, files, j, hd, es, k);
    TrueNumber(hash, files, j);
    NumberBelow(hash, files, j, if latest.Some? then latest.value else 0, |s.log|);
    ResumesWithHeader(hash, files, latest.value, j, hd, es, k);
  }

  lemma CutInsideQueue(s: Queue, left: Option<nat>)
    requires CrashCut(s.output, left)
    ensures left.Some? ==> left.value <= |s.output.out.file + s.output.out.InflightBytes()|
  {
  }

  lemma CutSurvivors(hash: Hash, files: Files, j: nat, hd: WalHeader, es: seq<Entry>, k: nat)
    requires j in files && IsCutOf(hash, files[j], hd, es, k) && EntriesIn(hash, files, j) != []
    ensures Survivors(hd, es, k) > 0
  {
    hide ScanFile, HeaderBytes, RunBytes, Survivors;
    ScanCutFile(hash, files[j], hd, es, k);
  }

  lemma TrueNumber(hash: Hash, files: Files, i: nat)
    requires i >= 1 && i in files && HeaderTrue(hash, files, i) && HeaderFromReader(files[i]).Ok?
    ensures HeaderFromReader(files[i]).value.0.numEntriesBefore == |DiskEntries(hash, files, i - 1)|
  {
    hide DiskEntries, HeaderFromReader;
  }

  lemma NumberBelow(hash: Hash, files: Files, j: nat, n: nat, all: nat)
    requires 1 <= j <= n && |DiskEntries(hash, files, n)| <= all && IdWidth(all) <= 96
    ensures IdWidth(|DiskEntries(hash, files, j - 1)|) <= 96
  {
    hide EntriesIn, IdWidth, DiskEntries;
    EntriesAdd(hash, files, j, n);
    IdWidthMonotone(|DiskEntries(hash, files, j - 1)|, all);
  }

  // ----- Files reported complete -----

  /** The files reported since the process started are those between the one it started with and the current one, in order. */
  ghost predicate Reported(o: Output) {
    |o.completed| < o.fileId && o.completed == IdsFrom(o.fileId - |o.completed|, |o.completed|)
  }

  lemma WriteReports(o: Output, hash: Hash, cfg: Config, e: Entry, lands: nat -> bool)
    requires Reported(o) && StorableId(e.id)
    ensures Reported(WriteOne(o, hash, cfg, e, lands))
  {
    hide WriteOne, StorableId, IdsFrom;
    var r := WriteOne(o, hash, cfg, e, lands);
    OneReport(o, hash, cfg, e, lands);
    IdsFromConcat(o.fileId - |o.completed|, |o.completed|, r.fileId - o.fileId);
  }

  lemma ResumedPositive(hash: Hash, files: Files, latest: Option<nat>)
    ensures Resumed(hash, files, latest).fileId >= 1
  {
    hide FileEnd, FileHeader, ScanFile;
  }

  lemma StepReports(hash: Hash, cfg: Config, s: Queue, step: Step)
    requires Reported(s.output) && CanStep(hash, cfg, s, step)
    ensures Reported(Apply(hash, cfg, s, step).output)
  {
    hide StorableId, Accepts, AfterEnqueue, AfterBatch, AfterAck, WriteOne, TakeBlock, FilesLeft, Resumed, CrashCut, IsLatest, HeaderBytes, MaxAck;
    if step.WriteNext? {
      WriteReports(s.output, hash, cfg, s.toWrite[0], _ => step.lands);
    } else if step.Crash? {
      CutInsideQueue(s, step.left);
      ResumedPositive(hash, FilesLeft(s, step.left), step.latest);
    }
  }

  lemma {:induction false} RunReports(hash: Hash, cfg: Config, s: Queue, steps: seq<Step>)
    requires Reported(s.output) && CanRun(hash, cfg, s, steps)
    ensures Reported(Run(hash, cfg, s, steps).output)
    decreases |steps|
  {
    hide CanStep, Apply, Reported;
    if steps != [] {
      StepReports(hash, cfg, s, steps[0]);
      RunReports(hash, cfg, Apply(hash, cfg, s, steps[0]), steps[1..]);
    }
  }

  // ----- Why files were left -----

  /** The next entry did not fit under the file's header, or its record would have taken the file beyond the limit. */
  ghost predicate LeftForCause(hash: Hash, cfg: Config, files: Files, log: seq<Data>, i: nat)
    requires i in files
  {
    var next, hd := |DiskEntries(hash, files, i)|, HeaderFromReader(files[i]);
    next < |log| && hd.Ok? && (hd.value.0.CanHold(next, |log[next]|) ==> |files[i]| + |log[next]| > cfg.maxFileSize)
  }

  ghost predicate AllForCause(hash: Hash, cfg: Config, files: Files, log: seq<Data>) {
    forall i :: i in files ==> LeftForCause(hash, cfg, files, log, i)
  }

  lemma ForCauseLocal(hash: Hash, cfg: Config, a: Files, b: Files, log: seq<Data>, more: seq<Data>, i: nat)
    requires i in a && LeftForCause(hash, cfg, a, log, i) && forall j :: 1 <= j <= i ==> FileAt(a, j) == FileAt(b, j)
    requires i >= 1 && log <= more
    ensures i in b && LeftForCause(hash, cfg, b, more, i)
  {
    hide DiskEntries, HeaderFromReader, EntriesIn, IdWidth;
    forall j | 1 <= j <= i
      ensures EntriesIn(hash, a, j) == EntriesIn(hash, b, j)
    {
      SameFile(hash, a, b, j);
    }
    DiskEntriesLocal(hash, a, b, i);
    assert FileAt(a, i) == FileAt(b, i);
  }

  /** The file that is closed. */
  lemma ClosedForCause(hash: Hash, cfg: Config, s: Queue, lay: Lay, lands: bool)
    requires InvWith(hash, cfg, s, lay) && s.toWrite != [] && StorableId(s.toWrite[0].id)
    requires WriteOne(s.output, hash, cfg, s.toWrite[0], _ => lands).fileId != s.output.fileId
    ensures var r := WriteOne(s.output, hash, cfg, s.toWrite[0], _ => lands);
            s.output.fileId in r.others && LeftForCause(hash, cfg, r.others, s.log, s.output.fileId)
  {
    hide InvWith, OutputInv, WriteOne, StorableId, DiskEntries, HeaderFromReader, IdWidth, CloseFile, HeaderBytes, RunBytes, FlowOk, Content, EntryBytes, Append;
    var o, e := s.output, s.toWrite[0];
    var r := WriteOne(o, hash, cfg, e, _ => lands);
    OutputOf(hash, cfg, s, lay);
    NextToWrite(hash, s, lay);
    NextInLog(hash, s, lay);
    LeftFull(hash, cfg, o, lay, e, _ => lands);
    MovesOnExactly(o, hash, cfg, e, _ => lands);
    LaidOf(hash, cfg, o, lay);
    ClosedBytes(hash, cfg, o, lay, lands);
    HeaderRoundTrip(o.header, RunBytes(hash, o.header, lay.All()));
    ClosedContent(hash, cfg, o, lay, lands);
  }

  lemma ClosedContent(hash: Hash, cfg: Config, o: Output, lay: Lay, lands: bool)
    requires OutputInv(hash, cfg, o, lay)
    ensures var closed := CloseFile(o.out, lands, cfg.fsync).state.file;
            o.fileId >= 1 && DiskEntries(hash, o.others[o.fileId := closed] - {o.fileId + 1}, o.fileId) == Content(hash, o, lay)
  {
    hide OutputInv, DiskEntries, CloseFile, GoodFile, ScanFile, AllBelow;
    OutputHasContent(hash, cfg, o, lay);
    ClosedFileGood(hash, cfg, o, lay, lands);
    RotatedEntries(hash, o, CloseFile(o.out, lands, cfg.fsync).state.file, lay.All());
  }

  lemma NextInLog(hash: Hash, s: Queue, lay: Lay)
    requires s.output.fileId >= 1 && FlowOk(hash, s, lay) && s.toWrite != []
    ensures var n := |Content(hash, s.output, lay)|; n < |s.log| && s.toWrite[0] == Entry(n, s.log[n])
  {
    hide Content;
    var c, all := Content(hash, s.output, lay), LogEntries(s.log);
    assert (c + s.toWrite)[|c|] == s.toWrite[0];
    assert all[..s.ordering.Next()][|c|] == all[|c|];
  }

  lemma StepForCause(hash: Hash, cfg: Config, s: Queue, step: Step)
    requires Inv(hash, cfg, s) && Tidy(hash, s.output) && AllForCause(hash, cfg, s.output.others, s.log)
    requires CanStep(hash, cfg, s, step) && !step.Crash?
    ensures var t := Apply(hash, cfg, s, step); AllForCause(hash, cfg, t.output.others, t.log)
  {
    hide InvWith, HeaderTrue, HeaderFromReader, EntriesIn, LeftForCause, StorableId, Accepts, AfterEnqueue, AfterBatch, AfterAck, WriteOne, TakeBlock, FilesLeft;
    var lay :| InvWith(hash, cfg, s, lay);
    var t := Apply(hash, cfg, s, step);
    if step.WriteNext? {
      WriteForCause(hash, cfg, s, lay, step.lands);
    } else {
      forall i | i in t.output.others
        ensures LeftForCause(hash, cfg, t.output.others, t.log, i)
      {
        ForCauseLocal(hash, cfg, s.output.others, t.output.others, s.log, t.log, i);
      }
    }
  }

  lemma WriteForCause(hash: Hash, cfg: Config, s: Queue, lay: Lay, lands: bool)
    requires InvWith(hash, cfg, s, lay) && Tidy(hash, s.output) && AllForCause(hash, cfg, s.output.others, s.log)
    requires s.toWrite != [] && StorableId(s.toWrite[0].id)
    ensures AllForCause(hash, cfg, WriteOne(s.output, hash, cfg, s.toWrite[0], _ => lands).others, s.log)
  {
    hide InvWith, HeaderTrue, HeaderFromReader, EntriesIn, LeftForCause, StorableId, WriteOne, EntryBytes, CloseFile, HeaderBytes, Append, IdWidth, NewFile;
    var o, r := s.output, WriteOne(s.output, hash, cfg, s.toWrite[0], _ => lands);
    MovesOnExactly(o, hash, cfg, s.toWrite[0], _ => lands);
    forall i | i in r.others
      ensures LeftForCause(hash, cfg, r.others, s.log, i)
    {
      if i == o.fileId {
        ClosedForCause(hash, cfg, s, lay, lands);
      } else {
        ForCauseLocal(hash, cfg, o.others, r.others, s.log, s.log, i);
      }
    }
  }

  /** In a run without crashes every finished file was left for cause: the writer stays in a file that has room. */
  lemma {:induction false} RunForCause(hash: Hash, cfg: Config, s: Queue, steps: seq<Step>)
    requires Inv(hash, cfg, s) && Tidy(hash, s.output) && AllForCause(hash, cfg, s.output.others, s.log) && CanRun(hash, cfg, s, steps)
    requires forall i :: 0 <= i < |steps| ==> !steps[i].Crash?
    ensures var t := Run(hash, cfg, s, steps); AllForCause(hash, cfg, t.output.others, t.log)
    decreases |steps|
  {
    hide Inv, CanStep, Apply, Tidy, AllForCause;
    if steps != [] {
      StepKeeps(hash, cfg, s, steps[0]);
      StepTidy(hash, cfg, s, steps[0]);
      StepForCause(hash, cfg, s, steps[0]);
      RunForCause(hash, cfg, Apply(hash, cfg, s, steps[0]), steps[1..]);
    }
  }
}
