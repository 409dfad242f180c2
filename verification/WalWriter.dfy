/**
 * The WAL writer: takes released entries one by one, rotates to a new file when the current one
 * is full or its widths are too small, and hands the encoded entry to the file writer.
 */
module WalWriting {
  import opened Outcomes
  import opened Bytes
  import opened WalCodec
  import opened Selection
  import opened OrderedBuffering
  import opened AckFileWriting
  import opened Disk

  datatype Config = Config(maxFileSize: nat, maxMemory: nat, fsync: bool)

  /**
   * The file side of the writer: the file being written, the other files on disk, the
   * acknowledgements sent so far and the files reported complete.
   */
  datatype Output = Output(fileId: nat, header: WalHeader, hasWritten: bool, out: AckState,
                           others: Files, sent: seq<nat>, completed: seq<nat>)

  /** Ids whose header field a recovery can read back. */
  predicate StorableId(id: nat) {
    IdWidth(id) <= MAX_HEADER_ID_BYTES
  }

  /** They are exactly those whose header a stream decoder accepts. */
  lemma StorableExactly(hd: WalHeader)
    requires IdWidth(hd.numEntriesBefore) < U64_LIMIT
    ensures StorableId(hd.numEntriesBefore) <==> HeaderFromReader(HeaderLayout(hd, IdWidth(hd.numEntriesBefore))).Ok?
    ensures StorableId(hd.numEntriesBefore) <==> hd.Storable()
  {
    hide HeaderLayout, HeaderFromReader, IdWidth;
    var w := IdWidth(hd.numEntriesBefore);
    var s := HeaderLayout(hd, w);
    TakeAll(s);
    HeaderFromReaderExactly(s, hd, 32 + w, 0);
    if HeaderFromReader(s).Ok? {
      var (h, n) := HeaderFromReader(s).value;
      HeaderFromReaderExactly(s, h, n, 0);
      SameWidth(s, h, n, hd, w);
    }
  }

  lemma SameWidth(s: Bytes, h: WalHeader, n: nat, hd: WalHeader, w: U64)
    requires 32 <= n <= |s| && n - 32 < U64_LIMIT && s[..n] == HeaderLayout(h, n - 32) && s == HeaderLayout(hd, w)
    ensures n == 32 + w
  {
    hide HeaderLayout, U64Bytes, LeBytes;
    LayoutParts(s, h, n - 32);
    LayoutSlices(hd, w);
    NumberIs(s[24..32], n - 32);
    NumberIs(s[24..32], w);
  }

  predicate MustRotate(o: Output, cfg: Config, e: Entry) {
    || (o.hasWritten && !(o.out.currentSize + |e.data| <= cfg.maxFileSize))
    || !o.header.CanHold(e.id, |e.data|)
  }

  /** Close the file and start the next one, wide enough for the entry and numbered by it. */
  function Rotated(o: Output, cfg: Config, e: Entry, lands: bool): (r: Output)
    requires StorableId(e.id)
    ensures r.header.CanHold(e.id, |e.data|)
  {
    var c := CloseFile(o.out, lands, cfg.fsync);
    var next := o.fileId + 1;
    var hd := o.header.Resize(e.id, |e.data|).(numEntriesBefore := e.id);
    Output(next, hd, false, NewFile(HeaderBytes(hd)), o.others[o.fileId := c.state.file] - {next},
           o.sent + c.sent, o.completed + [o.fileId])
  }

  /**
   * Write one released entry. That the entry's header always encodes is part of this being
   * well formed: either the current header can hold it or the rotation made room.
   */
  function WriteOne(o: Output, hash: Hash, cfg: Config, e: Entry, lands: nat -> bool): (r: Output)
    requires StorableId(e.id)
  {
    var at := if MustRotate(o, cfg, e) then Rotated(o, cfg, e, lands(o.fileId)) else o;
    at.(out := Append(at.out, e.id, EntryBytes(hash, at.header, e)), hasWritten := true)
  }

  predicate AllStorable(es: seq<Entry>) {
    forall i :: 0 <= i < |es| ==> StorableId(es[i].id)
  }

  function WriteAll(o: Output, hash: Hash, cfg: Config, es: seq<Entry>, lands: nat -> bool): (r: Output)
    requires AllStorable(es)
    decreases |es|
  {
    if es == [] then o else WriteAll(WriteOne(o, hash, cfg, es[0], lands), hash, cfg, es[1..], lands)
  }

  // ----- What holds of the files -----

  /** A file with two or more entries outgrows the limit by at most one entry header. */
  ghost predicate SizeBound(cfg: Config, hd: WalHeader, count: nat, size: nat) {
    count >= 2 ==> size <= cfg.maxFileSize + EntryHeaderSize(hd)
  }

  /**
   * A file the writer made: numbered from the id its header announces, within the size bound,
   * whole or cut off somewhere.
   */
  ghost predicate GoodFile(hash: Hash, cfg: Config, s: Bytes) {
    exists hd, es, k :: IsCutOf(hash, s, hd, es, k) && SizeBound(cfg, hd, |es|, |HeaderBytes(hd) + RunBytes(hash, hd, es)|)
  }

  /** All entries written so far: those of the earlier files, then those of the current one. */
  ghost function Content(hash: Hash, o: Output, lay: Lay): seq<Entry>
    requires o.fileId >= 1
  {
    DiskEntries(hash, o.others, o.fileId - 1) + lay.All()
  }

  /** How many of them are in files. */
  ghost function Durable(hash: Hash, o: Output, lay: Lay): nat
    requires o.fileId >= 1
  {
    |DiskEntries(hash, o.others, o.fileId - 1)| + |lay.inFile|
  }

  /** Every other file is a good one, and none after the current one holds entries. */
  ghost predicate FilesOk(hash: Hash, cfg: Config, fileId: nat, others: Files) {
    && fileId >= 1 && fileId !in others && 0 !in others
    && (forall i :: i in others ==> GoodFile(hash, cfg, others[i]))
    && (forall i :: i > fileId ==> EntriesIn(hash, others, i) == [])
  }

  ghost predicate OutputInv(hash: Hash, cfg: Config, o: Output, lay: Lay) {
    && FilesOk(hash, cfg, o.fileId, o.others)
    && Laid(o.out, hash, o.header, lay)
    && Numbered(Content(hash, o, lay), 0)
    && o.header.numEntriesBefore == |DiskEntries(hash, o.others, o.fileId - 1)|
    && (o.hasWritten <==> lay.All() != [])
    && SizeBound(cfg, o.header, |lay.All()|, o.out.currentSize)
  }

  ghost predicate AllBelow(ids: seq<nat>, bound: nat) {
    forall i :: 0 <= i < |ids| ==> ids[i] < bound
  }

  /** The current file, closed, is a good file that holds all of its entries. */
  lemma ClosedFileGood(hash: Hash, cfg: Config, o: Output, lay: Lay, lands: bool)
    requires OutputInv(hash, cfg, o, lay)
    ensures var c := CloseFile(o.out, lands, cfg.fsync);
            && GoodFile(hash, cfg, c.state.file)
            && ScanFile(hash, c.state.file) == lay.All()
            && AllBelow(c.sent, |Content(hash, o, lay)|)
  {
    hide RunBytes, HeaderBytes, Fits, CloseFile, ScanFile, DiskEntries;
    var c := CloseFile(o.out, lands, cfg.fsync);
    var es := lay.All();
    CloseFileLaid(o.out, hash, o.header, lay, lands, cfg.fsync);
    NothingLostOnTheWay(o.out, hash, o.header, lay);
    ScanWholeFile(hash, o.header, es);
    CurrentNumbered(hash, o, lay);
    var whole := HeaderBytes(o.header) + RunBytes(hash, o.header, es);
    TakeAll(whole);
    assert IsCutOf(hash, c.state.file, o.header, es, |whole|);
    assert |whole| == o.out.currentSize;
    forall i | 0 <= i < |c.sent|
      ensures c.sent[i] < |Content(hash, o, lay)|
    {
      assert HasId(es, c.sent[i]);
    }
  }

  lemma CurrentNumbered(hash: Hash, o: Output, lay: Lay)
    requires o.fileId >= 1 && Numbered(Content(hash, o, lay), 0)
    ensures Numbered(lay.All(), |DiskEntries(hash, o.others, o.fileId - 1)|)
    ensures Numbered(DiskEntries(hash, o.others, o.fileId - 1), 0)
  {
    hide DiskEntries;
    var before, es := DiskEntries(hash, o.others, o.fileId - 1), lay.All();
    assert forall i :: 0 <= i < |before| ==> before[i] == (before + es)[i];
    assert forall i :: 0 <= i < |es| ==> es[i] == (before + es)[|before| + i];
  }

  /** Rotating moves the current entries into a finished file and loses nothing. */
  lemma RotateKeeps(hash: Hash, cfg: Config, o: Output, lay: Lay, e: Entry, lands: bool)
    requires OutputInv(hash, cfg, o, lay) && StorableId(e.id) && e.id == |Content(hash, o, lay)|
    ensures var r := Rotated(o, cfg, e, lands);
            && OutputInv(hash, cfg, r, Lay([], [], []))
            && Content(hash, r, Lay([], [], [])) == Content(hash, o, lay)
            && o.sent <= r.sent && AllBelow(r.sent[|o.sent|..], |Content(hash, o, lay)|)
  {
    hide RunBytes, HeaderBytes, Fits, CloseFile, ScanFile, DiskEntries, GoodFile, Laid;
    var r := Rotated(o, cfg, e, lands);
    var c := CloseFile(o.out, lands, cfg.fsync);
    ClosedFileGood(hash, cfg, o, lay, lands);
    NewFileLaid(hash, r.header);
    RotatedEntries(hash, o, c.state.file, lay.All());
    assert lay.All() == ScanFile(hash, c.state.file);
    assert Content(hash, r, Lay([], [], [])) == DiskEntries(hash, r.others, o.fileId) + [];
    assert r.sent[|o.sent|..] == c.sent;
    RotatedFiles(hash, cfg, o, c.state.file);
  }

  lemma RotatedEntries(hash: Hash, o: Output, closed: Bytes, es: seq<Entry>)
    requires o.fileId >= 1 && es == ScanFile(hash, closed)
    ensures DiskEntries(hash, o.others[o.fileId := closed] - {o.fileId + 1}, o.fileId)
         == DiskEntries(hash, o.others, o.fileId - 1) + es
  {
    hide ScanFile;
    DiskEntriesLocal(hash, o.others[o.fileId := closed] - {o.fileId + 1}, o.others, o.fileId - 1);
  }

  lemma RotatedFiles(hash: Hash, cfg: Config, o: Output, closed: Bytes)
    requires FilesOk(hash, cfg, o.fileId, o.others) && GoodFile(hash, cfg, closed)
    ensures FilesOk(hash, cfg, o.fileId + 1, o.others[o.fileId := closed] - {o.fileId + 1})
  {
    hide GoodFile, ScanFile;
    var files := o.others[o.fileId := closed] - {o.fileId + 1};
    forall i | i > o.fileId + 1
      ensures EntriesIn(hash, files, i) == []
    {
      assert EntriesIn(hash, o.others, i) == [];
    }
  }

  /** The lay of the current file after writing an entry. */
  function LayAfter(o: Output, cfg: Config, lay: Lay, e: Entry): Lay {
    if MustRotate(o, cfg, e) then Lay([], [], [e]) else lay.(inBuffer := lay.inBuffer + [e])
  }

  /** Writing the next entry appends it to the content and keeps everything else. */
  lemma WriteOneKeeps(hash: Hash, cfg: Config, o: Output, lay: Lay, e: Entry, lands: nat -> bool)
    requires OutputInv(hash, cfg, o, lay) && StorableId(e.id) && e.id == |Content(hash, o, lay)|
    ensures var r, lay' := WriteOne(o, hash, cfg, e, lands), LayAfter(o, cfg, lay, e);
            && OutputInv(hash, cfg, r, lay')
            && Content(hash, r, lay') == Content(hash, o, lay) + [e]
            && o.sent <= r.sent && AllBelow(r.sent[|o.sent|..], Durable(hash, r, lay'))
            && Durable(hash, o, lay) <= Durable(hash, r, lay')
  {
    hide RunBytes, HeaderBytes, CloseFile, ScanFile, DiskEntries, FilesOk, Laid, Rotated, EntryBytes, IdWidth;
    var none := Lay([], [], []);
    if MustRotate(o, cfg, e) {
      var r := Rotated(o, cfg, e, lands(o.fileId));
      RotateKeeps(hash, cfg, o, lay, e, lands(o.fileId));
      RotateEmpty(o, cfg, e, lands(o.fileId));
      OutputHasContent(hash, cfg, r, none);
      AppendKeeps(hash, cfg, r, none, e);
      assert none.inBuffer + [e] == [e];
      assert Content(hash, r, none) == DiskEntries(hash, r.others, r.fileId - 1) + [];
    } else {
      AppendKeeps(hash, cfg, o, lay, e);
      assert o.sent[|o.sent|..] == [];
    }
  }

  lemma RotateEmpty(o: Output, cfg: Config, e: Entry, lands: bool)
    requires StorableId(e.id)
    ensures var r := Rotated(o, cfg, e, lands);
            !r.hasWritten && Fits(r.header, e)
  {
  }

  /** Appending to the current file, when it has room or is new. */
  lemma AppendKeeps(hash: Hash, cfg: Config, o: Output, lay: Lay, e: Entry)
    requires OutputInv(hash, cfg, o, lay) && Fits(o.header, e) && e.id == |Content(hash, o, lay)|
    requires o.hasWritten ==> o.out.currentSize + |e.data| <= cfg.maxFileSize
    ensures var r := o.(out := Append(o.out, e.id, EntryBytes(hash, o.header, e)), hasWritten := true);
            var lay' := lay.(inBuffer := lay.inBuffer + [e]);
            && OutputInv(hash, cfg, r, lay')
            && Content(hash, r, lay') == Content(hash, o, lay) + [e]
  {
    hide RunBytes, HeaderBytes, Fits, ScanFile, DiskEntries, FilesOk, Laid, EntryBytes, Numbered;
    var lay' := lay.(inBuffer := lay.inBuffer + [e]);
    OutputHasContent(hash, cfg, o, lay);
    AppendLaid(o.out, hash, o.header, lay, e);
    var before := DiskEntries(hash, o.others, o.fileId - 1);
    AllSnoc(lay, e, before);
    NumberedSnoc(Content(hash, o, lay), e);
  }

  lemma AllSnoc(lay: Lay, e: Entry, before: seq<Entry>)
    ensures var lay' := lay.(inBuffer := lay.inBuffer + [e]);
            lay'.All() == lay.All() + [e] && before + lay'.All() == before + lay.All() + [e]
  {
  }

  lemma NumberedSnoc(es: seq<Entry>, e: Entry)
    requires Numbered(es, 0) && e.id == |es|
    ensures Numbered(es + [e], 0)
  {
  }

  /**
   * The writer moves on to the next file if and only if the current header is too narrow for the entry,
   * or something was written and the entry's record would take the file beyond the limit. Otherwise
   * it only appends; moving on it closes the file, reports it, and starts one that holds the entry alone.
   */
  lemma MovesOnExactly(o: Output, hash: Hash, cfg: Config, e: Entry, lands: nat -> bool)
    requires StorableId(e.id)
    ensures var r := WriteOne(o, hash, cfg, e, lands);
            var moves := !o.header.CanHold(e.id, |e.data|) || (o.hasWritten && o.out.currentSize + |e.data| > cfg.maxFileSize);
            && (r.fileId != o.fileId <==> moves)
            && r.hasWritten && Fits(r.header, e)
            && (!moves ==> r == o.(out := Append(o.out, e.id, EntryBytes(hash, o.header, e)), hasWritten := true))
            && (moves ==>
                  && r.fileId == o.fileId + 1 && r.completed == o.completed + [o.fileId]
                  && r.sent == o.sent + CloseFile(o.out, lands(o.fileId), cfg.fsync).sent
                  && r.others == o.others[o.fileId := CloseFile(o.out, lands(o.fileId), cfg.fsync).state.file] - {r.fileId}
                  && r.header.numEntriesBefore == e.id
                  && r.out == Append(NewFile(HeaderBytes(r.header)), e.id, EntryBytes(hash, r.header, e)))
  {
    hide EntryBytes, CloseFile, HeaderBytes, IdWidth;
  }

  /** A file that was left because of its size, not its header, would have outgrown the limit with the next record. */
  lemma LeftFull(hash: Hash, cfg: Config, o: Output, lay: Lay, e: Entry, lands: nat -> bool)
    requires OutputInv(hash, cfg, o, lay) && StorableId(e.id) && WriteOne(o, hash, cfg, e, lands).fileId != o.fileId
    ensures var r := WriteOne(o, hash, cfg, e, lands);
            && o.fileId in r.others && |r.others[o.fileId]| == o.out.currentSize
            && (o.header.CanHold(e.id, |e.data|) ==> lay.All() != [] && |r.others[o.fileId]| + |e.data| > cfg.maxFileSize)
  {
    hide EntryBytes, CloseFile, HeaderBytes, IdWidth, RunBytes, Fits, DiskEntries, FilesOk, Numbered;
    MovesOnExactly(o, hash, cfg, e, lands);
    CloseFileLaid(o.out, hash, o.header, lay, lands(o.fileId), cfg.fsync);
    NothingLostOnTheWay(o.out, hash, o.header, lay);
  }

  /** Consecutive ids. */
  function IdsFrom(first: nat, n: nat): (ids: seq<nat>)
    ensures |ids| == n && forall i :: 0 <= i < n ==> ids[i] == first + i
  {
    seq(n, i requires 0 <= i < n => first + i)
  }

  lemma IdsFromConcat(first: nat, m: nat, n: nat)
    ensures IdsFrom(first, m) + IdsFrom(first + m, n) == IdsFrom(first, m + n)
  {
  }

  /** Over a released run the writer reports exactly the files it leaves, in order. */
  lemma {:induction false} ReportsInOrder(o: Output, hash: Hash, cfg: Config, es: seq<Entry>, lands: nat -> bool)
    requires AllStorable(es)
    ensures var r := WriteAll(o, hash, cfg, es, lands);
            o.fileId <= r.fileId <= o.fileId + |es| && r.completed == o.completed + IdsFrom(o.fileId, r.fileId - o.fileId)
    decreases |es|
  {
    hide WriteOne, StorableId, IdsFrom;
    if es == [] {
      assert IdsFrom(o.fileId, 0) == [];
    } else {
      var m, r := WriteOne(o, hash, cfg, es[0], lands), WriteAll(o, hash, cfg, es, lands);
      OneReport(o, hash, cfg, es[0], lands);
      ReportsInOrder(m, hash, cfg, es[1..], lands);
      var a, b := m.fileId - o.fileId, r.fileId - m.fileId;
      IdsFromConcat(o.fileId, a, b);
      assert o.completed + IdsFrom(o.fileId, a) + IdsFrom(m.fileId, b) == o.completed + (IdsFrom(o.fileId, a) + IdsFrom(m.fileId, b));
    }
  }

  lemma OneReport(o: Output, hash: Hash, cfg: Config, e: Entry, lands: nat -> bool)
    requires StorableId(e.id)
    ensures var r := WriteOne(o, hash, cfg, e, lands);
            o.fileId <= r.fileId <= o.fileId + 1 && r.completed == o.completed + IdsFrom(o.fileId, r.fileId - o.fileId)
  {
    hide WriteOne, StorableId, EntryBytes, CloseFile, HeaderBytes, IdWidth;
    MovesOnExactly(o, hash, cfg, e, lands);
    assert IdsFrom(o.fileId, 0) == [] && IdsFrom(o.fileId, 1) == [o.fileId];
  }

  /** Writing a released run of entries. */
  function LayAfterAll(o: Output, hash: Hash, cfg: Config, lay: Lay, es: seq<Entry>, lands: nat -> bool): Lay
    requires AllStorable(es)
    decreases |es|
  {
    if es == [] then lay
    else LayAfterAll(WriteOne(o, hash, cfg, es[0], lands), hash, cfg, LayAfter(o, cfg, lay, es[0]), es[1..], lands)
  }

  /**
   * Writing a numbered run of entries, through any number of rotations, appends exactly these
   * entries to the content; every acknowledgement it sends names an entry that is in a file.
   */
  lemma {:induction false} WriteAllKeeps(hash: Hash, cfg: Config, o: Output, lay: Lay, es: seq<Entry>, lands: nat -> bool)
    requires OutputInv(hash, cfg, o, lay) && AllStorable(es) && Numbered(es, |Content(hash, o, lay)|)
    ensures var r, lay' := WriteAll(o, hash, cfg, es, lands), LayAfterAll(o, hash, cfg, lay, es, lands);
            && OutputInv(hash, cfg, r, lay')
            && Content(hash, r, lay') == Content(hash, o, lay) + es
            && o.sent <= r.sent && AllBelow(r.sent[|o.sent|..], Durable(hash, r, lay'))
            && Durable(hash, o, lay) <= Durable(hash, r, lay')
    decreases |es|
  {
    hide OutputInv, Content, Durable, WriteOne, LayAfter;
    if es == [] {
      assert o.sent[|o.sent|..] == [];
      assert Content(hash, o, lay) + [] == Content(hash, o, lay) by { OutputHasContent(hash, cfg, o, lay); }
    } else {
      OutputHasContent(hash, cfg, o, lay);
      var r1, lay1 := WriteOne(o, hash, cfg, es[0], lands), LayAfter(o, cfg, lay, es[0]);
      WriteOneKeeps(hash, cfg, o, lay, es[0], lands);
      OutputHasContent(hash, cfg, r1, lay1);
      WriteAllKeeps(hash, cfg, r1, lay1, es[1..], lands);
      var r, lay' := WriteAll(o, hash, cfg, es, lands), LayAfterAll(o, hash, cfg, lay, es, lands);
      assert Content(hash, o, lay) + [es[0]] + es[1..] == Content(hash, o, lay) + es;
      OutputHasContent(hash, cfg, r, lay');
      SentGrows(o.sent, r1.sent, r.sent, Durable(hash, r1, lay1), Durable(hash, r, lay'));
    }
  }

  lemma OutputHasContent(hash: Hash, cfg: Config, o: Output, lay: Lay)
    requires OutputInv(hash, cfg, o, lay)
    ensures o.fileId >= 1
  {
    hide Laid;
  }

  lemma SentGrows(a: seq<nat>, b: seq<nat>, c: seq<nat>, m: nat, n: nat)
    requires a <= b <= c && m <= n
    requires AllBelow(b[|a|..], m) && AllBelow(c[|b|..], n)
    ensures a <= c && AllBelow(c[|a|..], n)
  {
    forall i | 0 <= i < |c| - |a|
      ensures c[|a|..][i] < n
    {
      if i < |b| - |a| {
        assert c[|a|..][i] == b[|a|..][i];
      } else {
        assert c[|a|..][i] == c[|b|..][i - (|b| - |a|)];
      }
    }
  }

  // ----- The writer itself -----

  lemma {:induction false} WriteAllSnoc(o: Output, hash: Hash, cfg: Config, es: seq<Entry>, e: Entry, lands: nat -> bool)
    requires AllStorable(es + [e])
    ensures AllStorable(es) && StorableId(e.id)
    ensures WriteAll(o, hash, cfg, es + [e], lands) == WriteOne(WriteAll(o, hash, cfg, es, lands), hash, cfg, e, lands)
    decreases |es|
  {
    hide WriteOne, StorableId;
    assert (es + [e])[|es|] == e;
    assert forall i :: 0 <= i < |es| ==> es[i] == (es + [e])[i];
    if es == [] {
      assert [e][1..] == [];
    } else {
      assert (es + [e])[1..] == es[1..] + [e];
      WriteAllSnoc(WriteOne(o, hash, cfg, es[0], lands), hash, cfg, es[1..], e, lands);
    }
  }

  lemma {:induction false} WriteAllConcat(o: Output, hash: Hash, cfg: Config, xs: seq<Entry>, ys: seq<Entry>, lands: nat -> bool)
    requires AllStorable(xs) && AllStorable(ys)
    ensures AllStorable(xs + ys)
    ensures WriteAll(o, hash, cfg, xs + ys, lands) == WriteAll(WriteAll(o, hash, cfg, xs, lands), hash, cfg, ys, lands)
    decreases |xs|
  {
    hide WriteOne, StorableId;
    if xs == [] {
      assert xs + ys == ys;
    } else {
      assert (xs + ys)[1..] == xs[1..] + ys;
      WriteAllConcat(WriteOne(o, hash, cfg, xs[0], lands), hash, cfg, xs[1..], ys, lands);
    }
  }

  lemma WriteNone(o: Output, hash: Hash, cfg: Config, lands: nat -> bool)
    ensures WriteAll(o, hash, cfg, [], lands) == o
  {
  }

  /** One more arrival makes a longer run. */
  lemma LongerRun(run: seq<Arrival>, step: Arrival, last: Ordering)
    requires IsRun(run, step.pre) && Accepts(step.pre, step.entry, last, step.ready)
    ensures IsRun(run + [step], last)
    ensures Arrived(run + [step]) == Arrived(run) + [step.entry] && Released(run + [step]) == Released(run) + step.ready
  {
    hide Accepts;
    var longer := run + [step];
    assert longer[..|run|] == run;
    forall i | 0 <= i < |longer|
      ensures Accepts(longer[i].pre, longer[i].entry, PostOf(longer, last, i), longer[i].ready)
    {
      if i < |run| {
        assert Accepts(run[i].pre, run[i].entry, PostOf(run, step.pre, i), run[i].ready);
        assert PostOf(longer, last, i) == PostOf(run, step.pre, i);
      }
    }
  }

  lemma EmptyRun(last: Ordering)
    ensures IsRun([], last) && Arrived([]) == [] && Released([]) == []
  {
  }

  /** What is released or kept was there or came in. */
  lemma ReleasedStorable(pre: Ordering, e: Entry, post: Ordering, ready: seq<Entry>)
    requires Accepts(pre, e, post, ready) && AllStorable(pre.pending) && StorableId(e.id)
    ensures AllStorable(ready) && AllStorable(post.pending)
  {
    hide StorableId, Accepts;
    AcceptsConserves(pre, e, post, ready);
    var all := multiset(pre.pending) + multiset{e};
    forall i | 0 <= i < |ready|
      ensures StorableId(ready[i].id)
    {
      assert ready[i] in multiset(ready) && ready[i] in all;
    }
    forall i | 0 <= i < |post.pending|
      ensures StorableId(post.pending[i].id)
    {
      assert post.pending[i] in multiset(post.pending) && post.pending[i] in all;
    }
  }

  lemma ConcatSent(a: seq<nat>, b: seq<nat>, c: seq<nat>)
    ensures a + (b + c) == (a + b) + c
  {
  }

  class WriterState {
    var fileId: nat
    var header: WalHeader
    var hasWritten: bool
    var fileWriter: AckFileWriter
    var buffer: OrderedBuffer
    var others: Files
    var sentBefore: seq<nat>
    var completed: seq<nat>
    const hash: Hash
    const cfg: Config
    /** Whether the flush on its way ends well when a file is closed. */
    const lands: nat -> bool

    ghost predicate Valid()
      reads this, fileWriter, buffer
    {
      && fileWriter.maxFileSize == cfg.maxFileSize && fileWriter.fsync == cfg.fsync
      && AllStorable(buffer.pending)
    }

    ghost function Out(): Output
      reads this, fileWriter
    {
      Output(fileId, header, hasWritten, fileWriter.State(), others, sentBefore + fileWriter.sent, completed)
    }

    constructor (fileId: nat, header: WalHeader, files: Files, lastEntry: Option<nat>, hash: Hash, cfg: Config,
                 lands: nat -> bool)
      requires header.Storable()
      ensures Valid() && fresh(fileWriter) && fresh(buffer)
      ensures Out() == Output(fileId, header, false, NewFile(HeaderBytes(header)), files - {fileId}, [], [])
      ensures buffer.State() == Ordering([], lastEntry)
      ensures this.hash == hash && this.cfg == cfg && this.lands == lands
    {
      hide HeaderBytes, IdWidth, Append;
      this.fileId, this.header, hasWritten := fileId, header, false;
      fileWriter := new AckFileWriter(HeaderBytes(header), cfg.maxFileSize, cfg.fsync);
      buffer := new OrderedBuffer(lastEntry);
      others, sentBefore, completed := files - {fileId}, [], [];
      this.hash, this.cfg, this.lands := hash, cfg, lands;
    }

    /** Put an entry through the reordering buffer and write whatever that releases. */
    method Write(e: Entry) returns (ready: seq<Entry>)
      requires Valid() && StorableId(e.id)
      modifies this, fileWriter, buffer
      ensures Valid() && buffer == old(buffer) && (fileWriter == old(fileWriter) || fresh(fileWriter))
      ensures Accepts(old(buffer.State()), e, buffer.State(), ready)
      ensures AllStorable(ready) && Out() == WriteAll(old(Out()), hash, cfg, ready, lands)
    {
      hide WriteAll, StorableId, Waits;
      var direct := buffer.CanWrite(e.id);
      if direct {
        ready := [e];
      } else {
        ready := buffer.WaitForOrder(e);
      }
      ReleasedStorable(old(buffer.State()), e, buffer.State(), ready);
      WriteNone(old(Out()), hash, cfg, lands);
      assert ready[..0] == [];
      label Released:
      for i := 0 to |ready|
        invariant Valid() && buffer == old(buffer) && (fileWriter == old(fileWriter) || fresh(fileWriter))
        invariant buffer.State() == old@Released(buffer.State())
        invariant AllStorable(ready[..i]) && Out() == WriteAll(old(Out()), hash, cfg, ready[..i], lands)
      {
        assert ready[..i + 1] == ready[..i] + [ready[i]];
        WriteAllSnoc(old(Out()), hash, cfg, ready[..i], ready[i], lands);
        WriteEntry(ready[i]);
      }
      assert ready[..|ready|] == ready;
    }

    /**
     * A batch is its entries one by one: the arrivals form a run of the reordering buffer, and what
     * that run releases is what gets written.
     */
    method WriteBatch(entries: seq<Entry>) returns (written: seq<Entry>, ghost run: seq<Arrival>)
      requires Valid() && AllStorable(entries)
      modifies this, fileWriter, buffer
      ensures Valid() && buffer == old(buffer) && (fileWriter == old(fileWriter) || fresh(fileWriter))
      ensures IsRun(run, buffer.State()) && Arrived(run) == entries && written == Released(run)
      ensures if run == [] then buffer.State() == old(buffer.State()) else run[0].pre == old(buffer.State())
      ensures AllStorable(written) && Out() == WriteAll(old(Out()), hash, cfg, written, lands)
      ensures Numbered(written, old(buffer.State()).Next())
    {
      hide WriteAll, StorableId, IsRun, Arrived, Released, Accepts;
      written, run := [], [];
      WriteNone(old(Out()), hash, cfg, lands);
      EmptyRun(buffer.State());
      for i := 0 to |entries|
        invariant Valid() && buffer == old(buffer) && (fileWriter == old(fileWriter) || fresh(fileWriter))
        invariant IsRun(run, buffer.State()) && Arrived(run) == entries[..i] && written == Released(run)
        invariant if run == [] then buffer.State() == old(buffer.State()) else run[0].pre == old(buffer.State())
        invariant AllStorable(written) && Out() == WriteAll(old(Out()), hash, cfg, written, lands)
      {
        ghost var pre := buffer.State();
        var ready := Write(entries[i]);
        LongerRun(run, Arrival(pre, entries[i], ready), buffer.State());
        WriteAllConcat(old(Out()), hash, cfg, written, ready, lands);
        run := run + [Arrival(pre, entries[i], ready)];
        written := written + ready;
        assert entries[..i + 1] == entries[..i] + [entries[i]];
      }
      assert entries[..|entries|] == entries;
      RunReleasesInOrder(run, old(buffer.State()), buffer.State());
    }

    /** Write one released entry, to a new file if the current one has no room for it. */
    method WriteEntry(e: Entry)
      requires Valid() && StorableId(e.id)
      modifies this, fileWriter
      ensures Valid() && buffer == old(buffer) && (fileWriter == old(fileWriter) || fresh(fileWriter))
      ensures Out() == WriteOne(old(Out()), hash, cfg, e, lands)
      ensures fileId != old(fileId) <==>
                || !old(header).CanHold(e.id, |e.data|)
                || (old(hasWritten) && old(fileWriter.currentSize) + |e.data| > cfg.maxFileSize)
    {
      hide EntryBytes, HeaderBytes, IdWidth, EncodeEntryHeader, CloseFile;
      var room := fileWriter.CanAdd(|e.data|);
      if (hasWritten && !room) || !header.CanHold(e.id, |e.data|) {
        Rotate(e);
      }
      fileWriter.Write(e.id, EntryBytes(hash, header, e));
      hasWritten := true;
    }

    method Rotate(e: Entry)
      requires Valid() && StorableId(e.id)
      modifies this, fileWriter
      ensures Valid() && buffer == old(buffer) && fresh(fileWriter)
      ensures Out() == Rotated(old(Out()), cfg, e, lands(old(fileId)))
    {
      hide CloseFile, HeaderBytes, IdWidth, Append, AllStorable, WalHeader.Resize, NewFile;
      fileWriter.Close(lands(fileId));
      var next := fileId + 1;
      completed := completed + [fileId];
      others := others[fileId := fileWriter.file] - {next};
      ConcatSent(sentBefore, old(fileWriter.sent), CloseFile(old(fileWriter.State()), lands(fileId), cfg.fsync).sent);
      sentBefore := sentBefore + fileWriter.sent;
      fileId := next;
      header := header.Resize(e.id, |e.data|).(numEntriesBefore := e.id);
      fileWriter := new AckFileWriter(HeaderBytes(header), cfg.maxFileSize, cfg.fsync);
      hasWritten := false;
      assert sentBefore + fileWriter.sent == sentBefore;
    }
  }
}
