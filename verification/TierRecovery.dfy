/**
 * Picking up a queue whose files may be in either tier: WAL files, store files made of them, or
 * both. Recovery asks both tiers for everything it needs to know about a file.
 */
module TierRecovery {
  import opened Outcomes
  import opened Bytes
  import opened WalCodec
  import opened WalScan
  import opened WalReader
  import opened Selection
  import opened Disk
  import opened Recovery
  import opened StoreCodec
  import opened StoreConversion

  // ----- What recovery asks -----

  function Max(a: Option<nat>, b: Option<nat>): Option<nat> {
    if a.None? then b else if b.Some? && b.value > a.value then b else a
  }

  /** The last entry id of a file over both tiers; errors count as none. */
  function FileEndAllSources(c: Crypto, hash: Hash, verify: bool, t: Tiers, id: nat): Option<nat> {
    var range := GetRange(c, verify, t, id);
    Max(FileEnd(hash, t.wal, id), if range.Ok? && range.value.Some? then Some(range.value.value.1) else None)
  }

  const MIN_STORE_SIZE: nat := 10

  /** The WAL header inside a store file. */
  function StoredHeader(c: Crypto, verify: bool, t: Tiers, id: nat): Option<WalHeader> {
    if id !in t.store || |t.store[id]| < MIN_STORE_SIZE then None
    else
      match Extract(c, id, t.store[id], verify)
      case Err(_) => None
      case Ok(wal) =>
        match HeaderFromBytes(wal)
        case Ok((hd, _)) => Some(hd)
        case Err(_) => None
  }

  /** The header of a file: out of the WAL, else out of the store. */
  function HeaderAllSources(c: Crypto, verify: bool, t: Tiers, id: nat): Option<WalHeader> {
    var wal := HeaderAt(t.wal, id);
    if wal.Some? then wal else StoredHeader(c, verify, t, id)
  }

  // ----- What recovery decides -----

  /** The greatest file id up to n for which some tier knows an entry; 0 if there is none. */
  function LastEnded(c: Crypto, hash: Hash, verify: bool, t: Tiers, n: nat): (j: nat)
    ensures j <= n
    ensures j > 0 ==> FileEndAllSources(c, hash, verify, t, j).Some?
    ensures forall i :: j < i <= n ==> FileEndAllSources(c, hash, verify, t, i).None?
  {
    if n == 0 || FileEndAllSources(c, hash, verify, t, n).Some? then n else LastEnded(c, hash, verify, t, n - 1)
  }

  function ResumeAfter(c: Crypto, hash: Hash, verify: bool, t: Tiers, latest: nat, j: nat, end: nat): Resume {
    Resume(if j == latest then latest + 1 else latest,
           OrDefault(HeaderAllSources(c, verify, t, j)).(numEntriesBefore := end + 1),
           Some(end))
  }

  function ResumedTiers(c: Crypto, hash: Hash, verify: bool, t: Tiers, latest: Option<nat>): (r: Resume) {
    if latest.None? then Resume(1, DefaultHeader, None)
    else
      var j := LastEnded(c, hash, verify, t, latest.value);
      if j == 0 then Resume(1, DefaultHeader, None)
      else ResumeAfter(c, hash, verify, t, latest.value, j, FileEndAllSources(c, hash, verify, t, j).value)
  }

  datatype RecoveryError = DecrementUnderflow

  /** The backward loop over file ids. File ids start at 1; a file 0 is looked at only if it is the latest. */
  method ContinueQueue(c: Crypto, hash: Hash, verify: bool, t: Tiers, walLatest: Option<nat>, storeLatest: Option<nat>)
    returns (r: Result<Resume, RecoveryError>)
    requires IsLatest(t.wal, walLatest) && IsLatest(t.store, storeLatest)
    ensures var latest, end := Max(walLatest, storeLatest), FileEndAllSources(c, hash, verify, t, 0);
            if latest != Some(0) then r == Ok(ResumedTiers(c, hash, verify, t, latest))
            else if end.None? then r == Err(DecrementUnderflow)
            else r == Ok(ResumeAfter(c, hash, verify, t, 0, 0, end.value))
  {
    hide FileEndAllSources, HeaderAllSources, IsLatest;
    var latest := Max(walLatest, storeLatest);
    if latest.None? {
      return Ok(Resume(1, DefaultHeader, None));
    }
    var current: nat := latest.value;
    while true
      invariant current <= latest.value && (current == 0 ==> latest == Some(0))
      invariant LastEnded(c, hash, verify, t, latest.value) == LastEnded(c, hash, verify, t, current)
      decreases current
    {
      var end := FileEndAllSources(c, hash, verify, t, current);
      if end.Some? {
        var header := OrDefault(HeaderAllSources(c, verify, t, current));
        var next := if current == latest.value then latest.value + 1 else latest.value;
        return Ok(Resume(next, header.(numEntriesBefore := end.value + 1), Some(end.value)));
      }
      if current == 1 {
        assert LastEnded(c, hash, verify, t, 0) == 0;
        return Ok(Resume(1, DefaultHeader, None));
      }
      if current == 0 {
        return Err(DecrementUnderflow);
      }
      current := current - 1;
    }
  }

  // ----- The decision is that of the original files -----

  /** Both tiers together tell about a file what the original WAL file tells. */
  ghost predicate SeenAs(c: Crypto, hash: Hash, verify: bool, t: Tiers, originals: Files, id: nat) {
    && FileEndAllSources(c, hash, verify, t, id) == FileEnd(hash, originals, id)
    && (FileEnd(hash, originals, id).Some? ==> HeaderAllSources(c, verify, t, id) == HeaderAt(originals, id))
  }

  lemma {:induction false} SameLast(c: Crypto, hash: Hash, verify: bool, t: Tiers, originals: Files, n: nat)
    requires forall i :: 1 <= i <= n ==> SeenAs(c, hash, verify, t, originals, i)
    ensures LastEnded(c, hash, verify, t, n) == LastWithEntries(hash, originals, n)
  {
    hide FileEndAllSources, HeaderAllSources, HeaderAt, ScanFile;
    if n > 0 {
      assert SeenAs(c, hash, verify, t, originals, n);
      LastEnd(hash, originals, n);
      SameLast(c, hash, verify, t, originals, n - 1);
    }
  }

  lemma LastEnd(hash: Hash, files: Files, id: nat)
    ensures var es := EntriesIn(hash, files, id);
            FileEnd(hash, files, id) == if es == [] then None else Some(es[|es| - 1].id)
  {
    hide ScanFile;
  }

  lemma SameDecision(c: Crypto, hash: Hash, verify: bool, t: Tiers, originals: Files, latest: Option<nat>)
    requires latest.Some? ==> forall i :: 1 <= i <= latest.value ==> SeenAs(c, hash, verify, t, originals, i)
    ensures ResumedTiers(c, hash, verify, t, latest) == Resumed(hash, originals, latest)
  {
    hide FileEndAllSources, HeaderAllSources, HeaderAt, EntriesIn;
    if latest.Some? {
      SameLast(c, hash, verify, t, originals, latest.value);
      var j := LastWithEntries(hash, originals, latest.value);
      if j > 0 {
        assert SeenAs(c, hash, verify, t, originals, j);
      }
    }
  }

  /** Where nothing was converted the WAL files decide alone, whatever they hold. */
  lemma WalAlone(c: Crypto, hash: Hash, verify: bool, wal: Files, latest: Option<nat>)
    ensures ResumedTiers(c, hash, verify, Unconverted(wal), latest) == Resumed(hash, wal, latest)
  {
    hide SeenAs;
    if latest.Some? {
      forall i | 1 <= i <= latest.value
        ensures SeenAs(c, hash, verify, Unconverted(wal), wal, i)
      {
        WalAloneAt(c, hash, verify, wal, i);
      }
    }
    SameDecision(c, hash, verify, Unconverted(wal), wal, latest);
  }

  lemma WalAloneAt(c: Crypto, hash: Hash, verify: bool, wal: Files, i: nat)
    ensures SeenAs(c, hash, verify, Unconverted(wal), wal, i)
  {
    hide FileEnd, ScanFile, HeaderFromReader, HeaderFromBytes, WalRange;
    EndNeedsHeader(hash, wal, i);
  }

  lemma EndNeedsHeader(hash: Hash, files: Files, i: nat)
    ensures FileEnd(hash, files, i).Some? ==> i in files && HeaderFromReader(files[i]).Ok?
  {
    hide Scan, HeaderFromReader;
  }

  /** A file the writer made, of which recovery and the range reader find the numbers. */
  ghost predicate Ordinary(hash: Hash, wal: Bytes) {
    NarrowNumbers(hash, wal) && exists hd, es, k :: IsCutOf(hash, wal, hd, es, k) && IdWidth(hd.numEntriesBefore) <= 96
  }

  /** In whichever tiers a file is, right after a start recovery sees in it what the original holds. */
  lemma FileSeen(c: Crypto, hash: Hash, verify: bool, t: Tiers, originals: Files, id: nat)
    requires c.Lawful() && t.ranges == map[] && id in originals && FileOk(c, hash, t, id, originals[id])
    requires Ordinary(hash, originals[id])
    ensures SeenAs(c, hash, verify, t, originals, id)
  {
    hide HeaderBytes, RunBytes, ContentOf, ScanFile, IsStoreOf, FileEnd, NarrowNumbers, HeaderAllSources, HeaderAt, FileOk, FileEndAllSources, IdWidth;
    var hd, es, k: nat :| IsCutOf(hash, originals[id], hd, es, k) && IdWidth(hd.numEntriesBefore) <= 96;
    SameEnd(c, hash, verify, t, originals, id, hd, es, k);
    if FileEnd(hash, originals, id).Some? {
      EndNeedsHeader(hash, originals, id);
      SameHeader(c, hash, verify, t, originals, id, hd, es, k);
    }
  }

  lemma SameEnd(c: Crypto, hash: Hash, verify: bool, t: Tiers, originals: Files, id: nat, hd: WalHeader, es: seq<Entry>, k: nat)
    requires c.Lawful() && t.ranges == map[] && id in originals && FileOk(c, hash, t, id, originals[id])
    requires NarrowNumbers(hash, originals[id])
    requires IsCutOf(hash, originals[id], hd, es, k)
    ensures FileEndAllSources(c, hash, verify, t, id) == FileEnd(hash, originals, id)
  {
    hide HeaderBytes, RunBytes, ContentOf, ScanFile, RangeFromFile, IsStoreOf, FileEnd, NarrowNumbers, CountOf, RangeToRecord, Survivors;
    var wal := originals[id];
    SameFileEnd(hash, t.wal, originals, id);
    if id in t.store {
      StoreOfRange(c, hash, id, t.store[id], wal, verify);
      HeaderIsWhole(c, hash, id, t.store[id], wal, hd, es, k);
      RangeIsTrueExactly(hash, wal, hd, es, k);
    }
    assert EntriesIn(hash, originals, id) == ScanFile(hash, wal);
    LastEnd(hash, originals, id);
  }

  lemma SameFileEnd(hash: Hash, a: Files, b: Files, id: nat)
    requires id in b
    ensures id in a && a[id] == b[id] ==> FileEnd(hash, a, id) == FileEnd(hash, b, id)
    ensures id !in a ==> FileEnd(hash, a, id) == None
  {
  }

  /** Only files with a whole header were converted. */
  lemma HeaderIsWhole(c: Crypto, hash: Hash, id: nat, s: Bytes, wal: Bytes, hd: WalHeader, es: seq<Entry>, k: nat)
    requires IsStoreOf(c, hash, id, s, wal) && IsCutOf(hash, wal, hd, es, k)
    ensures k >= |HeaderBytes(hd)|
  {
    hide HeaderBytes, RunBytes, ContentOf, WalRange, WholeEntries;
    FilePrefix(hash, hd, es, k);
  }

  lemma SameHeader(c: Crypto, hash: Hash, verify: bool, t: Tiers, originals: Files, id: nat, hd: WalHeader, es: seq<Entry>, k: nat)
    requires c.Lawful() && id in originals && FileOk(c, hash, t, id, originals[id])
    requires IsCutOf(hash, originals[id], hd, es, k) && IdWidth(hd.numEntriesBefore) <= 96
    requires HeaderFromReader(originals[id]).Ok?
    ensures HeaderAt(originals, id) == HeaderAllSources(c, verify, t, id) == Some(hd)
  {
    hide HeaderBytes, RunBytes, IsStoreOf, IdWidth, HeaderFromReader, HeaderFromBytes, HeaderAt, Extract, RangeToRecord, Fits, Numbered;
    var wal, head := originals[id], HeaderBytes(hd);
    WholeHeader(hash, wal, hd, es, k);
    var rest := wal[|head|..];
    assert wal == head + rest;
    ShortHeaderFound(originals, id, hd, rest);
    if id in t.wal {
      ShortHeaderFound(t.wal, id, hd, rest);
    } else {
      NoHeaderWithoutFile(t.wal, id);
      StoreOfExtracts(c, hash, id, t.store[id], wal, verify);
      StoreOfLong(c, hash, id, t.store[id], wal);
      HeaderRoundTrip(hd, rest);
    }
  }

  lemma NoHeaderWithoutFile(files: Files, id: nat)
    requires id !in files
    ensures HeaderAt(files, id) == None
  {
  }

  /** A file whose header can be read starts with that header. */
  lemma WholeHeader(hash: Hash, wal: Bytes, hd: WalHeader, es: seq<Entry>, k: nat)
    requires IsCutOf(hash, wal, hd, es, k) && HeaderFromReader(wal).Ok?
    ensures |HeaderBytes(hd)| <= |wal| && wal[..|HeaderBytes(hd)|] == HeaderBytes(hd)
  {
    hide HeaderBytes, RunBytes, HeaderFromReader, Fits, Numbered;
    var head, run := HeaderBytes(hd), RunBytes(hash, hd, es);
    if k < |head| {
      SliceLeft(head, run, 0, k);
      assert wal == head[..k];
      HeaderTorn(hd, k);
    }
  }

  /** A store file is never so small that recovery ignores it. */
  lemma StoreOfLong(c: Crypto, hash: Hash, id: nat, s: Bytes, wal: Bytes)
    requires IsStoreOf(c, hash, id, s, wal)
    ensures |s| >= MIN_STORE_SIZE
  {
    hide ContentOf, Pack, AuthBytes, StoreHeaderBytes, IdWidth;
  }

  /**
   * After any number of conversions that end in a crash, recovery over both tiers finds the latest
   * file and decides as it would on the WAL files from before any conversion.
   */
  lemma RecoverySeesOriginals(c: Crypto, hash: Hash, verify: bool, originals: Files, steps: seq<Step>,
                              walLatest: Option<nat>, storeLatest: Option<nat>)
    requires c.Lawful() && CanRun(c, hash, verify, Unconverted(originals), steps)
    requires forall i :: i in originals ==> Ordinary(hash, originals[i])
    requires var t := AfterCrash(c, hash, verify, Unconverted(originals), steps);
             IsLatest(t.wal, walLatest) && IsLatest(t.store, storeLatest)
    ensures var t := AfterCrash(c, hash, verify, Unconverted(originals), steps);
            var latest := Max(walLatest, storeLatest);
            IsLatest(originals, latest) && ResumedTiers(c, hash, verify, t, latest) == Resumed(hash, originals, latest)
  {
    hide CanRun, Run, FileOk, Ordinary, SeenAs, ResumedTiers, Resumed, IsLatest, NarrowNumbers;
    var ran := Run(c, hash, verify, Unconverted(originals), steps);
    var t, latest := Apply(c, hash, verify, ran, Crash), Max(walLatest, storeLatest);
    RunStaysInside(c, hash, verify, Unconverted(originals), steps, originals.Keys);
    StepStaysInside(c, hash, verify, ran, Crash, originals.Keys);
    forall i: nat
      ensures i in originals ==> FileOk(c, hash, t, i, originals[i])
      ensures SeenAs(c, hash, verify, t, originals, i)
    {
      if i in originals {
        OrdinaryIsNarrow(hash, originals[i]);
        UnconvertedOk(c, hash, originals, i);
        RunKeepsFile(c, hash, verify, Unconverted(originals), steps, i, originals[i]);
        StepKeepsFile(c, hash, verify, ran, Crash, i, originals[i]);
        FileSeen(c, hash, verify, t, originals, i);
      } else {
        MissingSeen(c, hash, verify, t, originals, i);
      }
    }
    assert forall i :: i in originals <==> i in t.wal || i in t.store by {
      forall i | i in originals
        ensures i in t.wal || i in t.store
      {
        SomewhereOf(c, hash, t, i, originals[i]);
      }
    }
    LatestOfBoth(t, originals, walLatest, storeLatest);
    SameDecision(c, hash, verify, t, originals, latest);
  }

  /** So the header it goes on with is that of the last file with an entry, in whichever tier that is. */
  lemma TiersResumeWithHeader(c: Crypto, hash: Hash, verify: bool, originals: Files, steps: seq<Step>,
                              walLatest: Option<nat>, storeLatest: Option<nat>, j: nat, hd: WalHeader, es: seq<Entry>, k: nat)
    requires c.Lawful() && CanRun(c, hash, verify, Unconverted(originals), steps)
    requires forall i :: i in originals ==> Ordinary(hash, originals[i])
    requires var t := AfterCrash(c, hash, verify, Unconverted(originals), steps);
             IsLatest(t.wal, walLatest) && IsLatest(t.store, storeLatest)
    requires 1 <= j && j in originals && forall i :: i > j ==> EntriesIn(hash, originals, i) == []
    requires IsCutOf(hash, originals[j], hd, es, k) && Survivors(hd, es, k) > 0 && IdWidth(hd.numEntriesBefore) <= 96
    ensures var t := AfterCrash(c, hash, verify, Unconverted(originals), steps);
            var r := ResumedTiers(c, hash, verify, t, Max(walLatest, storeLatest));
            && r.header == hd.(numEntriesBefore := hd.numEntriesBefore + Survivors(hd, es, k))
            && forall id, size :: hd.CanHold(id, size) ==> r.header.CanHold(id, size)
  {
    hide CanRun, AfterCrash, Ordinary, ResumedTiers, Resumed, IsCutOf, Survivors, IdWidth, EntriesIn;
    RecoverySeesOriginals(c, hash, verify, originals, steps, walLatest, storeLatest);
    ResumesWithHeader(hash, originals, Max(walLatest, storeLatest).value, j, hd, es, k);
  }

  lemma SomewhereOf(c: Crypto, hash: Hash, t: Tiers, i: nat, wal: Bytes)
    requires FileOk(c, hash, t, i, wal)
    ensures i in t.wal || i in t.store
  {
  }

  lemma OrdinaryIsNarrow(hash: Hash, wal: Bytes)
    requires Ordinary(hash, wal)
    ensures NarrowNumbers(hash, wal)
  {
    hide NarrowNumbers, IsCutOf;
  }

  /** A file in neither tier. */
  lemma MissingSeen(c: Crypto, hash: Hash, verify: bool, t: Tiers, originals: Files, i: nat)
    requires i !in t.wal && i !in t.store && i !in t.ranges && i !in originals
    ensures SeenAs(c, hash, verify, t, originals, i)
  {
    hide ScanFile, RangeFromFile, WalRange;
    LastEnd(hash, originals, i);
    LastEnd(hash, t.wal, i);
  }

  /** The latest file over both tiers is the latest original. */
  lemma LatestOfBoth(t: Tiers, originals: Files, walLatest: Option<nat>, storeLatest: Option<nat>)
    requires IsLatest(t.wal, walLatest) && IsLatest(t.store, storeLatest)
    requires forall i :: i in originals <==> i in t.wal || i in t.store
    ensures IsLatest(originals, Max(walLatest, storeLatest))
  {
    if walLatest.None? && storeLatest.None? {
      assert forall i :: i in originals ==> i in t.wal || i in t.store;
    }
  }
}
