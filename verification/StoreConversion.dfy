/**
 * Turning finished WAL files into store files: write a temporary file, rename it, record its
 * range, delete the WAL file. A crash may come between any two of these, and in the middle of
 * writing.
 */
module StoreConversion {
  import opened Outcomes
  import opened Bytes
  import opened WalCodec
  import opened WalScan
  import opened WalReader
  import opened Disk
  import opened StoreCodec

  datatype Stage = Renamed | Recorded

  /** The files of both tiers, temporary files, the cache of ranges, and how far conversions have got. */
  datatype Tiers = Tiers(wal: Files, store: Files, tmp: Files, ranges: map<nat, (nat, nat)>, stages: map<nat, Stage>)

  datatype Settings = Settings(compression: Compression, encryption: Encryption)

  /** The store file made of a WAL file's bytes, if they can be read and packed. */
  function Converted(c: Crypto, hash: Hash, id: nat, how: Settings, wal: Bytes): (r: Option<Bytes>) {
    match ContentOf(hash, Some(wal))
    case Err(_) => None
    case Ok(content) =>
      var header := StoreHeader(how.compression, how.encryption, content.entriesBefore, content.numEntries);
      match Pack(c, id, how.compression, how.encryption, wal)
      case Err(_) => None
      case Ok(data) => if Writable(header) then Some(StoreFile(c, header, data)) else None
  }

  /** Numbers of any size that occurs have a width that fits its length field. */
  predicate Writable(header: StoreHeader)
    ensures Writable(header) <==> header.Storable()
  {
    IdWidth(header.before) < U64_LIMIT && IdWidth(header.count) < U64_LIMIT
  }

  /** The range recorded for a converted file, unless subtracting one fails. */
  function RangeToRecord(hash: Hash, wal: Bytes): Option<(nat, nat)> {
    match ContentOf(hash, Some(wal))
    case Err(_) => None
    case Ok(content) =>
      var sum := content.entriesBefore + content.numEntries;
      if sum == 0 then None else Some((content.entriesBefore, sum - 1))
  }

  // ----- Steps -----

  datatype Step =
    | WriteTemp(id: nat, how: Settings, upTo: nat)
    | Rename(id: nat, how: Settings)
    | Record(id: nat)
    | DeleteWal(id: nat)
    | LookUpRange(id: nat)
    | Crash

  predicate CanStep(c: Crypto, hash: Hash, t: Tiers, step: Step) {
    match step
    case WriteTemp(id, how, upTo) =>
      id in t.wal && Converted(c, hash, id, how, t.wal[id]).Some? && upTo <= |Converted(c, hash, id, how, t.wal[id]).value|
    case Rename(id, how) => id in t.wal && id in t.tmp && Converted(c, hash, id, how, t.wal[id]) == Some(t.tmp[id])
    case Record(id) => id in t.stages && t.stages[id] == Renamed && id in t.wal && RangeToRecord(hash, t.wal[id]).Some?
    case DeleteWal(id) => id in t.stages && t.stages[id] == Recorded
    case LookUpRange(id) => true
    case Crash => true
  }

  function Apply(c: Crypto, hash: Hash, verify: bool, t: Tiers, step: Step): Tiers
    requires CanStep(c, hash, t, step)
  {
    match step
    case WriteTemp(id, how, upTo) => t.(tmp := t.tmp[id := Converted(c, hash, id, how, t.wal[id]).value[..upTo]])
    case Rename(id, how) => t.(store := t.store[id := t.tmp[id]], tmp := t.tmp - {id}, stages := t.stages[id := Renamed])
    case Record(id) =>
      t.(ranges := t.ranges[id := RangeToRecord(hash, t.wal[id]).value], stages := t.stages[id := Recorded])
    case DeleteWal(id) => t.(wal := t.wal - {id}, stages := t.stages - {id})
    case LookUpRange(id) => t.(ranges := RangesAfter(c, verify, t, id))
    // Temporary files are removed when the process starts again.
    case Crash => t.(tmp := map[], ranges := map[], stages := map[])
  }

  /** Asking for a range: out of the cache, else out of the file, which fills the cache. */
  function GetRange(c: Crypto, verify: bool, t: Tiers, id: nat): Result<Option<(nat, nat)>, StoreError> {
    if id in t.ranges then Ok(Some(t.ranges[id]))
    else if id !in t.store then Ok(None)
    else RangeFromFile(c, t.store[id], verify)
  }

  function RangesAfter(c: Crypto, verify: bool, t: Tiers, id: nat): map<nat, (nat, nat)> {
    var r := GetRange(c, verify, t, id);
    if r.Ok? && r.value.Some? then t.ranges[id := r.value.value] else t.ranges
  }

  // ----- What readers see -----

  /** The WAL bytes a reader gets for a file: out of the store if it is there, else the WAL file. */
  function View(c: Crypto, t: Tiers, id: nat, verify: bool): Option<Bytes> {
    if id in t.store then
      var r := Extract(c, id, t.store[id], verify);
      if r.Ok? then Some(r.value) else None
    else if id in t.wal then Some(t.wal[id]) else None
  }

  ghost predicate IsStoreOf(c: Crypto, hash: Hash, id: nat, s: Bytes, wal: Bytes) {
    exists how :: Converted(c, hash, id, how, wal) == Some(s)
  }

  /** One file: what is left of it, in either tier, stands for the original. */
  ghost predicate FileOk(c: Crypto, hash: Hash, t: Tiers, id: nat, wal: Bytes) {
    && (id in t.wal || id in t.store)
    && (id in t.wal ==> t.wal[id] == wal)
    && (id in t.store ==> IsStoreOf(c, hash, id, t.store[id], wal))
    && (id in t.stages ==> id in t.store && (t.stages[id] == Recorded ==> id in t.ranges))
    && (id in t.ranges ==> Some(t.ranges[id]) == RangeToRecord(hash, wal))
  }

  function CountOf(hash: Hash, wal: Bytes): nat {
    var r := ContentOf(hash, Some(wal));
    if r.Ok? then r.value.numEntries else 0
  }

  /** A store file gives back the WAL bytes it was made of. */
  lemma StoreOfExtracts(c: Crypto, hash: Hash, id: nat, s: Bytes, wal: Bytes, verify: bool)
    requires c.Lawful() && IsStoreOf(c, hash, id, s, wal)
    ensures Extract(c, id, s, verify) == Ok(wal)
  {
    hide Extract, StoreFile, ContentOf, Pack;
    var how :| Converted(c, hash, id, how, wal) == Some(s);
    var content := ContentOf(hash, Some(wal)).value;
    var header := StoreHeader(how.compression, how.encryption, content.entriesBefore, content.numEntries);
    ExtractRoundTrip(c, id, header, wal, verify);
  }

  /** The payload of a store file: compressed if asked for, then nonce and cipher if asked for. */
  ghost predicate IsPayload(c: Crypto, id: nat, how: Settings, wal: Bytes, payload: Bytes) {
    var plain := if how.compression == Zstd then c.zstd(wal) else wal;
    payload == if how.encryption == Aes then c.encrypt(id, plain).0 + c.encrypt(id, plain).1 else plain
  }

  /**
   * A store file as its parts decode: signed, with a header that announces the packing asked for, the
   * number of entries before and the number of entries in the WAL file, and with the payload to match.
   */
  ghost predicate PackedAs(c: Crypto, hash: Hash, id: nat, how: Settings, wal: Bytes, s: Bytes) {
    && |s| >= AUTH_SIZE
    && var auth, header, original := AuthFromBytes(s), StoreHeaderFromBytes(s[AUTH_SIZE..]), HeaderFromBytes(wal);
       && auth.Ok? && header.Ok? && original.Ok?
       && var (announced, n) := header.value;
          var head, payload := s[AUTH_SIZE..][..n], s[AUTH_SIZE..][n..];
          && announced.compression == how.compression && announced.encryption == how.encryption
          && announced.before == original.value.0.numEntriesBefore
          && announced.count == |Scan(hash, original.value.0, wal[original.value.1..])|
          && auth.value.0 == FileAuthentication(c.sign(head), c.sign(payload))
          && IsPayload(c, id, how, wal, payload)
  }

  /** A file is converted if and only if its header can be read and its packing can be written, and then it is packed as asked. */
  lemma ConvertedAsAsked(c: Crypto, hash: Hash, id: nat, how: Settings, wal: Bytes)
    ensures var r, original := Converted(c, hash, id, how, wal), HeaderFromBytes(wal);
            && (r.Some? ==> PackedAs(c, hash, id, how, wal, r.value))
            && (r.Some? <==>
                  && original.Ok? && (how.compression == Plain || how.compression == Zstd)
                  && IdWidth(original.value.0.numEntriesBefore) < U64_LIMIT
                  && IdWidth(|Scan(hash, original.value.0, wal[original.value.1..])|) < U64_LIMIT)
  {
    hide HeaderFromBytes, Scan, AuthFromBytes, StoreHeaderFromBytes, StoreFile, IdWidth, StoreHeaderBytes;
    EmptyHasNoHeader();
    var content := ContentOf(hash, Some(wal));
    if content.Ok? {
      var header := StoreHeader(how.compression, how.encryption, content.value.entriesBefore, content.value.numEntries);
      var data := Pack(c, id, how.compression, how.encryption, wal);
      if data.Ok? && Writable(header) {
        StoreFileParts(c, header, data.value);
        StoreFileLong(c, header, data.value);
      }
    }
  }

  lemma EmptyHasNoHeader()
    ensures HeaderFromBytes([]).Err?
  {
  }

  lemma StoreFileLong(c: Crypto, header: StoreHeader, data: Bytes)
    requires header.Storable()
    ensures |StoreFile(c, header, data)| >= AUTH_SIZE
  {
    hide AuthBytes, StoreHeaderBytes;
  }

  /** The range a store file announces is the one recorded for it, unless it holds no entry. */
  lemma StoreOfRange(c: Crypto, hash: Hash, id: nat, s: Bytes, wal: Bytes, verify: bool)
    requires c.Lawful() && IsStoreOf(c, hash, id, s, wal) && NarrowNumbers(hash, wal)
    ensures RangeFromFile(c, s, verify) == Ok(if CountOf(hash, wal) == 0 then None else RangeToRecord(hash, wal))
  {
    hide RangeFromFile, StoreFile, ContentOf, Pack, IdWidth;
    var how :| Converted(c, hash, id, how, wal) == Some(s);
    var content := ContentOf(hash, Some(wal)).value;
    var header := StoreHeader(how.compression, how.encryption, content.entriesBefore, content.numEntries);
    RangeRoundTrip(c, header, Pack(c, id, how.compression, how.encryption, wal).value, verify);
  }

  /** The numbers of the header take at most 64 bytes, so a reader of ranges finds them. */
  predicate NarrowNumbers(hash: Hash, wal: Bytes) {
    var r := ContentOf(hash, Some(wal));
    r.Ok? ==> IdWidth(r.value.entriesBefore) + IdWidth(r.value.numEntries) <= 64
  }

  // ----- Every step keeps the view -----

  lemma StepKeepsFile(c: Crypto, hash: Hash, verify: bool, t: Tiers, step: Step, id: nat, wal: Bytes)
    requires c.Lawful() && CanStep(c, hash, t, step) && FileOk(c, hash, t, id, wal) && NarrowNumbers(hash, wal)
    ensures FileOk(c, hash, Apply(c, hash, verify, t, step), id, wal)
  {
    hide Converted, RangeToRecord, CountOf, NarrowNumbers, IsStoreOf, RangeFromFile;
    match step
    case Rename(i, how) =>
      if i == id {
        assert IsStoreOf(c, hash, id, t.tmp[id], wal) by { MadeFrom(c, hash, id, how, t.tmp[id], wal); }
      }
    case LookUpRange(i) =>
      if i == id && id in t.store && id !in t.ranges {
        StoreOfRange(c, hash, id, t.store[id], wal, verify);
      }
    case _ =>
  }

  lemma MadeFrom(c: Crypto, hash: Hash, id: nat, how: Settings, s: Bytes, wal: Bytes)
    requires Converted(c, hash, id, how, wal) == Some(s)
    ensures IsStoreOf(c, hash, id, s, wal)
  {
  }

  lemma ViewIsOriginal(c: Crypto, hash: Hash, t: Tiers, id: nat, wal: Bytes, verify: bool)
    requires c.Lawful() && FileOk(c, hash, t, id, wal)
    ensures View(c, t, id, verify) == Some(wal)
  {
    hide Extract, IsStoreOf;
    if id in t.store {
      StoreOfExtracts(c, hash, id, t.store[id], wal, verify);
    }
  }

  /** A WAL file is deleted only when its store file is in place and its range is known. */
  lemma DeletedLast(c: Crypto, hash: Hash, verify: bool, t: Tiers, id: nat, wal: Bytes)
    requires FileOk(c, hash, t, id, wal) && CanStep(c, hash, t, DeleteWal(id))
    ensures var r := Apply(c, hash, verify, t, DeleteWal(id));
            && id !in r.wal && id in r.store && IsStoreOf(c, hash, id, r.store[id], wal)
            && id in r.ranges && Some(r.ranges[id]) == RangeToRecord(hash, wal)
  {
    hide IsStoreOf, RangeToRecord;
  }

  /** A range that was found stays at hand, even should the file be gone the next time; nothing else in the cache changes. */
  lemma FoundIsCached(c: Crypto, hash: Hash, verify: bool, t: Tiers, id: nat, other: nat)
    ensures CanStep(c, hash, t, LookUpRange(id))
    ensures var found, r := GetRange(c, verify, t, id), Apply(c, hash, verify, t, LookUpRange(id));
            && (found.Ok? && found.value.Some? ==> GetRange(c, verify, r.(store := map[]), id) == found)
            && (other != id || found.Err? || found.value.None? ==>
                  (other in r.ranges <==> other in t.ranges) && (other in r.ranges ==> r.ranges[other] == t.ranges[other]))
  {
    hide RangeFromFile;
  }

  /** A restart is possible at any time; it leaves the files of both tiers alone and forgets everything else. */
  lemma RestartForgets(c: Crypto, hash: Hash, verify: bool, t: Tiers)
    ensures CanStep(c, hash, t, Crash)
    ensures var r := Apply(c, hash, verify, t, Crash);
            r.wal == t.wal && r.store == t.store && forall id: nat :: id !in r.tmp && id !in r.ranges && id !in r.stages
  {
  }

  // ----- Whole runs -----

  ghost predicate CanRun(c: Crypto, hash: Hash, verify: bool, t: Tiers, steps: seq<Step>)
    decreases |steps|
  {
    steps != [] ==> CanStep(c, hash, t, steps[0]) && CanRun(c, hash, verify, Apply(c, hash, verify, t, steps[0]), steps[1..])
  }

  ghost function Run(c: Crypto, hash: Hash, verify: bool, t: Tiers, steps: seq<Step>): Tiers
    requires CanRun(c, hash, verify, t, steps)
    decreases |steps|
  {
    if steps == [] then t else Run(c, hash, verify, Apply(c, hash, verify, t, steps[0]), steps[1..])
  }

  /** What a process that starts again finds. */
  ghost function AfterCrash(c: Crypto, hash: Hash, verify: bool, t: Tiers, steps: seq<Step>): Tiers
    requires CanRun(c, hash, verify, t, steps)
  {
    Apply(c, hash, verify, Run(c, hash, verify, t, steps), Crash)
  }

  /** WAL files before any conversion. */
  function Unconverted(wal: Files): Tiers {
    Tiers(wal, map[], map[], map[], map[])
  }

  lemma UnconvertedOk(c: Crypto, hash: Hash, files: Files, i: nat)
    requires i in files
    ensures FileOk(c, hash, Unconverted(files), i, files[i])
  {
  }

  lemma {:induction false} RunKeepsFile(c: Crypto, hash: Hash, verify: bool, t: Tiers, steps: seq<Step>, id: nat, wal: Bytes)
    requires c.Lawful() && CanRun(c, hash, verify, t, steps) && FileOk(c, hash, t, id, wal) && NarrowNumbers(hash, wal)
    ensures FileOk(c, hash, Run(c, hash, verify, t, steps), id, wal)
    decreases |steps|
  {
    hide FileOk, CanStep, Apply, NarrowNumbers;
    if steps != [] {
      StepKeepsFile(c, hash, verify, t, steps[0], id, wal);
      RunKeepsFile(c, hash, verify, Apply(c, hash, verify, t, steps[0]), steps[1..], id, wal);
    }
  }

  /** Conversions only touch the files they are given. */
  ghost predicate Inside(t: Tiers, ids: set<nat>) {
    t.wal.Keys <= ids && t.store.Keys <= ids && t.ranges.Keys <= ids
  }

  lemma StepStaysInside(c: Crypto, hash: Hash, verify: bool, t: Tiers, step: Step, ids: set<nat>)
    requires CanStep(c, hash, t, step) && Inside(t, ids)
    ensures Inside(Apply(c, hash, verify, t, step), ids)
  {
    hide Converted, RangeToRecord, RangeFromFile;
  }

  lemma {:induction false} RunStaysInside(c: Crypto, hash: Hash, verify: bool, t: Tiers, steps: seq<Step>, ids: set<nat>)
    requires CanRun(c, hash, verify, t, steps) && Inside(t, ids)
    ensures Inside(Run(c, hash, verify, t, steps), ids)
    decreases |steps|
  {
    hide CanStep, Apply, Inside;
    if steps != [] {
      StepStaysInside(c, hash, verify, t, steps[0], ids);
      RunStaysInside(c, hash, verify, Apply(c, hash, verify, t, steps[0]), steps[1..], ids);
    }
  }

  /**
   * At every point of any number of conversions, re-conversions with other settings and crashes,
   * every finished file reads as its original bytes, and asking for its range gives the one range.
   */
  lemma ConversionKeepsFiles(c: Crypto, hash: Hash, verify: bool, originals: Files, steps: seq<Step>, id: nat)
    requires c.Lawful() && CanRun(c, hash, verify, Unconverted(originals), steps)
    requires id in originals && NarrowNumbers(hash, originals[id])
    ensures var t := Run(c, hash, verify, Unconverted(originals), steps);
            && View(c, t, id, verify) == Some(originals[id])
            && (id in t.store && CountOf(hash, originals[id]) > 0 ==>
                  GetRange(c, verify, t, id) == Ok(RangeToRecord(hash, originals[id])))
  {
    hide View, RangeFromFile, CanRun, Run, IsStoreOf, NarrowNumbers, RangeToRecord;
    var wal := originals[id];
    RunKeepsFile(c, hash, verify, Unconverted(originals), steps, id, wal);
    var t := Run(c, hash, verify, Unconverted(originals), steps);
    ViewIsOriginal(c, hash, t, id, wal, verify);
    if id in t.store {
      StoreOfRange(c, hash, id, t.store[id], wal, verify);
      CountedHasRange(hash, wal);
    }
  }

  lemma CountedHasRange(hash: Hash, wal: Bytes)
    ensures CountOf(hash, wal) > 0 ==> RangeToRecord(hash, wal).Some?
  {
    hide ContentOf;
  }

  // ----- Ranges are true -----

  /**
   * For a file as the writer makes it, whole or cut after its header: the recorded range is the
   * range of its entries exactly when it holds an entry, or nothing was ever written before it.
   */
  lemma RangeIsTrueExactly(hash: Hash, wal: Bytes, hd: WalHeader, es: seq<Entry>, k: nat)
    requires IsCutOf(hash, wal, hd, es, k) && k >= |HeaderBytes(hd)|
    ensures CountOf(hash, wal) == |ScanFile(hash, wal)| == Survivors(hd, es, k)
    ensures RangeToRecord(hash, wal) == RangeOf(ScanFile(hash, wal)) <==> ScanFile(hash, wal) != [] || hd.numEntriesBefore == 0
  {
    hide HeaderBytes, RunBytes, ContentOf, WholeEntries, ScanFile, WalRange;
    ScanCutFile(hash, wal, hd, es, k);
    FilePrefix(hash, hd, es, k);
  }

  /** An empty file after other entries is recorded as a range that ends before it starts. */
  lemma EmptyFileRange(hash: Hash, wal: Bytes, hd: WalHeader)
    requires hd.Storable() && hd.numEntriesBefore > 0 && wal == HeaderBytes(hd)
    ensures RangeToRecord(hash, wal) == Some((hd.numEntriesBefore, hd.numEntriesBefore - 1))
  {
    hide HeaderBytes, ContentOf, WholeEntries, WalRange;
    assert wal == (HeaderBytes(hd) + RunBytes(hash, hd, []))[..|HeaderBytes(hd)|];
    FilePrefix(hash, hd, [], |HeaderBytes(hd)|);
  }

  // ----- The worker itself -----

  /** What one uninterrupted conversion leaves behind. */
  function AfterProcessing(c: Crypto, hash: Hash, t: Tiers, id: nat, how: Settings): Tiers {
    if id !in t.wal || Converted(c, hash, id, how, t.wal[id]).None? then t
    else
      var stored := t.(store := t.store[id := Converted(c, hash, id, how, t.wal[id]).value], tmp := t.tmp - {id});
      var range := RangeToRecord(hash, t.wal[id]);
      if range.None? then stored.(stages := t.stages[id := Renamed])
      else stored.(ranges := t.ranges[id := range.value], wal := t.wal - {id}, stages := t.stages - {id})
  }

  /** What a conversion puts into the store is packed as asked. */
  lemma ProcessedAsAsked(c: Crypto, hash: Hash, t: Tiers, id: nat, how: Settings)
    ensures var r := AfterProcessing(c, hash, t, id, how);
            id in r.store && (id in t.store ==> r.store[id] != t.store[id]) ==>
              id in t.wal && PackedAs(c, hash, id, how, t.wal[id], r.store[id])
  {
    hide Converted, PackedAs, RangeToRecord, HeaderFromBytes, Scan, IdWidth;
    if id in t.wal {
      ConvertedAsAsked(c, hash, id, how, t.wal[id]);
    }
  }

  /** The files once the store file is in place. */
  function AfterRename(c: Crypto, hash: Hash, t: Tiers, id: nat, how: Settings): Tiers
    requires id in t.wal && Converted(c, hash, id, how, t.wal[id]).Some?
  {
    t.(store := t.store[id := Converted(c, hash, id, how, t.wal[id]).value], tmp := t.tmp - {id}, stages := t.stages[id := Renamed])
  }

  /** Writing all of a temporary file and renaming it. */
  lemma WriteAndRename(c: Crypto, hash: Hash, verify: bool, t: Tiers, id: nat, how: Settings)
    requires id in t.wal && Converted(c, hash, id, how, t.wal[id]).Some?
    ensures var write, rename := WriteTemp(id, how, |Converted(c, hash, id, how, t.wal[id]).value|), Rename(id, how);
            && CanStep(c, hash, t, write) && CanStep(c, hash, Apply(c, hash, verify, t, write), rename)
            && Apply(c, hash, verify, Apply(c, hash, verify, t, write), rename) == AfterRename(c, hash, t, id, how)
  {
    hide Converted, RangeToRecord;
    var s := Converted(c, hash, id, how, t.wal[id]).value;
    assert s[..|s|] == s;
  }

  /** Recording the range and deleting the WAL file. */
  lemma RecordAndDelete(c: Crypto, hash: Hash, verify: bool, t: Tiers, id: nat, how: Settings)
    requires id in t.wal && Converted(c, hash, id, how, t.wal[id]).Some? && RangeToRecord(hash, t.wal[id]).Some?
    ensures var t2 := AfterRename(c, hash, t, id, how);
            && CanStep(c, hash, t2, Record(id)) && CanStep(c, hash, Apply(c, hash, verify, t2, Record(id)), DeleteWal(id))
            && Apply(c, hash, verify, Apply(c, hash, verify, t2, Record(id)), DeleteWal(id)) == AfterProcessing(c, hash, t, id, how)
  {
    hide Converted, RangeToRecord;
  }

  /** An uninterrupted conversion is the steps write, rename, record, delete, as far as they go. */
  lemma ProcessingIsSteps(c: Crypto, hash: Hash, verify: bool, t: Tiers, id: nat, how: Settings)
    requires id in t.wal && Converted(c, hash, id, how, t.wal[id]).Some?
    ensures var n := |Converted(c, hash, id, how, t.wal[id]).value|;
            var steps := if RangeToRecord(hash, t.wal[id]).Some?
                         then [WriteTemp(id, how, n), Rename(id, how), Record(id), DeleteWal(id)]
                         else [WriteTemp(id, how, n), Rename(id, how)];
            CanRun(c, hash, verify, t, steps) && Run(c, hash, verify, t, steps) == AfterProcessing(c, hash, t, id, how)
  {
    hide Converted, RangeToRecord, CanStep, Apply;
    var n := |Converted(c, hash, id, how, t.wal[id]).value|;
    WriteAndRename(c, hash, verify, t, id, how);
    if RangeToRecord(hash, t.wal[id]).Some? {
      RecordAndDelete(c, hash, verify, t, id, how);
      FourSteps(c, hash, verify, t, WriteTemp(id, how, n), Rename(id, how), Record(id), DeleteWal(id));
    } else {
      TwoSteps(c, hash, verify, t, WriteTemp(id, how, n), Rename(id, how));
    }
  }

  lemma TwoSteps(c: Crypto, hash: Hash, verify: bool, t: Tiers, a: Step, b: Step)
    requires CanStep(c, hash, t, a) && CanStep(c, hash, Apply(c, hash, verify, t, a), b)
    ensures CanRun(c, hash, verify, t, [a, b])
    ensures Run(c, hash, verify, t, [a, b]) == Apply(c, hash, verify, Apply(c, hash, verify, t, a), b)
  {
    hide CanStep, Apply;
    OneStep(c, hash, verify, Apply(c, hash, verify, t, a), [b]);
    OneStep(c, hash, verify, t, [a, b]);
  }

  lemma FourSteps(c: Crypto, hash: Hash, verify: bool, t: Tiers, a: Step, b: Step, d: Step, e: Step)
    requires CanStep(c, hash, t, a) && CanStep(c, hash, Apply(c, hash, verify, t, a), b)
    requires var t2 := Apply(c, hash, verify, Apply(c, hash, verify, t, a), b);
             CanStep(c, hash, t2, d) && CanStep(c, hash, Apply(c, hash, verify, t2, d), e)
    ensures CanRun(c, hash, verify, t, [a, b, d, e])
    ensures var t2 := Apply(c, hash, verify, Apply(c, hash, verify, t, a), b);
            Run(c, hash, verify, t, [a, b, d, e]) == Apply(c, hash, verify, Apply(c, hash, verify, t2, d), e)
  {
    hide CanStep, Apply;
    var t1 := Apply(c, hash, verify, t, a);
    TwoSteps(c, hash, verify, Apply(c, hash, verify, t1, b), d, e);
    OneStep(c, hash, verify, t1, [b, d, e]);
    OneStep(c, hash, verify, t, [a, b, d, e]);
  }

  lemma OneStep(c: Crypto, hash: Hash, verify: bool, t: Tiers, steps: seq<Step>)
    requires steps != [] && CanStep(c, hash, t, steps[0]) && CanRun(c, hash, verify, Apply(c, hash, verify, t, steps[0]), steps[1..])
    ensures CanRun(c, hash, verify, t, steps)
    ensures Run(c, hash, verify, t, steps) == Run(c, hash, verify, Apply(c, hash, verify, t, steps[0]), steps[1..])
  {
    hide CanStep, Apply;
  }

  class StoreWorker {
    var wal: Files
    var store: Files
    var tmp: Files
    var ranges: map<nat, (nat, nat)>
    ghost var stages: map<nat, Stage>
    const crypto: Crypto
    const hash: Hash
    const verify: bool

    ghost function State(): Tiers
      reads this
    {
      Tiers(wal, store, tmp, ranges, stages)
    }

    constructor (wal: Files, crypto: Crypto, hash: Hash, verify: bool)
      ensures State() == Unconverted(wal)
      ensures this.crypto == crypto && this.hash == hash && this.verify == verify
    {
      this.wal, store, tmp, ranges, stages := wal, map[], map[], map[], map[];
      this.crypto, this.hash, this.verify := crypto, hash, verify;
    }

    method ProcessEntry(id: nat, how: Settings)
      modifies this
      ensures State() == AfterProcessing(crypto, hash, old(State()), id, how)
    {
      hide ContentOf, StoreFile, Pack, IdWidth, Converted, RangeToRecord, Writable;
      var content := GetWalContent(hash, if id in wal then Some(wal[id]) else None);
      MissingHasNoContent(hash);
      if id in wal {
        ConvertedIs(crypto, hash, id, how, wal[id]);
      }
      if content.Err? {
        return;
      }
      var data := Pack(crypto, id, how.compression, how.encryption, content.value.content);
      var header := StoreHeader(how.compression, how.encryption, content.value.entriesBefore, content.value.numEntries);
      if data.Err? || !Writable(header) {
        return;
      }
      WriteStoreFile(id, header, data.value);
      if header.before + header.count == 0 {
        return;
      }
      RecordRange(id, header.before, header.before + header.count - 1);
      wal := wal - {id};
      stages := stages - {id};
    }

    method WriteStoreFile(id: nat, header: StoreHeader, data: Bytes)
      requires header.Storable()
      modifies this
      ensures State() == old(State()).(store := old(store)[id := StoreFile(crypto, header, data)],
                                       tmp := old(tmp) - {id}, stages := old(stages)[id := Renamed])
    {
      hide StoreFile, IdWidth;
      tmp := tmp[id := StoreFile(crypto, header, data)];
      store := store[id := tmp[id]];
      tmp := tmp - {id};
      stages := stages[id := Renamed];
    }

    method RecordRange(id: nat, first: nat, last: nat)
      modifies `ranges
      ensures ranges == old(ranges)[id := (first, last)]
    {
      ranges := ranges[id := (first, last)];
    }

    method LookUp(id: nat) returns (r: Result<Option<(nat, nat)>, StoreError>)
      modifies `ranges
      ensures r == GetRange(crypto, verify, old(State()), id)
      ensures ranges == RangesAfter(crypto, verify, old(State()), id)
    {
      if id in ranges {
        return Ok(Some(ranges[id]));
      }
      if id !in store {
        return Ok(None);
      }
      r := RangeFromFile(crypto, store[id], verify);
      if r.Ok? && r.value.Some? {
        ranges := ranges[id := r.value.value];
      }
    }
  }

  lemma MissingHasNoContent(hash: Hash)
    ensures ContentOf(hash, None).Err?
  {
  }

  /** The conversion in the worker's terms. */
  lemma ConvertedIs(c: Crypto, hash: Hash, id: nat, how: Settings, wal: Bytes)
    ensures var content, made := ContentOf(hash, Some(wal)), Converted(c, hash, id, how, wal);
            if content.Err? then made.None?
            else
              var header := StoreHeader(how.compression, how.encryption, content.value.entriesBefore, content.value.numEntries);
              var data := Pack(c, id, how.compression, how.encryption, wal);
              && content.value.content == wal
              && (if data.Err? || !Writable(header) then made.None? else header.Storable() && made == Some(StoreFile(c, header, data.value)))
              && RangeToRecord(hash, wal) == if header.before + header.count == 0 then None
                                             else Some((header.before, header.before + header.count - 1))
  {
    hide Pack, StoreFile, HeaderFromBytes, Scan, IdWidth;
  }
}
