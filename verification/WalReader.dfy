/** The four WAL readers: range and content scans, and the two stepped range reads. */
module WalReader {
  import opened Outcomes
  import opened Bytes
  import opened WalCodec
  import opened WalScan
  import opened Selection

  datatype WalError = WalNotFound | WalEmpty | NoContent | BadHeader(error: HeaderError)

  // ----- What the scans find -----

  function RangeOf(es: seq<Entry>): (r: Option<(nat, nat)>) {
    if es == [] then None else Some((es[0].id, es[|es| - 1].id))
  }

  /** A file's header and the ids of its first and last valid entry. */
  function WalRange(hash: Hash, file: Option<Bytes>): (r: Result<(WalHeader, Option<(nat, nat)>), WalError>) {
    match file
    case None => Err(WalNotFound)
    case Some(s) =>
      if s == [] then Err(WalEmpty)
      else
        match HeaderFromReader(s)
        case Err(HeaderTooShort) => Err(WalEmpty)
        case Err(e) => Err(BadHeader(e))
        case Ok((hd, size)) => Ok((hd, RangeOf(Scan(hash, hd, s[size..]))))
  }

  datatype WalContent = WalContent(entriesBefore: nat, numEntries: nat, content: Bytes)

  function ContentOf(hash: Hash, file: Option<Bytes>): (r: Result<WalContent, WalError>) {
    match file
    case None => Err(WalNotFound)
    case Some(s) =>
      if s == [] then Err(NoContent)
      else
        match HeaderFromBytes(s)
        case Err(e) => Err(BadHeader(e))
        case Ok((hd, size)) => Ok(WalContent(hd.numEntriesBefore, |Scan(hash, hd, s[size..])|, s))
  }

  /** A header decodes the same from exactly its own bytes as from a longer slice. */
  lemma DecodeUsesPrefix(s: Bytes, hd: WalHeader)
    requires EntryHeaderSize(hd) <= |s|
    ensures DecodeEntryHeader(s[..EntryHeaderSize(hd)], hd) == DecodeEntryHeader(s, hd)
  {
    hide LeValue, ReadU64;
    var n := EntryHeaderSize(hd);
    var sizeAt := 8 + hd.idSizeBytes;
    var hashAt := sizeAt + hd.dataSizeBytes;
    SliceOfPrefix(s, n, 0, 8);
    SliceOfPrefix(s, n, 8, sizeAt);
    SliceOfPrefix(s, n, sizeAt, hashAt);
    SliceOfPrefix(s, n, hashAt, hashAt + 8);
  }

  /**
   * The entry at a stream position: the header is read as exactly its bytes, then the record as
   * exactly its length; too few bytes left for either ends the stream.
   */
  function StreamEntry(hash: Hash, hd: WalHeader, s: Bytes, cursor: nat): (f: Front)
    requires cursor <= |s|
    ensures f == NextEntry(hash, hd, s[cursor..])
  {
    hide DecodeEntryHeader;
    var at := cursor + EntryHeaderSize(hd);
    if |s| < at then Nothing
    else
      DecodeUsesPrefix(s[cursor..], hd);
      SliceOfTail(s, cursor, 0, EntryHeaderSize(hd));
      match DecodeEntryHeader(s[cursor..at], hd)
      case Err(_) => Nothing
      case Ok(eh) =>
        if eh.recordSize >= U64_LIMIT then Damaged(eh.entryId)
        else if eh.recordSize > 0 && |s| - at < eh.recordSize then Damaged(eh.entryId)
        else
          SliceOfTail(s, cursor, EntryHeaderSize(hd), EntryHeaderSize(hd) + eh.recordSize);
          var record := s[at..at + eh.recordSize];
          if hash(record) != eh.xxhash then Damaged(eh.entryId)
          else Whole(Entry(eh.entryId, record), EntryHeaderSize(hd) + eh.recordSize)
  }

  /** The entry at an offset of bytes held in memory. */
  function SliceEntry(hash: Hash, hd: WalHeader, s: Bytes, cursor: nat): (f: Front)
    requires cursor <= |s|
    ensures f == NextEntry(hash, hd, s[cursor..])
  {
    hide DecodeEntryHeader;
    var remaining := s[cursor..];
    if remaining == [] then Nothing
    else
      match DecodeEntryHeader(remaining, hd)
      case Err(_) => Nothing
      case Ok(eh) =>
        var at := cursor + EntryHeaderSize(hd);
        if eh.recordSize >= U64_LIMIT || |s| < at + eh.recordSize then Damaged(eh.entryId)
        else
          SliceOfTail(s, cursor, EntryHeaderSize(hd), EntryHeaderSize(hd) + eh.recordSize);
          var record := s[at..at + eh.recordSize];
          if hash(record) != eh.xxhash then Damaged(eh.entryId)
          else Whole(Entry(eh.entryId, record), EntryHeaderSize(hd) + eh.recordSize)
  }

  /** Moving the cursor past a whole entry moves that entry from what is left to what is done. */
  lemma ScanAdvance(hash: Hash, hd: WalHeader, s: Bytes, cursor: nat, done: seq<Entry>)
    requires cursor <= |s|
    ensures var f := NextEntry(hash, hd, s[cursor..]);
            if f.Whole? then
              done + Scan(hash, hd, s[cursor..]) == (done + [f.entry]) + Scan(hash, hd, s[cursor + f.size..])
            else done + Scan(hash, hd, s[cursor..]) == done
  {
    hide NextEntry;
    var f := NextEntry(hash, hd, s[cursor..]);
    if f.Whole? {
      TailOfTail(s, cursor, f.size);
    }
  }

  method GetWalRange(hash: Hash, file: Option<Bytes>)
    returns (r: Result<(WalHeader, Option<(nat, nat)>), WalError>)
    ensures r == WalRange(hash, file)
  {
    hide NextEntry, Scan, StreamEntry, HeaderFromReader;
    if file.None? {
      return Err(WalNotFound);
    }
    var s := file.value;
    if s == [] {
      return Err(WalEmpty);
    }
    var decoded := HeaderFromReader(s);
    if decoded.Err? {
      return if decoded.error == HeaderTooShort then Err(WalEmpty) else Err(BadHeader(decoded.error));
    }
    var (hd, size) := decoded.value;
    var cursor := size;
    var firstId, lastId: Option<nat> := None, None;
    ghost var done: seq<Entry> := [];
    while true
      invariant size <= cursor <= |s|
      invariant done + Scan(hash, hd, s[cursor..]) == Scan(hash, hd, s[size..])
      invariant done == [] ==> firstId.None? && lastId.None?
      invariant done != [] ==> firstId == Some(done[0].id) && lastId == Some(done[|done| - 1].id)
      decreases |s| - cursor
    {
      var front := StreamEntry(hash, hd, s, cursor);
      ScanAdvance(hash, hd, s, cursor, done);
      if front.Nothing? {
        break;
      }
      if firstId.None? {
        firstId := Some(if front.Whole? then front.entry.id else front.id);
      }
      if front.Damaged? {
        break;
      }
      lastId := Some(front.entry.id);
      cursor := cursor + front.size;
      done := done + [front.entry];
    }
    return Ok((hd, if firstId.Some? && lastId.Some? then Some((firstId.value, lastId.value)) else None));
  }

  method GetWalContent(hash: Hash, file: Option<Bytes>) returns (r: Result<WalContent, WalError>)
    ensures r == ContentOf(hash, file)
  {
    hide NextEntry, Scan, SliceEntry, HeaderFromBytes;
    if file.None? {
      return Err(WalNotFound);
    }
    var s := file.value;
    if s == [] {
      return Err(NoContent);
    }
    var decoded := HeaderFromBytes(s);
    if decoded.Err? {
      return Err(BadHeader(decoded.error));
    }
    var (hd, size) := decoded.value;
    var cursor, numEntries := size, 0;
    ghost var done: seq<Entry> := [];
    while true
      invariant size <= cursor <= |s|
      invariant done + Scan(hash, hd, s[cursor..]) == Scan(hash, hd, s[size..])
      invariant numEntries == |done|
      decreases |s| - cursor
    {
      var front := SliceEntry(hash, hd, s, cursor);
      ScanAdvance(hash, hd, s, cursor, done);
      if !front.Whole? {
        break;
      }
      cursor := cursor + front.size;
      numEntries := numEntries + 1;
      done := done + [front.entry];
    }
    return Ok(WalContent(hd.numEntriesBefore, numEntries, s));
  }

  // ----- Stepped range reads -----

  datatype RangeResult = Complete | PartialRead(lastReadId: Option<nat>, lastIdInFile: nat)

  /** What one pass sends, the last entry header it saw, and whether it stopped at the range's end. */
  datatype Walk = Walk(sent: seq<Entry>, lastSeen: Option<nat>, found: bool)

  predicate Past(id: nat, until: Option<nat>) {
    until.Some? && id > until.value
  }

  predicate Reached(id: nat, until: Option<nat>) {
    until.Some? && id >= until.value
  }

  /** The pass over the bytes after a header, entry by entry. */
  function WalkRange(hash: Hash, hd: WalHeader, s: Bytes, from: nat, until: Option<nat>, step: nat): (w: Walk)
    requires step >= 1
    decreases |s|
  {
    match NextEntry(hash, hd, s)
    case Nothing => Walk([], None, false)
    case Damaged(id) => Walk([], Some(id), Past(id, until))
    case Whole(e, size) =>
      if Past(e.id, until) then Walk([], Some(e.id), true)
      else
        var sends := from <= e.id && InStep(e.id, from, step);
        if sends && Reached(e.id, until) then Walk([e], Some(e.id), true)
        else Extend(if sends then [e] else [], Some(e.id), WalkRange(hash, hd, s[size..], from, until, step))
  }

  /** What was already sent and seen, followed by the rest of a pass. */
  function Extend(sent: seq<Entry>, seen: Option<nat>, rest: Walk): (w: Walk) {
    Walk(sent + rest.sent, if rest.lastSeen.Some? then rest.lastSeen else seen, rest.found)
  }

  /** The verdict of a pass. */
  function Conclude(w: Walk, from: nat, until: Option<nat>): (r: RangeResult) {
    if w.found || (w.lastSeen.Some? && Reached(w.lastSeen.value, until)) then Complete
    else PartialRead(if w.sent == [] then None else Some(w.sent[|w.sent| - 1].id),
                     if w.lastSeen.Some? then w.lastSeen.value else from)
  }

  datatype ReadOutcome = ReadOutcome(sent: seq<Entry>, result: Result<RangeResult, WalError>)

  /** Reading a range from a file on disk. */
  function FileRange(hash: Hash, file: Option<Bytes>, from: nat, until: Option<nat>, step: nat): (r: ReadOutcome) {
    match file
    case None => ReadOutcome([], Err(WalNotFound))
    case Some(s) =>
      if s == [] then ReadOutcome([], Ok(PartialRead(None, from)))
      else
        match HeaderFromReader(s)
        case Err(e) => ReadOutcome([], Err(BadHeader(e)))
        case Ok((hd, size)) =>
          var w := WalkRange(hash, hd, s[size..], from, until, AtLeastOne(step));
          ReadOutcome(w.sent, Ok(Conclude(w, from, until)))
  }

  /** Reading a range from bytes in memory. */
  function BytesRange(hash: Hash, s: Bytes, from: nat, until: Option<nat>, step: nat): (r: ReadOutcome) {
    if s == [] then ReadOutcome([], Ok(PartialRead(None, from)))
    else
      match HeaderFromBytes(s)
      case Err(HeaderTooShort) => ReadOutcome([], Ok(PartialRead(None, from)))
      case Err(e) => ReadOutcome([], Err(BadHeader(e)))
      case Ok((hd, size)) =>
        var w := WalkRange(hash, hd, s[size..], from, until, AtLeastOne(step));
        ReadOutcome(w.sent, Ok(Conclude(w, from, until)))
  }

  /** A step of none is a step of one. */
  function AtLeastOne(step: nat): (k: nat)
    ensures k >= 1 && (step >= 1 ==> k == step) && (step == 0 ==> k == 1)
  {
    if step == 0 then 1 else step
  }

  /** What the four readers say about a missing and an empty file, and about one of a foreign version. */
  lemma OddFiles(hash: Hash, s: Bytes, version: U64, from: nat, until: Option<nat>, step: nat)
    requires |s| >= WAL_HEADER_FIXED_SIZE && version != 0 && s[..8] == U64Bytes(version)
    ensures WalRange(hash, None) == Err(WalNotFound) && ContentOf(hash, None) == Err(WalNotFound)
    ensures WalRange(hash, Some([])) == Err(WalEmpty) && ContentOf(hash, Some([])) == Err(NoContent)
    ensures FileRange(hash, None, from, until, step) == ReadOutcome([], Err(WalNotFound))
    ensures FileRange(hash, Some([]), from, until, step) == BytesRange(hash, [], from, until, step)
         == ReadOutcome([], Ok(PartialRead(None, from)))
    ensures var bad := BadHeader(HeaderVersion(version));
            && WalRange(hash, Some(s)) == Err(bad) && ContentOf(hash, Some(s)) == Err(bad)
            && FileRange(hash, Some(s), from, until, step) == BytesRange(hash, s, from, until, step) == ReadOutcome([], Err(bad))
  {
    hide HeaderFromBytes, HeaderFromReader, U64Bytes;
    HeaderFromBytesExactly(s, DefaultHeader, 0, version);
    HeaderFromReaderExactly(s, DefaultHeader, 0, version);
  }

  /** A cut header: the file reader refuses it, the in-memory reader takes the front of one for nothing read yet. */
  lemma CutHeaderRange(hash: Hash, hd: WalHeader, k: nat, from: nat, until: Option<nat>, step: nat)
    requires hd.Storable() && 0 < k < |HeaderBytes(hd)|
    ensures var s := HeaderBytes(hd)[..k];
            && FileRange(hash, Some(s), from, until, step) == ReadOutcome([], Err(BadHeader(HeaderTooShort)))
            && BytesRange(hash, s, from, until, step)
               == ReadOutcome([], if k < 24 then Ok(PartialRead(None, from)) else Err(BadHeader(HeaderIdTooShort)))
  {
    hide HeaderBytes, HeaderFromBytes, HeaderFromReader;
    HeaderTorn(hd, k);
  }

  /** The pass seen from a cursor: what is done extended by the rest is the whole pass. */
  ghost predicate WalkSoFar(hash: Hash, hd: WalHeader, s: Bytes, start: nat, cursor: nat,
                            from: nat, until: Option<nat>, step: nat, sent: seq<Entry>, seen: Option<nat>)
    requires start <= cursor <= |s| && step >= 1
  {
    Extend(sent, seen, WalkRange(hash, hd, s[cursor..], from, until, step))
    == WalkRange(hash, hd, s[start..], from, until, step)
  }

  /** Moving the cursor over a whole entry that does not end the pass. */
  lemma WalkAdvance(hash: Hash, hd: WalHeader, s: Bytes, start: nat, cursor: nat,
                    from: nat, until: Option<nat>, step: nat, sent: seq<Entry>, seen: Option<nat>)
    requires start <= cursor <= |s| && step >= 1
    requires WalkSoFar(hash, hd, s, start, cursor, from, until, step, sent, seen)
    requires NextEntry(hash, hd, s[cursor..]).Whole?
    ensures var f := NextEntry(hash, hd, s[cursor..]);
            var sends := from <= f.entry.id && InStep(f.entry.id, from, step);
            !Past(f.entry.id, until) && !(sends && Reached(f.entry.id, until)) ==>
              WalkSoFar(hash, hd, s, start, cursor + f.size, from, until, step,
                        if sends then sent + [f.entry] else sent, Some(f.entry.id))
  {
    hide NextEntry;
    var f := NextEntry(hash, hd, s[cursor..]);
    TailOfTail(s, cursor, f.size);
    var rest := WalkRange(hash, hd, s[cursor + f.size..], from, until, step);
    ConcatOne(sent, f.entry, rest.sent);
    assert sent + ([] + rest.sent) == sent + rest.sent;
  }

  lemma ConcatOne(done: seq<Entry>, e: Entry, more: seq<Entry>)
    ensures done + ([e] + more) == (done + [e]) + more
  {
  }

  /** The pass of the streaming reader, from the end of the file header on. */
  method StreamPass(hash: Hash, hd: WalHeader, s: Bytes, start: nat, from: nat, until: Option<nat>, step: nat)
    returns (sent: seq<Entry>, lastProcessed: Option<nat>, foundComplete: bool)
    requires start <= |s| && step >= 1
    ensures Walk(sent, lastProcessed, foundComplete) == WalkRange(hash, hd, s[start..], from, until, step)
  {
    hide NextEntry, StreamEntry;
    sent, lastProcessed, foundComplete := [], None, false;
    var cursor := start;
    while true
      invariant start <= cursor <= |s| && !foundComplete
      invariant WalkSoFar(hash, hd, s, start, cursor, from, until, step, sent, lastProcessed)
      decreases |s| - cursor
    {
      var front := StreamEntry(hash, hd, s, cursor);
      if front.Nothing? {
        assert sent + [] == sent;
        return;
      }
      var id := if front.Whole? then front.entry.id else front.id;
      ghost var seen := lastProcessed;
      lastProcessed := Some(id);
      if Past(id, until) {
        foundComplete := true;
        assert sent + [] == sent;
        return;
      }
      if front.Damaged? {
        assert sent + [] == sent;
        return;
      }
      WalkAdvance(hash, hd, s, start, cursor, from, until, step, sent, seen);
      cursor := cursor + front.size;
      if from <= id && InStep(id, from, step) {
        sent := sent + [front.entry];
        if Reached(id, until) {
          foundComplete := true;
          return;
        }
      }
    }
  }

  /** The same pass over bytes held in memory. */
  method SlicePass(hash: Hash, hd: WalHeader, s: Bytes, start: nat, from: nat, until: Option<nat>, step: nat)
    returns (sent: seq<Entry>, lastProcessed: Option<nat>, foundComplete: bool)
    requires start <= |s| && step >= 1
    ensures Walk(sent, lastProcessed, foundComplete) == WalkRange(hash, hd, s[start..], from, until, step)
  {
    hide NextEntry, SliceEntry;
    sent, lastProcessed, foundComplete := [], None, false;
    var cursor := start;
    while true
      invariant start <= cursor <= |s| && !foundComplete
      invariant WalkSoFar(hash, hd, s, start, cursor, from, until, step, sent, lastProcessed)
      decreases |s| - cursor
    {
      var front := SliceEntry(hash, hd, s, cursor);
      if front.Nothing? {
        assert sent + [] == sent;
        return;
      }
      var id := if front.Whole? then front.entry.id else front.id;
      ghost var seen := lastProcessed;
      lastProcessed := Some(id);
      if Past(id, until) {
        foundComplete := true;
        assert sent + [] == sent;
        return;
      }
      if front.Damaged? {
        assert sent + [] == sent;
        return;
      }
      WalkAdvance(hash, hd, s, start, cursor, from, until, step, sent, seen);
      cursor := cursor + front.size;
      if from <= id && InStep(id, from, step) {
        sent := sent + [front.entry];
        if Reached(id, until) {
          foundComplete := true;
          return;
        }
      }
    }
  }

  method ReadWalFileRange(hash: Hash, file: Option<Bytes>, from: nat, until: Option<nat>, step: nat)
    returns (sent: seq<Entry>, result: Result<RangeResult, WalError>)
    ensures ReadOutcome(sent, result) == FileRange(hash, file, from, until, step)
  {
    hide WalkRange, HeaderFromReader;
    sent := [];
    if file.None? {
      return sent, Err(WalNotFound);
    }
    var s := file.value;
    if s == [] {
      return sent, Ok(PartialRead(None, from));
    }
    var decoded := HeaderFromReader(s);
    if decoded.Err? {
      return sent, Err(BadHeader(decoded.error));
    }
    var lastProcessed, found;
    sent, lastProcessed, found := StreamPass(hash, decoded.value.0, s, decoded.value.1, from, until, AtLeastOne(step));
    result := Ok(Conclude(Walk(sent, lastProcessed, found), from, until));
  }

  method ReadWalBytesRange(hash: Hash, s: Bytes, from: nat, until: Option<nat>, step: nat)
    returns (sent: seq<Entry>, result: Result<RangeResult, WalError>)
    ensures ReadOutcome(sent, result) == BytesRange(hash, s, from, until, step)
  {
    hide WalkRange, HeaderFromBytes;
    sent := [];
    if s == [] {
      return sent, Ok(PartialRead(None, from));
    }
    var decoded := HeaderFromBytes(s);
    if decoded.Err? {
      return sent, if decoded.error == HeaderTooShort then Ok(PartialRead(None, from)) else Err(BadHeader(decoded.error));
    }
    var lastProcessed, found;
    sent, lastProcessed, found := SlicePass(hash, decoded.value.0, s, decoded.value.1, from, until, AtLeastOne(step));
    result := Ok(Conclude(Walk(sent, lastProcessed, found), from, until));
  }

  // ----- What the readers make of a file that may be cut off -----

  /** How many entry headers are complete in the first k bytes of a run. */
  function HeadersSeen(hd: WalHeader, es: seq<Entry>, k: nat): (n: nat)
    ensures WholeEntries(hd, es, k) <= n <= WholeEntries(hd, es, k) + 1
    ensures n <= |es|
  {
    if es == [] || k < EntryHeaderSize(hd) then 0
    else if k < EntryHeaderSize(hd) + |es[0].data| then 1
    else 1 + HeadersSeen(hd, es[1..], k - (EntryHeaderSize(hd) + |es[0].data|))
  }

  /** The pass saw an id at or beyond the end of the range. */
  predicate SawEnd(w: Walk, until: Option<nat>) {
    w.found || (w.lastSeen.Some? && Reached(w.lastSeen.value, until))
  }

  /**
   * A pass over any byte prefix of numbered entries sends the selected whole entries, and sees
   * the end of the range exactly when a complete entry header carries an id that reaches it.
   */
  lemma {:induction false} WalkPrefix(hash: Hash, hd: WalHeader, es: seq<Entry>, first: nat, k: nat,
                                      from: nat, until: Option<nat>, step: nat)
    requires AllFit(hd, es) && Numbered(es, first) && step >= 1
    requires k <= |RunBytes(hash, hd, es)|
    ensures var w := WalkRange(hash, hd, RunBytes(hash, hd, es)[..k], from, until, step);
            var h := HeadersSeen(hd, es, k);
            && w.sent == Selected(es[..WholeEntries(hd, es, k)], from, until, step)
            && (SawEnd(w, until) <==> h > 0 && Reached(first + h - 1, until))
            && (!SawEnd(w, until) ==> w.lastSeen == if h > 0 then Some(first + h - 1) else None)
    decreases es
  {
    hide NextEntry, EntryBytes, DecodeEntryHeader, WalkRange, Selected;
    var s := RunBytes(hash, hd, es)[..k];
    if es == [] {
      EmptyHasNoEntry(hash, hd);
      WalkEnds(hash, hd, s, from, until, step);
      SelectedNone([], from, until, step);
    } else {
      var head, rest := EntryBytes(hash, hd, es[0]), RunBytes(hash, hd, es[1..]);
      if k < |head| {
        SliceLeft(head, rest, 0, k);
        assert s == head[..k];
        NextOfTorn(hash, hd, es[0], k);
        WalkEnds(hash, hd, s, from, until, step);
        SelectedNone([], from, until, step);
      } else {
        var tail := rest[..k - |head|];
        assert s == head + tail;
        NextOfWhole(hash, hd, es[0], tail);
        assert s[|head|..] == tail;
        WalkPrefix(hash, hd, es[1..], first + 1, k - |head|, from, until, step);
        WalkPrefixStep(hash, hd, es, first, k, from, until, step, s);
      }
    }
  }

  /** Where no whole entry stands, the pass ends. */
  lemma WalkEnds(hash: Hash, hd: WalHeader, s: Bytes, from: nat, until: Option<nat>, step: nat)
    requires step >= 1
    ensures var f := NextEntry(hash, hd, s);
            f.Whole? || (WalkRange(hash, hd, s, from, until, step)
                         == Walk([], if f.Damaged? then Some(f.id) else None, f.Damaged? && Past(f.id, until)))
  {
    hide NextEntry;
  }

  lemma WalkPrefixStep(hash: Hash, hd: WalHeader, es: seq<Entry>, first: nat, k: nat,
                       from: nat, until: Option<nat>, step: nat, s: Bytes)
    requires es != [] && Numbered(es, first) && step >= 1
    requires k >= EntryHeaderSize(hd) + |es[0].data|
    requires var size := EntryHeaderSize(hd) + |es[0].data|;
             && size <= |s| && NextEntry(hash, hd, s) == Whole(es[0], size)
             && var w := WalkRange(hash, hd, s[size..], from, until, step);
                var h := HeadersSeen(hd, es[1..], k - size);
                && w.sent == Selected(es[1..][..WholeEntries(hd, es[1..], k - size)], from, until, step)
                && (SawEnd(w, until) <==> h > 0 && Reached(first + 1 + h - 1, until))
                && (!SawEnd(w, until) ==> w.lastSeen == if h > 0 then Some(first + 1 + h - 1) else None)
    ensures var w := WalkRange(hash, hd, s, from, until, step);
            var h := HeadersSeen(hd, es, k);
            && w.sent == Selected(es[..WholeEntries(hd, es, k)], from, until, step)
            && (SawEnd(w, until) <==> h > 0 && Reached(first + h - 1, until))
            && (!SawEnd(w, until) ==> w.lastSeen == if h > 0 then Some(first + h - 1) else None)
  {
    hide NextEntry, DecodeEntryHeader;
    var size := EntryHeaderSize(hd) + |es[0].data|;
    var n := WholeEntries(hd, es, k);
    TailOfPrefix(es, n);
    var more := es[1..][..n - 1];
    var e := es[0];
    assert e.id == first;
    if from <= e.id {
      InStepIsMultiple(e.id, from, step);
    }
    if Reached(e.id, until) {
      SelectedNone(more, from, until, step);
    }
  }

  /**
   * On any bytes, damaged or not, a pass sends the selected ones of the entries a scan finds up to
   * where it ends, and of all of them unless it stops at the end of its range.
   */
  lemma {:induction false} WalkSendsScanned(hash: Hash, hd: WalHeader, s: Bytes, from: nat, until: Option<nat>, step: nat) returns (n: nat)
    requires step >= 1
    ensures var w, es := WalkRange(hash, hd, s, from, until, step), Scan(hash, hd, s);
            && n <= |es| && w.sent == Selected(es[..n], from, until, step)
            && (n < |es| ==> w.found)
            && (w.found ==> w.lastSeen.Some? && Reached(w.lastSeen.value, until))
    decreases |s|
  {
    hide NextEntry;
    var w, es := WalkRange(hash, hd, s, from, until, step), Scan(hash, hd, s);
    var f := NextEntry(hash, hd, s);
    n := 0;
    if f.Whole? && !Past(f.entry.id, until) {
      var e, sends := f.entry, from <= f.entry.id && InStep(f.entry.id, from, step);
      if from <= e.id {
        InStepIsMultiple(e.id, from, step);
      }
      assert es[0] == e && es[1..] == Scan(hash, hd, s[f.size..]);
      if sends && Reached(e.id, until) {
        n := 1;
        assert es[..1] == [e] && [e][1..] == [];
      } else {
        var k := WalkSendsScanned(hash, hd, s[f.size..], from, until, step);
        n := k + 1;
        TailOfPrefix(es, n);
      }
    }
  }

  /**
   * A pass over a run of entries followed by a record that is not what its checksum says sends only
   * entries of the run; the id of the damaged entry still shows, unless the range ends before it.
   */
  lemma {:induction false} WalkStopsAtDamage(hash: Hash, hd: WalHeader, es: seq<Entry>, first: nat, eh: EntryHeader, record: Bytes, rest: Bytes,
                                             from: nat, until: Option<nat>, step: nat)
    requires AllFit(hd, es) && hd.CanHold(eh.entryId, eh.recordSize) && |record| == eh.recordSize && hash(record) != eh.xxhash
    requires Numbered(es, first) && step >= 1
    ensures var w := WalkRange(hash, hd, RunThenDamage(hash, hd, es, eh, record, rest), from, until, step);
            && w.sent == Selected(es, from, until, step)
            && (es == [] || !Reached(first + |es| - 1, until) ==> w.lastSeen == Some(eh.entryId) && w.found == Past(eh.entryId, until))
    decreases es
  {
    hide NextEntry, EntryBytes, EncodeEntryHeader, IdWidth;
    var s := RunThenDamage(hash, hd, es, eh, record, rest);
    var tail := EncodeEntryHeader(eh, hd).value + (record + rest);
    if es == [] {
      assert s == tail;
      NextOfDamaged(hash, hd, eh, record, rest);
    } else {
      var head, more, e := EntryBytes(hash, hd, es[0]), RunThenDamage(hash, hd, es[1..], eh, record, rest), es[0];
      ConcatAssociates(head, RunBytes(hash, hd, es[1..]), tail);
      assert s == head + more;
      NextOfWhole(hash, hd, e, more);
      DropLeft(head, more);
      WalkStopsAtDamage(hash, hd, es[1..], first + 1, eh, record, rest, from, until, step);
      assert e.id == first;
      if from <= e.id {
        InStepIsMultiple(e.id, from, step);
      }
      if Reached(e.id, until) {
        SelectedNone(es[1..], from, until, step);
      }
    }
  }

  /** With an untorn file the verdict is right: complete exactly when the last id reaches the end. */
  lemma UntornRange(hash: Hash, hd: WalHeader, es: seq<Entry>, first: nat, from: nat, until: Option<nat>, step: nat)
    requires hd.Storable() && AllFit(hd, es) && Numbered(es, first)
    ensures var r := BytesRange(hash, HeaderBytes(hd) + RunBytes(hash, hd, es), from, until, step);
            var sel := Selected(es, from, until, AtLeastOne(step));
            && r.sent == sel
            && r.result == Ok(
                 if es != [] && Reached(first + |es| - 1, until) then Complete
                 else PartialRead(if sel == [] then None else Some(sel[|sel| - 1].id),
                                  if es == [] then from else first + |es| - 1))
  {
    hide HeaderBytes, HeaderFromBytes, WalkRange, RunBytes, Selected, WholeEntries, HeadersSeen, IdWidth, Fits;
    var run := RunBytes(hash, hd, es);
    HeaderRoundTrip(hd, run);
    DropLeft(HeaderBytes(hd), run);
    TakeAll(run);
    WholeRun(hash, hd, es);
    WalkPrefix(hash, hd, es, first, |run|, from, until, AtLeastOne(step));
    assert es[..|es|] == es;
  }

  /** All of a run's bytes hold all of its entries. */
  lemma {:induction false} WholeRun(hash: Hash, hd: WalHeader, es: seq<Entry>)
    requires AllFit(hd, es)
    ensures WholeEntries(hd, es, |RunBytes(hash, hd, es)|) == |es|
    ensures HeadersSeen(hd, es, |RunBytes(hash, hd, es)|) == |es|
  {
    hide EntryBytes;
    if es != [] {
      WholeRun(hash, hd, es[1..]);
    }
  }

  /**
   * On a cut file the verdict can be early: the reader says complete without sending an id up to
   * the end of the range exactly when the end of the range is the cut entry and that entry's
   * header survived.
   */
  lemma EarlyComplete(hash: Hash, hd: WalHeader, es: seq<Entry>, first: nat, k: nat,
                      from: nat, until: nat, step: nat)
    requires AllFit(hd, es) && Numbered(es, first) && step >= 1
    requires k <= |RunBytes(hash, hd, es)|
    ensures var w := WalkRange(hash, hd, RunBytes(hash, hd, es)[..k], from, Some(until), step);
            var n := WholeEntries(hd, es, k);
            (Conclude(w, from, Some(until)) == Complete && (n == 0 || first + n - 1 < until))
            <==> (HeadersSeen(hd, es, k) == n + 1 && (if n == 0 then until <= first else until == first + n))
  {
    hide WalkRange, RunBytes, Selected, WholeEntries, HeadersSeen;
    WalkPrefix(hash, hd, es, first, k, from, Some(until), step);
  }

  /** The two range readers send the same entries and give the same verdict once the header is whole. */
  lemma ReadersAgree(hash: Hash, s: Bytes, from: nat, until: Option<nat>, step: nat)
    requires HeaderFromReader(s).Ok?
    ensures FileRange(hash, Some(s), from, until, step) == BytesRange(hash, s, from, until, step)
  {
    hide WalkRange, LeValue, ReadU64;
    var len := ReadU64(s[24..32]);
    SliceOfTail(s, 24, 0, 8);
    SliceOfTail(s, 24, 8, 8 + len);
  }

  /** On any byte prefix of a file, header included, the scans find the longest whole run. */
  lemma FilePrefix(hash: Hash, hd: WalHeader, es: seq<Entry>, k: nat)
    requires hd.Storable() && AllFit(hd, es)
    requires k <= |HeaderBytes(hd) + RunBytes(hash, hd, es)|
    ensures var s, n := (HeaderBytes(hd) + RunBytes(hash, hd, es))[..k], |HeaderBytes(hd)|;
            if k < n then
              WalRange(hash, Some(s)) == Err(WalEmpty) && ContentOf(hash, Some(s)).Err?
            else
              var found := es[..WholeEntries(hd, es, k - n)];
              && WalRange(hash, Some(s)) == Ok((hd, RangeOf(found)))
              && ContentOf(hash, Some(s)) == Ok(WalContent(hd.numEntriesBefore, |found|, s))
  {
    hide HeaderBytes, HeaderFromBytes, HeaderFromReader, RunBytes, Scan, WholeEntries;
    var head, run := HeaderBytes(hd), RunBytes(hash, hd, es);
    var s := (head + run)[..k];
    if k < |head| {
      SliceLeft(head, run, 0, k);
      assert s == head[..k];
      HeaderTorn(hd, k);
    } else {
      var part := run[..k - |head|];
      assert s == head + part;
      HeaderRoundTrip(hd, part);
      DropLeft(head, part);
      ScanPrefix(hash, hd, es, k - |head|);
    }
  }
}
