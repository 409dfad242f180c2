/** Reading WAL bytes back: what a scan of any byte string finds, and of any byte prefix of a run of entries. */
module WalScan {
  import opened Outcomes
  import opened Bytes
  import opened WalCodec

  /**
   * What stands at the front of the bytes: a whole valid entry and its size, the header of an
   * entry whose record is cut off or damaged, or nothing that decodes as an entry header.
   */
  datatype Front = Whole(entry: Entry, size: nat) | Damaged(id: nat) | Nothing

  function NextEntry(hash: Hash, hd: WalHeader, s: Bytes): (f: Front)
    ensures f.Whole? ==> 0 < f.size <= |s|
  {
    match DecodeEntryHeader(s, hd)
    case Err(_) => Nothing
    case Ok(eh) =>
      var at := EntryHeaderSize(hd);
      if eh.recordSize >= U64_LIMIT || |s| < at + eh.recordSize then Damaged(eh.entryId)
      else
        var record := s[at..at + eh.recordSize];
        if hash(record) != eh.xxhash then Damaged(eh.entryId)
        else Whole(Entry(eh.entryId, record), at + eh.recordSize)
  }

  /** The valid entries at the front of the bytes, up to the first that is not whole. */
  function Scan(hash: Hash, hd: WalHeader, s: Bytes): (es: seq<Entry>)
    decreases |s|
  {
    match NextEntry(hash, hd, s)
    case Whole(e, size) => [e] + Scan(hash, hd, s[size..])
    case _ => []
  }

  // ----- Any byte prefix of an encoding -----

  /** How many whole entries fit in the first k bytes of a run. */
  function WholeEntries(hd: WalHeader, es: seq<Entry>, k: nat): (n: nat)
    ensures n <= |es|
  {
    if es == [] || k < EntryHeaderSize(hd) + |es[0].data| then 0
    else 1 + WholeEntries(hd, es[1..], k - (EntryHeaderSize(hd) + |es[0].data|))
  }

  lemma NextOfWhole(hash: Hash, hd: WalHeader, e: Entry, rest: Bytes)
    requires Fits(hd, e)
    ensures NextEntry(hash, hd, EntryBytes(hash, hd, e) + rest) == Whole(e, |EntryBytes(hash, hd, e)|)
  {
    hide DecodeEntryHeader, EncodeEntryHeader, IdWidth;
    var head := EncodeEntryHeader(HeaderOf(hash, e), hd).value;
    EntryHeaderRoundTrip(HeaderOf(hash, e), hd, e.data + rest);
    ConcatAssociates(head, e.data, rest);
    SliceRight(head, e.data + rest, |head|, |head| + |e.data|);
    SliceWhole(e.data, rest);
  }

  /** An entry cut short is never taken for a whole one; its id shows once its header is complete. */
  lemma NextOfTorn(hash: Hash, hd: WalHeader, e: Entry, k: nat)
    requires Fits(hd, e) && k < |EntryBytes(hash, hd, e)|
    ensures NextEntry(hash, hd, EntryBytes(hash, hd, e)[..k])
         == if k < EntryHeaderSize(hd) then Nothing else Damaged(e.id)
  {
    hide DecodeEntryHeader, EncodeEntryHeader, IdWidth;
    var head := EncodeEntryHeader(HeaderOf(hash, e), hd).value;
    var s := EntryBytes(hash, hd, e)[..k];
    if k >= EntryHeaderSize(hd) {
      var part := e.data[..k - |head|];
      EntryHeaderRoundTrip(HeaderOf(hash, e), hd, part);
      assert s == head + part;
    }
  }

  /** Scanning any prefix of an encoded run finds exactly the whole entries in it. */
  lemma {:induction false} ScanPrefix(hash: Hash, hd: WalHeader, es: seq<Entry>, k: nat)
    requires AllFit(hd, es) && k <= |RunBytes(hash, hd, es)|
    ensures Scan(hash, hd, RunBytes(hash, hd, es)[..k]) == es[..WholeEntries(hd, es, k)]
    decreases es
  {
    hide NextEntry, EntryBytes, DecodeEntryHeader;
    var s := RunBytes(hash, hd, es)[..k];
    if es == [] {
      assert NextEntry(hash, hd, s) == Nothing by { EmptyHasNoEntry(hash, hd); }
    } else {
      var first, rest := EntryBytes(hash, hd, es[0]), RunBytes(hash, hd, es[1..]);
      if k < |first| {
        SliceLeft(first, rest, 0, k);
        assert s == first[..k];
        NextOfTorn(hash, hd, es[0], k);
      } else {
        var tail := rest[..k - |first|];
        assert s == first + tail;
        NextOfWhole(hash, hd, es[0], tail);
        assert s[|first|..] == tail;
        ScanPrefix(hash, hd, es[1..], k - |first|);
      }
    }
  }

  lemma TailOfPrefix(es: seq<Entry>, n: nat)
    requires 1 <= n <= |es|
    ensures es[..n][0] == es[0] && es[..n][1..] == es[1..][..n - 1]
  {
  }

  lemma EmptyHasNoEntry(hash: Hash, hd: WalHeader)
    ensures NextEntry(hash, hd, []) == Nothing
    ensures Scan(hash, hd, []) == []
  {
  }

  /** The whole entries found are the longest run that fits in k bytes. */
  lemma {:induction false} WholeEntriesMaximal(hash: Hash, hd: WalHeader, es: seq<Entry>, k: nat)
    requires AllFit(hd, es)
    ensures var n := WholeEntries(hd, es, k);
            && |RunBytes(hash, hd, es[..n])| <= k
            && (n < |es| ==> k < |RunBytes(hash, hd, es[..n + 1])|)
    decreases es
  {
    hide EntryBytes;
    var n := WholeEntries(hd, es, k);
    if es != [] {
      var size := EntryHeaderSize(hd) + |es[0].data|;
      if k < size {
        assert es[..1] == [es[0]] && es[..1][1..] == [];
        assert |EntryBytes(hash, hd, es[0])| == size;
      } else {
        WholeEntriesMaximal(hash, hd, es[1..], k - size);
        assert |EntryBytes(hash, hd, es[0])| == size;
        TailOfPrefix(es, n);
        if n < |es| {
          TailOfPrefix(es, n + 1);
        }
      }
    }
  }

  // ----- Any bytes at all -----

  /** An entry stands at an offset: its header, with the checksum of its record, and then the record. */
  ghost predicate Stands(hash: Hash, hd: WalHeader, s: Bytes, at: nat, e: Entry) {
    var start := at + EntryHeaderSize(hd);
    && start + |e.data| <= |s|
    && DecodeEntryHeader(s[at..], hd) == Ok(EntryHeader(e.id, |e.data|, hash(e.data)))
    && s[start..start + |e.data|] == e.data
  }

  /** How many bytes entries take. */
  function RunSize(hd: WalHeader, es: seq<Entry>): nat {
    if es == [] then 0 else RunSize(hd, es[..|es| - 1]) + EntryHeaderSize(hd) + |es[|es| - 1].data|
  }

  /** Entries stand one after the other from the front of the bytes on. */
  ghost predicate StandInRow(hash: Hash, hd: WalHeader, s: Bytes, es: seq<Entry>) {
    forall i :: 0 <= i < |es| ==> Stands(hash, hd, s, RunSize(hd, es[..i]), es[i])
  }

  /** These entries stand in a row and no entry stands after them. */
  ghost predicate AllThatStands(hash: Hash, hd: WalHeader, s: Bytes, es: seq<Entry>) {
    StandInRow(hash, hd, s, es) && forall e :: !Stands(hash, hd, s, RunSize(hd, es), e)
  }

  /**
   * The scan of any bytes, damaged or not: the entries found stand in a row, each behind a header with
   * the checksum of its record, and no entry stands after them. Only one run of entries does both.
   */
  lemma {:induction false} ScanExactly(hash: Hash, hd: WalHeader, s: Bytes, es: seq<Entry>)
    ensures es == Scan(hash, hd, s) <==> AllThatStands(hash, hd, s, es)
    decreases |s|
  {
    hide NextEntry, AllThatStands;
    if es == [] {
      NothingStands(hash, hd, s);
    } else {
      FirstThenRest(hash, hd, s, es);
      var f := NextEntry(hash, hd, s);
      if f.Whole? && f.entry == es[0] {
        ScanExactly(hash, hd, s[f.size..], es[1..]);
        assert es == [es[0]] + es[1..];
      }
    }
  }

  lemma NothingStands(hash: Hash, hd: WalHeader, s: Bytes)
    ensures AllThatStands(hash, hd, s, []) <==> !NextEntry(hash, hd, s).Whole?
  {
    hide NextEntry, Stands;
    FrontStands(hash, hd, s);
    if NextEntry(hash, hd, s).Whole? {
      assert Stands(hash, hd, s, RunSize(hd, []), NextEntry(hash, hd, s).entry);
    }
  }

  lemma FirstThenRest(hash: Hash, hd: WalHeader, s: Bytes, es: seq<Entry>)
    requires es != []
    ensures var f := NextEntry(hash, hd, s);
            AllThatStands(hash, hd, s, es) <==> f.Whole? && f.entry == es[0] && AllThatStands(hash, hd, s[f.size..], es[1..])
  {
    hide NextEntry, Stands, StandInRow;
    FrontStands(hash, hd, s);
    var f := NextEntry(hash, hd, s);
    if f.Whole? && f.entry == es[0] {
      RowOfTail(hash, hd, s, es);
      RunSizeFront(hd, es);
      forall e: Entry
        ensures Stands(hash, hd, s, RunSize(hd, es), e) <==> Stands(hash, hd, s[f.size..], RunSize(hd, es[1..]), e)
      {
        StandsInTail(hash, hd, s, f.size, RunSize(hd, es[1..]), e);
      }
    } else if StandInRow(hash, hd, s, es) {
      FirstOfRow(hash, hd, s, es);
    }
  }

  lemma FirstOfRow(hash: Hash, hd: WalHeader, s: Bytes, es: seq<Entry>)
    requires es != [] && StandInRow(hash, hd, s, es)
    ensures Stands(hash, hd, s, 0, es[0])
  {
    hide Stands;
    assert es[..0] == [];
  }

  /** What stands at the front, and nothing else does. */
  lemma FrontStands(hash: Hash, hd: WalHeader, s: Bytes)
    ensures var f := NextEntry(hash, hd, s);
            && (f.Whole? ==> f.size == EntryHeaderSize(hd) + |f.entry.data|)
            && forall e :: Stands(hash, hd, s, 0, e) <==> f.Whole? && f.entry == e
  {
    hide DecodeEntryHeader;
    assert s[0..] == s;
  }

  lemma StandsInTail(hash: Hash, hd: WalHeader, s: Bytes, n: nat, at: nat, e: Entry)
    requires n <= |s|
    ensures Stands(hash, hd, s, n + at, e) <==> Stands(hash, hd, s[n..], at, e)
  {
    hide DecodeEntryHeader;
    var start := at + EntryHeaderSize(hd);
    if n + start + |e.data| <= |s| {
      TailOfTail(s, n, at);
      SliceOfTail(s, n, start, start + |e.data|);
    }
  }

  lemma {:induction false} RunSizeFront(hd: WalHeader, es: seq<Entry>)
    requires es != []
    ensures RunSize(hd, es) == EntryHeaderSize(hd) + |es[0].data| + RunSize(hd, es[1..])
    decreases |es|
  {
    if |es| > 1 {
      var front := es[..|es| - 1];
      RunSizeFront(hd, front);
      assert front[1..] == es[1..][..|es| - 2];
    } else {
      assert es[..0] == [] && es[1..] == [];
    }
  }

  lemma RowOfTail(hash: Hash, hd: WalHeader, s: Bytes, es: seq<Entry>)
    requires es != [] && Stands(hash, hd, s, 0, es[0])
    ensures var size := EntryHeaderSize(hd) + |es[0].data|;
            size <= |s| && (StandInRow(hash, hd, s, es) <==> StandInRow(hash, hd, s[size..], es[1..]))
  {
    hide DecodeEntryHeader;
    var size := EntryHeaderSize(hd) + |es[0].data|;
    forall i | 1 <= i < |es|
      ensures Stands(hash, hd, s, RunSize(hd, es[..i]), es[i]) <==> Stands(hash, hd, s[size..], RunSize(hd, es[1..][..i - 1]), es[1..][i - 1])
    {
      RunSizeFront(hd, es[..i]);
      assert es[..i][1..] == es[1..][..i - 1];
      StandsInTail(hash, hd, s, size, RunSize(hd, es[1..][..i - 1]), es[i]);
    }
    assert es[..0] == [];
    if StandInRow(hash, hd, s[size..], es[1..]) {
      forall i | 0 <= i < |es|
        ensures Stands(hash, hd, s, RunSize(hd, es[..i]), es[i])
      {
        if i > 0 {
          assert Stands(hash, hd, s[size..], RunSize(hd, es[1..][..i - 1]), es[1..][i - 1]);
        }
      }
    }
    if StandInRow(hash, hd, s, es) {
      forall i | 0 <= i < |es| - 1
        ensures Stands(hash, hd, s[size..], RunSize(hd, es[1..][..i]), es[1..][i])
      {
        assert Stands(hash, hd, s, RunSize(hd, es[..i + 1]), es[i + 1]);
      }
    }
  }

  // ----- A record that is not what its checksum says -----

  /** A run of entries, then a header with a wrong checksum and its record, then anything. */
  function RunThenDamage(hash: Hash, hd: WalHeader, es: seq<Entry>, eh: EntryHeader, record: Bytes, rest: Bytes): Bytes
    requires AllFit(hd, es) && hd.CanHold(eh.entryId, eh.recordSize)
  {
    RunBytes(hash, hd, es) + (EncodeEntryHeader(eh, hd).value + (record + rest))
  }

  lemma NextOfDamaged(hash: Hash, hd: WalHeader, eh: EntryHeader, record: Bytes, rest: Bytes)
    requires hd.CanHold(eh.entryId, eh.recordSize) && |record| == eh.recordSize && hash(record) != eh.xxhash
    ensures NextEntry(hash, hd, EncodeEntryHeader(eh, hd).value + (record + rest)) == Damaged(eh.entryId)
  {
    hide DecodeEntryHeader, EncodeEntryHeader, IdWidth;
    var head := EncodeEntryHeader(eh, hd).value;
    EntryHeaderRoundTrip(eh, hd, record + rest);
    SliceRight(head, record + rest, |head|, |head| + |record|);
    SliceWhole(record, rest);
  }

  /** The scan stops right before it. */
  lemma {:induction false} ScanStopsAtDamage(hash: Hash, hd: WalHeader, es: seq<Entry>, eh: EntryHeader, record: Bytes, rest: Bytes)
    requires AllFit(hd, es) && hd.CanHold(eh.entryId, eh.recordSize) && |record| == eh.recordSize && hash(record) != eh.xxhash
    ensures Scan(hash, hd, RunThenDamage(hash, hd, es, eh, record, rest)) == es
    decreases es
  {
    hide NextEntry, EntryBytes, EncodeEntryHeader, IdWidth;
    var s := RunThenDamage(hash, hd, es, eh, record, rest);
    var tail := EncodeEntryHeader(eh, hd).value + (record + rest);
    if es == [] {
      assert s == tail;
      NextOfDamaged(hash, hd, eh, record, rest);
    } else {
      var first, more := EntryBytes(hash, hd, es[0]), RunThenDamage(hash, hd, es[1..], eh, record, rest);
      ConcatAssociates(first, RunBytes(hash, hd, es[1..]), tail);
      assert s == first + more;
      NextOfWhole(hash, hd, es[0], more);
      DropLeft(first, more);
      ScanStopsAtDamage(hash, hd, es[1..], eh, record, rest);
    }
  }
}
