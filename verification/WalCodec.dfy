/**
 * The byte format of a write-ahead-log (WAL) file: one file header, then entries. Every entry
 * header in a file gives its id and its record length the widths the file header announces.
 */
module WalCodec {
  import opened Outcomes
  import opened Bytes

  /** A record: its length always fits a machine word. */
  type Data = s: Bytes | |s| < U64_LIMIT witness []

  datatype Entry = Entry(id: nat, data: Data)

  /** The checksum of a record (xxh64 with seed 0 in the system). */
  type Hash = Bytes -> U64

  // ----- File header -----

  const WAL_HEADER_FIXED_SIZE: nat := 24
  const MAX_HEADER_ID_BYTES: nat := 10 * 1024 * 1024

  datatype WalHeader = WalHeader(dataSizeBytes: U64, idSizeBytes: U64, numEntriesBefore: nat) {
    /** The header's id can be written after an eight-byte length and read back by a stream reader. */
    ghost predicate Storable() {
      IdWidth(numEntriesBefore) <= MAX_HEADER_ID_BYTES
    }

    /** The widths suffice for an entry with this id and record length. */
    predicate CanHold(id: nat, dataSize: nat) {
      IdWidth(id) <= idSizeBytes && IdWidth(dataSize) <= dataSizeBytes
    }

    /** Widen the header, never narrow it, so that the given entry fits. */
    function Resize(id: nat, dataSize: nat): (h: WalHeader)
      requires IdWidth(id) < U64_LIMIT && dataSize < U64_LIMIT
      ensures h.CanHold(id, dataSize)
      ensures forall i, d :: CanHold(i, d) ==> h.CanHold(i, d)
      ensures h.numEntriesBefore == numEntriesBefore
      ensures CanHold(id, dataSize) ==> h == this
      ensures h.idSizeBytes == idSizeBytes || h.idSizeBytes == IdWidth(id)
      ensures h.dataSizeBytes == dataSizeBytes || h.dataSizeBytes == IdWidth(dataSize)
    {
      RecordWidth(dataSize);
      WalHeader(
        if dataSizeBytes < IdWidth(dataSize) then IdWidth(dataSize) else dataSizeBytes,
        if idSizeBytes < IdWidth(id) then IdWidth(id) else idSizeBytes,
        numEntriesBefore)
    }
  }

  const DefaultHeader: WalHeader := WalHeader(8, 4, 0)

  /** A new queue's header holds every record, and ids below two to the power 32. */
  lemma DefaultHolds(id: nat, dataSize: nat)
    ensures DefaultHeader.CanHold(id, dataSize) <==> id < 0x1_0000_0000 && dataSize < 0x1_0000_0000_0000_0000
    ensures DefaultHeader.numEntriesBefore == 0
  {
    if id >= U32_LIMIT {
      IdWidthMonotone(U32_LIMIT, id);
    }
    if dataSize >= U64_LIMIT {
      IdWidthMonotone(U64_LIMIT, dataSize);
    }
  }

  datatype HeaderError = HeaderTooShort | HeaderIdTooShort | HeaderVersion(version: U64)

  lemma RecordWidth(dataSize: nat)
    requires dataSize < U64_LIMIT
    ensures IdWidth(dataSize) <= 8
  {
  }

  function HeaderBytes(h: WalHeader): (s: Bytes)
    requires h.Storable()
    ensures |s| == 32 + IdWidth(h.numEntriesBefore)
  {
    var width := IdWidth(h.numEntriesBefore);
    U64Bytes(0) + (U64Bytes(h.dataSizeBytes) + (U64Bytes(h.idSizeBytes)
      + (U64Bytes(width) + LeBytes(h.numEntriesBefore, width))))
  }

  /** A length-prefixed number: the value and how many bytes it took. */
  function ReadPrefixed(s: Bytes): (r: Option<(nat, nat)>)
    ensures r.Some? ==> r.value.1 <= |s|
  {
    if |s| < 8 then None
    else
      var len := ReadU64(s[..8]);
      if |s| < 8 + len then None else Some((LeValue(s[8..8 + len]), 8 + len))
  }

  /** Decode a header from bytes in memory. */
  function HeaderFromBytes(s: Bytes): (r: Result<(WalHeader, nat), HeaderError>)
    ensures r.Ok? ==> r.value.1 <= |s|
  {
    if |s| < WAL_HEADER_FIXED_SIZE then Err(HeaderTooShort)
    else
      var version := ReadU64(s[0..8]);
      if version != 0 then Err(HeaderVersion(version))
      else
        match ReadPrefixed(s[24..])
        case None => Err(HeaderIdTooShort)
        case Some((before, size)) => Ok((WalHeader(ReadU64(s[8..16]), ReadU64(s[16..24]), before), 24 + size))
  }

  /** Decode a header from a stream: every shortage is the same error, and huge ids are refused. */
  function HeaderFromReader(s: Bytes): (r: Result<(WalHeader, nat), HeaderError>)
    ensures r.Ok? ==> r.value.1 <= |s|
  {
    if |s| < WAL_HEADER_FIXED_SIZE then Err(HeaderTooShort)
    else
      var version := ReadU64(s[0..8]);
      if version != 0 then Err(HeaderVersion(version))
      else if |s| < 32 then Err(HeaderTooShort)
      else
        var len := ReadU64(s[24..32]);
        if len > MAX_HEADER_ID_BYTES || |s| < 32 + len then Err(HeaderTooShort)
        else Ok((WalHeader(ReadU64(s[8..16]), ReadU64(s[16..24]), LeValue(s[32..32 + len])), 32 + len))
  }

  /** The parts of a header, cut at their fixed offsets. */
  lemma HeaderFields(h: WalHeader)
    requires h.Storable()
    ensures var s, w := HeaderBytes(h), IdWidth(h.numEntriesBefore);
            && s[0..8] == U64Bytes(0) && s[8..16] == U64Bytes(h.dataSizeBytes)
            && s[16..24] == U64Bytes(h.idSizeBytes) && s[24..32] == U64Bytes(w)
            && s[32..32 + w] == LeBytes(h.numEntriesBefore, w)
  {
    hide U64Bytes, LeBytes, IdWidth;
    var w := IdWidth(h.numEntriesBefore);
    var a, b, c, d := U64Bytes(0), U64Bytes(h.dataSizeBytes), U64Bytes(h.idSizeBytes), U64Bytes(w);
    var e := LeBytes(h.numEntriesBefore, w);
    SliceWhole(a, b + (c + (d + e)));
    SliceRight(a, b + (c + (d + e)), 8, 16);
    SliceWhole(b, c + (d + e));
    SliceRight(a, b + (c + (d + e)), 16, 24);
    SliceRight(b, c + (d + e), 8, 16);
    SliceWhole(c, d + e);
    SliceRight(a, b + (c + (d + e)), 24, 32);
    SliceRight(b, c + (d + e), 16, 24);
    SliceRight(c, d + e, 8, 16);
    SliceWhole(d, e);
    SliceRight(a, b + (c + (d + e)), 32, 32 + w);
    SliceRight(b, c + (d + e), 24, 24 + w);
    SliceRight(c, d + e, 16, 16 + w);
    SliceRight(d, e, 8, 8 + w);
  }

  /** Both decoders give back a written header whatever follows it. */
  lemma HeaderRoundTrip(h: WalHeader, rest: Bytes)
    requires h.Storable()
    ensures HeaderFromBytes(HeaderBytes(h) + rest) == Ok((h, |HeaderBytes(h)|))
    ensures HeaderFromReader(HeaderBytes(h) + rest) == Ok((h, |HeaderBytes(h)|))
  {
    hide HeaderBytes, U64Bytes, ReadU64, LeBytes, LeValue, IdWidth;
    var s, w := HeaderBytes(h) + rest, IdWidth(h.numEntriesBefore);
    HeaderFields(h);
    LeRoundTrip(h.numEntriesBefore, w);
    SliceLeft(HeaderBytes(h), rest, 0, 8);
    SliceLeft(HeaderBytes(h), rest, 8, 16);
    SliceLeft(HeaderBytes(h), rest, 16, 24);
    SliceLeft(HeaderBytes(h), rest, 24, 32);
    SliceLeft(HeaderBytes(h), rest, 32, 32 + w);
    SliceOfTail(s, 24, 0, 8);
    SliceOfTail(s, 24, 8, 8 + w);
  }

  /**
   * A header cut short is refused. The stream decoder always says "too short"; the in-memory one
   * says so only when the fixed part is cut, and otherwise blames the id.
   */
  lemma HeaderTorn(h: WalHeader, k: nat)
    requires h.Storable() && k < |HeaderBytes(h)|
    ensures HeaderFromReader(HeaderBytes(h)[..k]) == Err(HeaderTooShort)
    ensures HeaderFromBytes(HeaderBytes(h)[..k])
         == Err(if k < WAL_HEADER_FIXED_SIZE then HeaderTooShort else HeaderIdTooShort)
  {
    hide HeaderBytes, U64Bytes, ReadU64, LeBytes, LeValue, IdWidth;
    var s, t, w := HeaderBytes(h), HeaderBytes(h)[..k], IdWidth(h.numEntriesBefore);
    HeaderFields(h);
    if k >= 24 {
      assert t[0..8] == s[0..8];
      if k >= 32 {
        assert t[24..32] == s[24..32];
        SliceOfTail(t, 24, 0, 8);
      }
    }
  }

  /** A length-prefixed number is read exactly where its length and its bytes stand. */
  lemma PrefixedExactly(s: Bytes, v: nat, n: nat)
    ensures ReadPrefixed(s) == Some((v, n)) <==>
              && 8 <= n <= |s| && n - 8 < U64_LIMIT && v < Pow256(n - 8) && s[..n] == U64Bytes(n - 8) + LeBytes(v, n - 8)
  {
    hide U64Bytes, ReadU64, LeBytes, LeValue;
    if |s| >= 8 {
      NumberAt(s, 0);
      var len: nat := ReadU64(s[..8]);
      if |s| >= 8 + len {
        LeInverse(s[8..8 + len]);
        LeValueBound(s[8..8 + len]);
        assert s[..8 + len] == s[0..8] + s[8..8 + len];
      }
    }
    if 8 <= n <= |s| && n - 8 < U64_LIMIT && v < Pow256(n - 8) && s[..n] == U64Bytes(n - 8) + LeBytes(v, n - 8) {
      var a, b := U64Bytes(n - 8), LeBytes(v, n - 8);
      SliceOfPrefix(s, n, 0, 8);
      SliceWhole(a, b);
      SliceOfPrefix(s, n, 8, n);
      DropLeft(a, b);
      LeRoundTrip(v, n - 8);
      assert s[..8] == s[0..8];
    }
  }

  /** Eight bytes and the number they stand for. */
  lemma NumberAt(s: Bytes, at: nat)
    requires at + 8 <= |s|
    ensures s[at..at + 8] == U64Bytes(ReadU64(s[at..at + 8]))
  {
    LeInverse(s[at..at + 8]);
  }

  /** A header as bytes, with its number in a given width. */
  function HeaderLayout(h: WalHeader, width: U64): (s: Bytes)
    ensures |s| == 32 + width
  {
    U64Bytes(0) + (U64Bytes(h.dataSizeBytes) + (U64Bytes(h.idSizeBytes) + (U64Bytes(width) + LeBytes(h.numEntriesBefore, width))))
  }

  lemma LayoutSlices(h: WalHeader, width: U64)
    ensures var s := HeaderLayout(h, width);
            && s[0..8] == U64Bytes(0) && s[8..16] == U64Bytes(h.dataSizeBytes) && s[16..24] == U64Bytes(h.idSizeBytes)
            && s[24..32] == U64Bytes(width) && s[32..] == LeBytes(h.numEntriesBefore, width)
  {
    hide U64Bytes, LeBytes;
    var a, b, c, d, e := U64Bytes(0), U64Bytes(h.dataSizeBytes), U64Bytes(h.idSizeBytes), U64Bytes(width), LeBytes(h.numEntriesBefore, width);
    SliceWhole(a, b + (c + (d + e)));
    SliceRight(a, b + (c + (d + e)), 8, 16);
    SliceWhole(b, c + (d + e));
    SliceRight(a, b + (c + (d + e)), 16, 24);
    SliceRight(b, c + (d + e), 8, 16);
    SliceWhole(c, d + e);
    SliceRight(a, b + (c + (d + e)), 24, 32);
    SliceRight(b, c + (d + e), 16, 24);
    SliceRight(c, d + e, 8, 16);
    SliceWhole(d, e);
    DropLeft(a + b + c + d, e);
    assert HeaderLayout(h, width) == (a + b + c + d) + e;
  }

  /** Bytes that start with a header: their parts. */
  lemma LayoutParts(s: Bytes, h: WalHeader, width: U64)
    requires |s| >= 32 + width
    ensures s[..32 + width] == HeaderLayout(h, width) <==>
              && s[0..8] == U64Bytes(0) && s[8..16] == U64Bytes(h.dataSizeBytes) && s[16..24] == U64Bytes(h.idSizeBytes)
              && s[24..32] == U64Bytes(width) && s[32..32 + width] == LeBytes(h.numEntriesBefore, width)
  {
    hide U64Bytes, LeBytes, HeaderLayout;
    var n, t := 32 + width, HeaderLayout(h, width);
    LayoutSlices(h, width);
    SliceOfPrefix(s, n, 0, 8);
    SliceOfPrefix(s, n, 8, 16);
    SliceOfPrefix(s, n, 16, 24);
    SliceOfPrefix(s, n, 24, 32);
    SliceOfPrefix(s, n, 32, n);
    FiveParts(s[..n], t);
  }

  lemma FiveParts(s: Bytes, t: Bytes)
    requires |s| == |t| >= 32
    ensures s == t <==> s[0..8] == t[0..8] && s[8..16] == t[8..16] && s[16..24] == t[16..24] && s[24..32] == t[24..32] && s[32..] == t[32..]
  {
    if s[0..8] == t[0..8] && s[8..16] == t[8..16] && s[16..24] == t[16..24] && s[24..32] == t[24..32] && s[32..] == t[32..] {
      assert s == s[0..8] + s[8..16] + s[16..24] + s[24..32] + s[32..];
      assert t == t[0..8] + t[8..16] + t[16..24] + t[24..32] + t[32..];
    }
  }

  /** A number is read from eight bytes exactly when these are its bytes. */
  lemma NumberIs(s: Bytes, v: U64)
    requires |s| == 8
    ensures ReadU64(s) == v <==> s == U64Bytes(v)
  {
    hide U64Bytes, ReadU64;
    NumberAt(s, 0);
    assert s[0..8] == s;
  }

  /** A number is read from bytes exactly when these are its bytes. */
  lemma ValueIs(s: Bytes, v: nat)
    ensures LeValue(s) == v <==> v < Pow256(|s|) && s == LeBytes(v, |s|)
  {
    LeInverse(s);
    LeValueBound(s);
    if v < Pow256(|s|) {
      LeRoundTrip(v, |s|);
    }
  }

  /**
   * What the in-memory decoder makes of any bytes: a header exactly when they start with one, a foreign
   * version exactly when the first number is not zero.
   */
  lemma HeaderFromBytesExactly(s: Bytes, h: WalHeader, n: nat, version: U64)
    ensures HeaderFromBytes(s) == Ok((h, n)) <==>
              && 32 <= n <= |s| && n - 32 < U64_LIMIT && h.numEntriesBefore < Pow256(n - 32) && s[..n] == HeaderLayout(h, n - 32)
    ensures HeaderFromBytes(s) == Err(HeaderVersion(version)) <==> |s| >= 24 && version != 0 && s[..8] == U64Bytes(version)
    ensures HeaderFromBytes(s) == Err(HeaderTooShort) <==> |s| < 24
  {
    hide U64Bytes, ReadU64, LeBytes, LeValue, ReadPrefixed, HeaderLayout;
    if |s| >= 24 {
      assert s[..8] == s[0..8];
      NumberIs(s[0..8], 0);
      NumberIs(s[0..8], version);
      NumberIs(s[8..16], h.dataSizeBytes);
      NumberIs(s[16..24], h.idSizeBytes);
      if n >= 32 {
        PrefixedExactly(s[24..], h.numEntriesBefore, n - 24);
        if n <= |s| && n - 32 < U64_LIMIT {
          LayoutParts(s, h, n - 32);
          TwoParts(s, n, U64Bytes(n - 32), LeBytes(h.numEntriesBefore, n - 32));
        }
      } else if n >= 24 {
        PrefixedExactly(s[24..], h.numEntriesBefore, n - 24);
      }
    }
  }

  lemma TwoParts(s: Bytes, n: nat, a: Bytes, b: Bytes)
    requires 32 <= n <= |s| && |a| == 8 && |b| == n - 32
    ensures s[24..][..n - 24] == a + b <==> s[24..32] == a && s[32..n] == b
  {
    assert s[24..][..n - 24] == s[24..n];
    CutInTwo(s, 24, n, a, b);
  }

  /** What the stream decoder makes of any bytes: the same, but that huge numbers are refused and every shortage is one error. */
  lemma HeaderFromReaderExactly(s: Bytes, h: WalHeader, n: nat, version: U64)
    ensures HeaderFromReader(s) == Ok((h, n)) <==>
              && 32 <= n <= |s| && n - 32 <= 10_485_760 && h.numEntriesBefore < Pow256(n - 32) && s[..n] == HeaderLayout(h, n - 32)
    ensures HeaderFromReader(s) == Err(HeaderVersion(version)) <==> |s| >= 24 && version != 0 && s[..8] == U64Bytes(version)
    ensures HeaderFromReader(s) != Err(HeaderIdTooShort)
  {
    hide U64Bytes, ReadU64, LeBytes, LeValue, HeaderLayout;
    if |s| >= 24 {
      assert s[..8] == s[0..8];
      NumberIs(s[0..8], 0);
      NumberIs(s[0..8], version);
      NumberIs(s[8..16], h.dataSizeBytes);
      NumberIs(s[16..24], h.idSizeBytes);
      if 32 <= n <= |s| && n - 32 <= MAX_HEADER_ID_BYTES {
        NumberIs(s[24..32], n - 32);
        ValueIs(s[32..n], h.numEntriesBefore);
        LayoutParts(s, h, n - 32);
      }
    }
  }

  // ----- Entries -----

  const WAL_ENTRY_FIXED_OVERHEAD: nat := 16

  datatype EntryHeader = EntryHeader(entryId: nat, recordSize: nat, xxhash: U64)
  datatype EntryError = EntryTooShort | EntryVersion(version: U64)
  datatype EncodeError = ValueTooLarge | InvalidSize

  /** A number in exactly `size` bytes: its own bytes, then zeros. */
  function PaddedValue(v: nat, size: nat): (r: Result<Bytes, EncodeError>)
    ensures r.Ok? <==> IdWidth(v) <= size
    ensures r.Ok? ==> |r.value| == size && LeValue(r.value) == v
  {
    var width := IdWidth(v);
    if width > size then Err(if size in {1, 2, 4, 8, 16} then ValueTooLarge else InvalidSize)
    else
      LeRoundTrip(v, width);
      LeValuePadded(LeBytes(v, width), size - width);
      Ok(LeBytes(v, width) + Zeros(size - width))
  }

  function EntryHeaderSize(hd: WalHeader): nat {
    WAL_ENTRY_FIXED_OVERHEAD + hd.idSizeBytes + hd.dataSizeBytes
  }

  function EncodeEntryHeader(eh: EntryHeader, hd: WalHeader): (r: Result<Bytes, EncodeError>)
    ensures r.Ok? <==> hd.CanHold(eh.entryId, eh.recordSize)
    ensures r.Ok? ==> |r.value| == EntryHeaderSize(hd)
  {
    var id :- PaddedValue(eh.entryId, hd.idSizeBytes);
    var size :- PaddedValue(eh.recordSize, hd.dataSizeBytes);
    Ok(U64Bytes(0) + (id + (size + U64Bytes(eh.xxhash))))
  }

  function DecodeEntryHeader(s: Bytes, hd: WalHeader): (r: Result<EntryHeader, EntryError>)
    ensures r.Ok? ==> EntryHeaderSize(hd) <= |s|
    ensures |s| < EntryHeaderSize(hd) ==> r == Err(EntryTooShort)
  {
    if |s| < EntryHeaderSize(hd) then Err(EntryTooShort)
    else
      var version := ReadU64(s[0..8]);
      if version != 0 then Err(EntryVersion(version))
      else
        var sizeAt := 8 + hd.idSizeBytes;
        var hashAt := sizeAt + hd.dataSizeBytes;
        Ok(EntryHeader(LeValue(s[8..sizeAt]), LeValue(s[sizeAt..hashAt]), ReadU64(s[hashAt..hashAt + 8])))
  }

  /** Decoding an encoded entry header gives it back, whatever bytes follow. */
  lemma EntryHeaderRoundTrip(eh: EntryHeader, hd: WalHeader, rest: Bytes)
    requires hd.CanHold(eh.entryId, eh.recordSize)
    ensures DecodeEntryHeader(EncodeEntryHeader(eh, hd).value + rest, hd) == Ok(eh)
  {
    hide U64Bytes, ReadU64, PaddedValue, LeValue, IdWidth;
    var id := PaddedValue(eh.entryId, hd.idSizeBytes).value;
    var size := PaddedValue(eh.recordSize, hd.dataSizeBytes).value;
    var zero, sum := U64Bytes(0), U64Bytes(eh.xxhash);
    var all := zero + (id + (size + sum));
    var sizeAt := 8 + hd.idSizeBytes;
    var hashAt := sizeAt + hd.dataSizeBytes;
    SliceLeft(all, rest, 0, 8);
    SliceLeft(all, rest, 8, sizeAt);
    SliceLeft(all, rest, sizeAt, hashAt);
    SliceLeft(all, rest, hashAt, hashAt + 8);
    SliceWhole(zero, id + (size + sum));
    SliceRight(zero, id + (size + sum), 8, sizeAt);
    SliceWhole(id, size + sum);
    SliceRight(zero, id + (size + sum), sizeAt, hashAt);
    SliceRight(id, size + sum, |id|, |id| + |size|);
    SliceWhole(size, sum);
    SliceRight(zero, id + (size + sum), hashAt, hashAt + 8);
    SliceRight(id, size + sum, |id| + |size|, |id| + |size| + 8);
    SliceRight(size, sum, |size|, |size| + 8);
    assert sum[0..8] == sum;
  }

  /** An entry header as bytes: every field in its place and width. */
  function EntryLayout(eh: EntryHeader, hd: WalHeader): (s: Bytes)
    ensures |s| == EntryHeaderSize(hd)
  {
    U64Bytes(0) + (LeBytes(eh.entryId, hd.idSizeBytes) + (LeBytes(eh.recordSize, hd.dataSizeBytes) + U64Bytes(eh.xxhash)))
  }

  /** Encoding puts the fields in their places. */
  lemma EncodesLayout(eh: EntryHeader, hd: WalHeader)
    requires hd.CanHold(eh.entryId, eh.recordSize)
    ensures EncodeEntryHeader(eh, hd) == Ok(EntryLayout(eh, hd))
  {
    hide U64Bytes, LeBytes, IdWidth;
    LePadded(eh.entryId, IdWidth(eh.entryId), hd.idSizeBytes);
    LePadded(eh.recordSize, IdWidth(eh.recordSize), hd.dataSizeBytes);
  }

  lemma EntryParts(s: Bytes, eh: EntryHeader, hd: WalHeader)
    requires |s| >= EntryHeaderSize(hd)
    ensures var i := 8 + hd.idSizeBytes;
            var j := i + hd.dataSizeBytes;
            s[..j + 8] == EntryLayout(eh, hd) <==>
              && s[0..8] == U64Bytes(0) && s[8..i] == LeBytes(eh.entryId, hd.idSizeBytes)
              && s[i..j] == LeBytes(eh.recordSize, hd.dataSizeBytes) && s[j..j + 8] == U64Bytes(eh.xxhash)
  {
    hide U64Bytes, LeBytes;
    var i := 8 + hd.idSizeBytes;
    var j := i + hd.dataSizeBytes;
    FourParts(s, i, j, U64Bytes(0), LeBytes(eh.entryId, hd.idSizeBytes), LeBytes(eh.recordSize, hd.dataSizeBytes), U64Bytes(eh.xxhash));
  }

  lemma FourParts(s: Bytes, i: nat, j: nat, a: Bytes, b: Bytes, c: Bytes, d: Bytes)
    requires 8 <= i <= j && j + 8 <= |s| && |a| == 8 && |b| == i - 8 && |c| == j - i && |d| == 8
    ensures s[..j + 8] == a + (b + (c + d)) <==> s[0..8] == a && s[8..i] == b && s[i..j] == c && s[j..j + 8] == d
  {
    CutInTwo(s, 0, j + 8, a, b + (c + d));
    CutInTwo(s, 8, j + 8, b, c + d);
    CutInTwo(s, i, j + 8, c, d);
  }

  /** A stretch is two parts one after the other exactly when each part is in its place. */
  lemma CutInTwo(s: Bytes, i: nat, n: nat, a: Bytes, b: Bytes)
    requires i + |a| + |b| == n <= |s|
    ensures s[i..n] == a + b <==> s[i..i + |a|] == a && s[i + |a|..n] == b
  {
    var t := s[i..n];
    assert t[..|a|] == s[i..i + |a|] && t[|a|..] == s[i + |a|..n] && t == t[..|a|] + t[|a|..];
    if t == a + b {
      assert t[..|a|] == a && t[|a|..] == b;
    }
  }

  /** What the decoder makes of any bytes: an entry header exactly when they start with one; too short and foreign versions are told apart. */
  lemma DecodesExactly(s: Bytes, hd: WalHeader, eh: EntryHeader, version: U64)
    ensures DecodeEntryHeader(s, hd) == Ok(eh) <==>
              && |s| >= EntryHeaderSize(hd) && s[..EntryHeaderSize(hd)] == EntryLayout(eh, hd)
              && eh.entryId < Pow256(hd.idSizeBytes) && eh.recordSize < Pow256(hd.dataSizeBytes)
    ensures DecodeEntryHeader(s, hd) == Err(EntryVersion(version)) <==> |s| >= EntryHeaderSize(hd) && version != 0 && s[..8] == U64Bytes(version)
    ensures DecodeEntryHeader(s, hd) == Err(EntryTooShort) <==> |s| < EntryHeaderSize(hd)
  {
    hide U64Bytes, ReadU64, LeBytes, LeValue, EntryLayout;
    if |s| >= EntryHeaderSize(hd) {
      var i := 8 + hd.idSizeBytes;
      var j := i + hd.dataSizeBytes;
      assert s[..8] == s[0..8];
      NumberIs(s[0..8], 0);
      NumberIs(s[0..8], version);
      ValueIs(s[8..i], eh.entryId);
      ValueIs(s[i..j], eh.recordSize);
      NumberIs(s[j..j + 8], eh.xxhash);
      EntryParts(s, eh, hd);
    }
  }

  predicate Fits(hd: WalHeader, e: Entry) {
    hd.CanHold(e.id, |e.data|)
  }

  function HeaderOf(hash: Hash, e: Entry): EntryHeader {
    EntryHeader(e.id, |e.data|, hash(e.data))
  }

  /** An entry as it lies in a file: its header, then its record. */
  function EntryBytes(hash: Hash, hd: WalHeader, e: Entry): (s: Bytes)
    requires Fits(hd, e)
    ensures |s| == EntryHeaderSize(hd) + |e.data|
  {
    EncodeEntryHeader(HeaderOf(hash, e), hd).value + e.data
  }

  predicate AllFit(hd: WalHeader, es: seq<Entry>) {
    forall i :: 0 <= i < |es| ==> Fits(hd, es[i])
  }

  /** Entries one after another. */
  function RunBytes(hash: Hash, hd: WalHeader, es: seq<Entry>): (s: Bytes)
    requires AllFit(hd, es)
  {
    if es == [] then [] else EntryBytes(hash, hd, es[0]) + RunBytes(hash, hd, es[1..])
  }

  lemma {:induction false} RunBytesConcat(hash: Hash, hd: WalHeader, xs: seq<Entry>, ys: seq<Entry>)
    requires AllFit(hd, xs) && AllFit(hd, ys)
    ensures AllFit(hd, xs + ys)
    ensures RunBytes(hash, hd, xs + ys) == RunBytes(hash, hd, xs) + RunBytes(hash, hd, ys)
  {
    hide EntryBytes;
    if xs == [] {
      assert xs + ys == ys;
    } else {
      RunBytesConcat(hash, hd, xs[1..], ys);
      assert (xs + ys)[1..] == xs[1..] + ys && (xs + ys)[0] == xs[0];
      var first, more, tail := EntryBytes(hash, hd, xs[0]), RunBytes(hash, hd, xs[1..]), RunBytes(hash, hd, ys);
      assert first + (more + tail) == (first + more) + tail;
    }
  }

  /** A run of at least one entry has bytes, and a run of none has not. */
  lemma RunBytesEmpty(hash: Hash, hd: WalHeader, es: seq<Entry>)
    requires AllFit(hd, es)
    ensures RunBytes(hash, hd, es) == [] <==> es == []
  {
  }
}
