/**
 * Picking up a queue after a restart: walk back from the latest file to the last one that holds
 * an entry, and go on after it.
 */
module Recovery {
  import opened Outcomes
  import opened Bytes
  import opened WalCodec
  import opened WalScan
  import opened WalReader
  import opened Selection
  import opened Disk

  /** Where to write next, with which header, and the last entry that was found. */
  datatype Resume = Resume(fileId: nat, header: WalHeader, lastEntry: Option<nat>) {
    function Next(): nat {
      if lastEntry.Some? then lastEntry.value + 1 else 0
    }
  }

  /** The greatest file id, if there is a file at all. */
  ghost predicate IsLatest(files: Files, latest: Option<nat>) {
    if latest.None? then files == map[]
    else latest.value in files && forall i :: i in files ==> i <= latest.value
  }

  function FileAt(files: Files, id: nat): Option<Bytes> {
    if id in files then Some(files[id]) else None
  }

  /** The id of the last valid entry of a file; an error counts as none. */
  function FileEnd(hash: Hash, files: Files, id: nat): (r: Option<nat>)
    ensures EntriesIn(hash, files, id) == [] ==> r == None
    ensures EntriesIn(hash, files, id) != [] ==>
              r == Some(EntriesIn(hash, files, id)[|EntriesIn(hash, files, id)| - 1].id)
  {
    hide Scan;
    var range := WalRange(hash, FileAt(files, id));
    if range.Ok? && range.value.1.Some? then Some(range.value.1.value.1) else None
  }

  const HEADER_READ_LIMIT: nat := 128

  /** The header of a file as recovery reads it, from its first bytes only. */
  function HeaderAt(files: Files, id: nat): Option<WalHeader> {
    if id !in files then None
    else
      var s := files[id];
      match HeaderFromReader(if |s| <= HEADER_READ_LIMIT then s else s[..HEADER_READ_LIMIT])
      case Ok((hd, _)) => Some(hd)
      case Err(_) => None
  }

  function OrDefault(hd: Option<WalHeader>): WalHeader {
    if hd.Some? then hd.value else DefaultHeader
  }

  function FileHeader(files: Files, id: nat): (hd: WalHeader) {
    OrDefault(HeaderAt(files, id))
  }

  /** A header that is short enough is found, whatever follows it. */
  lemma ShortHeaderFound(files: Files, id: nat, hd: WalHeader, rest: Bytes)
    requires id in files && hd.Storable() && IdWidth(hd.numEntriesBefore) <= 96 && files[id] == HeaderBytes(hd) + rest
    ensures HeaderAt(files, id) == Some(hd)
  {
    hide HeaderBytes, HeaderFromReader, IdWidth;
    var s, head := files[id], HeaderBytes(hd);
    if |s| > HEADER_READ_LIMIT {
      var part := rest[..HEADER_READ_LIMIT - |head|];
      assert s[..HEADER_READ_LIMIT] == head + part;
      HeaderRoundTrip(hd, part);
    } else {
      HeaderRoundTrip(hd, rest);
    }
  }

  /** A longer one is not. */
  lemma LongHeaderMissed(files: Files, id: nat, hd: WalHeader, rest: Bytes)
    requires id in files && hd.Storable() && IdWidth(hd.numEntriesBefore) > 96 && files[id] == HeaderBytes(hd) + rest
    ensures HeaderAt(files, id) == None
  {
    hide HeaderBytes, HeaderFromReader, IdWidth;
    var s, head := files[id], HeaderBytes(hd);
    SliceLeft(head, rest, 0, HEADER_READ_LIMIT);
    assert s[..HEADER_READ_LIMIT] == head[..HEADER_READ_LIMIT];
    HeaderTorn(hd, HEADER_READ_LIMIT);
  }

  /** The greatest file id up to n whose file holds a valid entry; 0 if there is none. */
  function LastWithEntries(hash: Hash, files: Files, n: nat): (j: nat)
    ensures j <= n
    ensures j > 0 ==> EntriesIn(hash, files, j) != []
    ensures forall i :: j < i <= n ==> EntriesIn(hash, files, i) == []
  {
    if n == 0 || EntriesIn(hash, files, n) != [] then n
    else LastWithEntries(hash, files, n - 1)
  }

  /** What recovery decides. */
  function Resumed(hash: Hash, files: Files, latest: Option<nat>): (r: Resume) {
    if latest.None? then Resume(1, DefaultHeader, None)
    else
      var j := LastWithEntries(hash, files, latest.value);
      if j == 0 then Resume(1, DefaultHeader, None)
      else
        var last := FileEnd(hash, files, j).value;
        Resume(if j == latest.value then latest.value + 1 else latest.value,
               FileHeader(files, j).(numEntriesBefore := last + 1),
               Some(last))
  }

  /**
   * When the valid entries of all files are numbered from 0, recovery resumes right after the
   * greatest of them, the file it will truncate holds no valid entry, no later file does either,
   * and without that file the earlier ones still hold everything.
   */
  lemma RecoveryResumes(hash: Hash, files: Files, latest: Option<nat>, all: seq<Entry>)
    requires 0 !in files && IsLatest(files, latest)
    requires all == DiskEntries(hash, files, if latest.Some? then latest.value else 0) && Numbered(all, 0)
    ensures var r := Resumed(hash, files, latest);
            && r.fileId >= 1 && r.Next() == |all| && r.header.numEntriesBefore == |all|
            && EntriesIn(hash, files, r.fileId) == []
            && (forall i :: i > r.fileId ==> EntriesIn(hash, files, i) == [])
            && DiskEntries(hash, files - {r.fileId}, r.fileId - 1) == all
  {
    hide Resumed, ScanFile, DiskEntries, EntriesIn;
    ResumeFileIsFree(hash, files, latest);
    ResumeNumber(hash, files, latest);
    var r := Resumed(hash, files, latest);
    assert forall i :: 1 <= i <= r.fileId - 1 ==> EntriesIn(hash, files - {r.fileId}, i) == EntriesIn(hash, files, i) by {
      OtherFilesStay(hash, files, r.fileId);
    }
    DiskEntriesLocal(hash, files - {r.fileId}, files, r.fileId - 1);
  }

  /**
   * Recovery goes on with the header of the last file that holds an entry, numbered one past the last
   * entry that survived there, so whatever fitted that file fits the next one. It takes a new file if
   * that one is the latest, else the latest again.
   */
  lemma ResumesWithHeader(hash: Hash, files: Files, latest: nat, j: nat, hd: WalHeader, es: seq<Entry>, k: nat)
    requires 1 <= j <= latest && j in files && forall i :: j < i <= latest ==> EntriesIn(hash, files, i) == []
    requires IsCutOf(hash, files[j], hd, es, k) && Survivors(hd, es, k) > 0 && IdWidth(hd.numEntriesBefore) <= 96
    ensures var r, next := Resumed(hash, files, Some(latest)), hd.numEntriesBefore + Survivors(hd, es, k);
            && r == Resume(if j == latest then latest + 1 else latest, hd.(numEntriesBefore := next), Some(next - 1))
            && forall id, size :: hd.CanHold(id, size) ==> r.header.CanHold(id, size)
  {
    hide ScanFile, FileEnd, FileHeader, IdWidth, HeaderBytes, RunBytes, WholeEntries, Fits;
    ScanCutFile(hash, files[j], hd, es, k);
    assert EntriesIn(hash, files, j) != [];
    assert LastWithEntries(hash, files, latest) == j;
    LastIdIs(hash, files, j);
    CutStartsWithHeader(hash, files[j], hd, es, k);
    ShortHeaderFound(files, j, hd, files[j][|HeaderBytes(hd)|..]);
    HeaderIsFound(files, j);
  }

  lemma HeaderIsFound(files: Files, j: nat)
    requires HeaderAt(files, j).Some?
    ensures FileHeader(files, j) == HeaderAt(files, j).value
  {
    hide HeaderAt;
  }

  lemma CutStartsWithHeader(hash: Hash, s: Bytes, hd: WalHeader, es: seq<Entry>, k: nat)
    requires IsCutOf(hash, s, hd, es, k) && Survivors(hd, es, k) > 0
    ensures |HeaderBytes(hd)| <= |s| && s == HeaderBytes(hd) + s[|HeaderBytes(hd)|..]
  {
    hide HeaderBytes, RunBytes, WholeEntries, Fits;
  }

  lemma OtherFilesStay(hash: Hash, files: Files, id: nat)
    ensures forall i :: i != id ==> EntriesIn(hash, files - {id}, i) == EntriesIn(hash, files, i)
  {
    hide ScanFile;
  }

  /** No file from the resumed one on holds an entry. */
  lemma ResumeFileIsFree(hash: Hash, files: Files, latest: Option<nat>)
    requires 0 !in files && IsLatest(files, latest)
    ensures var r := Resumed(hash, files, latest);
            r.fileId >= 1 && forall i :: i >= r.fileId ==> EntriesIn(hash, files, i) == []
  {
    hide FileEnd, FileHeader, ScanFile;
  }

  lemma ResumeNumber(hash: Hash, files: Files, latest: Option<nat>)
    requires 0 !in files && IsLatest(files, latest)
    requires Numbered(DiskEntries(hash, files, if latest.Some? then latest.value else 0), 0)
    ensures var r, all := Resumed(hash, files, latest), DiskEntries(hash, files, if latest.Some? then latest.value else 0);
            && r.fileId >= 1 && r.Next() == |all| && r.header.numEntriesBefore == |all|
            && DiskEntries(hash, files, r.fileId - 1) == all
  {
    hide FileEnd, FileHeader, EntriesIn;
    if latest.Some? {
      var n := latest.value;
      var j := LastWithEntries(hash, files, n);
      DiskEntriesBeyond(hash, files, j, n);
      if j > 0 {
        LastOfAll(hash, files, j);
        DiskEntriesBeyond(hash, files, j, Resumed(hash, files, latest).fileId - 1);
      }
    }
  }

  lemma LastOfAll(hash: Hash, files: Files, j: nat)
    requires j > 0 && EntriesIn(hash, files, j) != []
    ensures var all := DiskEntries(hash, files, j);
            all != [] && FileEnd(hash, files, j) == Some(all[|all| - 1].id)
  {
    hide FileEnd, ScanFile;
    LastIdIs(hash, files, j);
    var es := EntriesIn(hash, files, j);
    assert es[|es| - 1] == DiskEntries(hash, files, j)[|DiskEntries(hash, files, j)| - 1];
  }

  lemma LastIdIs(hash: Hash, files: Files, j: nat)
    requires EntriesIn(hash, files, j) != []
    ensures FileEnd(hash, files, j) == Some(EntriesIn(hash, files, j)[|EntriesIn(hash, files, j)| - 1].id)
  {
  }
}
