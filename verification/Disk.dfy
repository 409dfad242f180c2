/** The WAL files of one queue, by file id, and the entries they hold all together. */
module Disk {
  import opened Outcomes
  import opened Bytes
  import opened WalCodec
  import opened WalScan
  import opened WalReader
  import opened Selection

  type Files = map<nat, Bytes>

  /** The valid entries of one file: none if its header is cut off or unreadable. */
  function ScanFile(hash: Hash, s: Bytes): (es: seq<Entry>) {
    match HeaderFromReader(s)
    case Ok((hd, size)) => Scan(hash, hd, s[size..])
    case Err(_) => []
  }

  function EntriesIn(hash: Hash, files: Files, id: nat): (es: seq<Entry>) {
    if id in files then ScanFile(hash, files[id]) else []
  }

  /** The valid entries of files 1 to n, in order of file id. */
  function DiskEntries(hash: Hash, files: Files, n: nat): (es: seq<Entry>) {
    if n == 0 then [] else DiskEntries(hash, files, n - 1) + EntriesIn(hash, files, n)
  }

  /** Only the files up to n matter for their entries. */
  lemma {:induction false} DiskEntriesLocal(hash: Hash, a: Files, b: Files, n: nat)
    requires forall i :: 1 <= i <= n ==> EntriesIn(hash, a, i) == EntriesIn(hash, b, i)
    ensures DiskEntries(hash, a, n) == DiskEntries(hash, b, n)
  {
    if n > 0 {
      DiskEntriesLocal(hash, a, b, n - 1);
      assert EntriesIn(hash, a, n) == EntriesIn(hash, b, n);
    }
  }

  /** Files without entries add nothing. */
  lemma {:induction false} DiskEntriesBeyond(hash: Hash, files: Files, m: nat, n: nat)
    requires m <= n && forall i :: m < i <= n ==> EntriesIn(hash, files, i) == []
    ensures DiskEntries(hash, files, n) == DiskEntries(hash, files, m)
    decreases n - m
  {
    if m < n {
      DiskEntriesBeyond(hash, files, m, n - 1);
      assert EntriesIn(hash, files, n) == [];
    }
  }

  /** The scan of a file agrees with the range reader: a range exactly when there are entries. */
  lemma WalRangeIsScan(hash: Hash, s: Bytes)
    ensures var r := WalRange(hash, Some(s));
            && (r.Ok? && r.value.1.Some? <==> ScanFile(hash, s) != [])
            && (r.Ok? ==> r.value.1 == RangeOf(ScanFile(hash, s)))
  {
    hide Scan;
  }

  /** A whole file, or any front part of one, as the writer makes them. */
  ghost predicate IsCutOf(hash: Hash, s: Bytes, hd: WalHeader, es: seq<Entry>, k: nat) {
    && hd.Storable() && AllFit(hd, es) && Numbered(es, hd.numEntriesBefore)
    && k <= |HeaderBytes(hd) + RunBytes(hash, hd, es)|
    && s == (HeaderBytes(hd) + RunBytes(hash, hd, es))[..k]
  }

  /** How many entries survive when a file is cut after k bytes. */
  function Survivors(hd: WalHeader, es: seq<Entry>, k: nat): (n: nat)
    requires hd.Storable()
    ensures n <= |es|
  {
    if k < |HeaderBytes(hd)| then 0 else WholeEntries(hd, es, k - |HeaderBytes(hd)|)
  }

  /** Scanning a cut file finds exactly the entries that survive the cut. */
  lemma ScanCutFile(hash: Hash, s: Bytes, hd: WalHeader, es: seq<Entry>, k: nat)
    requires IsCutOf(hash, s, hd, es, k)
    ensures ScanFile(hash, s) == es[..Survivors(hd, es, k)]
  {
    hide HeaderBytes, HeaderFromReader, RunBytes, Scan, WholeEntries, Fits, Numbered;
    var head, run := HeaderBytes(hd), RunBytes(hash, hd, es);
    if k < |head| {
      SliceLeft(head, run, 0, k);
      assert s == head[..k];
      HeaderTorn(hd, k);
    } else {
      var part := run[..k - |head|];
      assert s == head + part;
      HeaderRoundTrip(hd, part);
      DropLeft(head, part);
      ScanPrefix(hash, hd, es, k - |head|);
    }
  }

  /** Scanning a whole file finds all of its entries. */
  lemma ScanWholeFile(hash: Hash, hd: WalHeader, es: seq<Entry>)
    requires hd.Storable() && AllFit(hd, es)
    ensures ScanFile(hash, HeaderBytes(hd) + RunBytes(hash, hd, es)) == es
  {
    hide HeaderBytes, HeaderFromReader, RunBytes, Scan, WholeEntries, Fits;
    var head, run := HeaderBytes(hd), RunBytes(hash, hd, es);
    HeaderRoundTrip(hd, run);
    DropLeft(head, run);
    TakeAll(run);
    ScanPrefix(hash, hd, es, |run|);
    WholeRun(hash, hd, es);
    assert es[..|es|] == es;
  }
}
