/**
 * What a limited read returns when files and memory together hold a gapless run of entries: files
 * one after the other, some of them cut off by a crash, then a tail of the run in memory, which may
 * overlap the files.
 */
module DenseRead {
  import opened Outcomes
  import opened Bytes
  import opened WalCodec
  import opened Selection
  import opened WalScan
  import opened WalReader
  import opened MemQueues
  import opened ReaderFsm
  import Lookup

  /** One file: its header, its whole entries, and whether the header of a further, cut off entry follows. */
  datatype Stored = Stored(header: WalHeader, entries: seq<Entry>, torn: bool) {
    /** How many entry headers a reader sees. */
    function Seen(): nat {
      |entries| + if torn then 1 else 0
    }
  }

  /** The files, from the first file id on, and all entries of files and memory, from the first id on. */
  datatype Shape = Shape(first: nat, files: seq<Stored>, base: nat, all: seq<Entry>) {
    /** How many entries the first i files hold. */
    function Offset(i: nat): nat
      requires i <= |files|
    {
      |Flat(files[..i])|
    }

    function Last(): nat
      requires files != []
    {
      first + |files| - 1
    }

    /** One past the last id in files. */
    function FileEnd(): nat {
      base + |Flat(files)|
    }

    /** Some entry header shows in the first i files. */
    ghost predicate SawAny(i: nat)
      requires i <= |files|
    {
      exists j :: 0 <= j < i && files[j].Seen() > 0
    }

    /** File i is cut off right in the entry with this id, after its header. */
    predicate TornEndAt(i: nat, id: nat)
      requires i < |files|
    {
      files[i].torn && base + Offset(i + 1) == id
    }

    ghost predicate NoTornFrom(f: nat, id: nat) {
      forall i :: f <= i < |files| ==> !TornEndAt(i, id)
    }

    /** The first file, from f on, that is cut off in the entry with this id. */
    ghost function FirstTorn(f: nat, id: nat): (i: nat)
      requires !NoTornFrom(f, id)
      ensures f <= i < |files| && TornEndAt(i, id)
      ensures forall k :: f <= k < i ==> !TornEndAt(k, id)
      decreases |files| - f
    {
      if f < |files| && TornEndAt(f, id) then f else FirstTorn(f + 1, id)
    }
  }

  function Flat(files: seq<Stored>): seq<Entry> {
    if files == [] then [] else Flat(files[..|files| - 1]) + files[|files| - 1].entries
  }

  /** The file's bytes are a header and the first k bytes of its entries and the one that was cut off. */
  ghost predicate IsCut(env: Env, id: nat, file: Stored, first: nat, more: seq<Entry>, k: nat) {
    var hd, es := file.header, file.entries + more;
    && hd.Storable() && AllFit(hd, es) && Numbered(es, first)
    && k <= |RunBytes(env.hash, hd, es)|
    && WholeEntries(hd, es, k) == |file.entries| && HeadersSeen(hd, es, k) == file.Seen()
    && Fetch(env, id) == Ok(Some(HeaderBytes(hd) + RunBytes(env.hash, hd, es)[..k]))
  }

  ghost predicate IsFile(env: Env, id: nat, file: Stored, first: nat) {
    exists more, k :: IsCut(env, id, file, first, more, k)
  }

  ghost predicate FilesDense(env: Env, sh: Shape) {
    && sh.files != []
    && (forall i :: 0 <= i < |sh.files| ==> IsFile(env, sh.first + i, sh.files[i], sh.base + sh.Offset(i)))
    && NothingAfter(env, sh.Last())
    && |Flat(sh.files)| <= |sh.all| && Flat(sh.files) == sh.all[..|Flat(sh.files)|]
    && Numbered(sh.all, sh.base)
  }

  ghost predicate MemDense(m: Mem, sh: Shape) {
    && m.Valid() && m.NextId() == sh.base + |sh.all|
    && sh.base <= m.Oldest() <= sh.FileEnd()
    && m.entries == sh.all[m.Oldest() - sh.base..]
  }

  // ----- Files and the run -----

  lemma {:induction false} FlatSplit(files: seq<Stored>, i: nat)
    requires i <= |files|
    ensures |Flat(files[..i])| <= |Flat(files)| && Flat(files[..i]) == Flat(files)[..|Flat(files[..i])|]
    decreases |files|
  {
    if i == |files| {
      assert files[..i] == files;
    } else {
      var front := files[..|files| - 1];
      FlatSplit(front, i);
      assert files[..i] == front[..i];
    }
  }

  /** File i holds the entries between two offsets of the run. */
  lemma FilePart(env: Env, sh: Shape, i: nat)
    requires FilesDense(env, sh) && i < |sh.files|
    ensures sh.Offset(i) <= sh.Offset(i + 1) <= |Flat(sh.files)| <= |sh.all|
    ensures sh.files[i].entries == sh.all[sh.Offset(i)..sh.Offset(i + 1)]
    ensures Numbered(sh.files[i].entries, sh.base + sh.Offset(i))
    ensures i + 1 == |sh.files| ==> sh.Offset(i + 1) == |Flat(sh.files)|
  {
    hide IsFile, NothingAfter;
    var upTo := sh.files[..i + 1];
    assert upTo[..i] == sh.files[..i] && upTo[i] == sh.files[i];
    assert Flat(upTo) == Flat(sh.files[..i]) + sh.files[i].entries;
    FlatSplit(sh.files, i + 1);
    assert i + 1 == |sh.files| ==> upTo == sh.files;
    var m, n := sh.Offset(i), sh.Offset(i + 1);
    assert Flat(upTo) == sh.all[..n];
    assert sh.files[i].entries == Flat(upTo)[m..];
  }

  // ----- Stepping on -----

  /** Beyond a wanted id, counting from it or from where the count began comes to the same. */
  lemma SameStep(id: nat, next: nat, last: nat, step: Count, hit: nat)
    requires next <= hit < id && (hit - next) % step == 0
    ensures Wanted(id, next, Some(last), step) <==> Wanted(id, hit + step, Some(last), step)
  {
    if id < hit + step {
      var k := (hit - next) / step;
      BetweenMultiples(id - next, k, step);
    } else {
      ModAfter(id - (hit + step), hit - next, step);
      AddStep(id - (hit + step) + (hit - next), step);
    }
  }

  lemma ModAfter(a: nat, b: nat, step: Count)
    requires b % step == 0
    ensures (a + b) % step == a % step
  {
    var q, k := a / step, b / step;
    assert a + b == (q + k) * step + a % step;
    DivideUnique(a + b, step, q + k, a % step);
  }

  lemma {:induction false} SelectedOnwards(es: seq<Entry>, next: nat, last: nat, step: Count, hit: nat)
    requires next <= hit && (hit - next) % step == 0 && forall i :: 0 <= i < |es| ==> hit < es[i].id
    ensures Selected(es, next, Some(last), step) == Selected(es, hit + step, Some(last), step)
  {
    if es != [] {
      SameStep(es[0].id, next, last, step, hit);
      SelectedOnwards(es[1..], next, last, step, hit);
    }
  }

  /** The last of the selected entries of a numbered run: no wanted id follows it in the run. */
  lemma {:induction false} LastSelected(es: seq<Entry>, first: nat, next: nat, until: Option<nat>, step: Count)
    requires Numbered(es, first)
    ensures var sel := Selected(es, next, until, step);
            && (sel == [] ==> forall id :: first <= id < first + |es| ==> !Wanted(id, next, until, step))
            && (sel != [] ==>
                  var hit := sel[|sel| - 1].id;
                  && first <= hit < first + |es| && Wanted(hit, next, until, step)
                  && forall id :: hit < id < first + |es| ==> !Wanted(id, next, until, step))
    decreases |es|
  {
    if es != [] {
      var front := es[..|es| - 1];
      SelectedSnoc(es, |es| - 1, next, until, step);
      assert es[..|es| - 1 + 1] == es;
      LastSelected(front, first, next, until, step);
    }
  }

  // ----- One file -----

  /** What the reader knows when it comes to file i: nothing before it is wanted any more. */
  ghost predicate OnTrack(sh: Shape, i: nat, next: nat, last: nat, step: Count)
    requires i <= |sh.files|
  {
    && sh.Offset(i) <= |sh.all|
    && next <= last && (last - next) % step == 0
    && Selected(sh.all[..sh.Offset(i)], next, Some(last), step) == []
    && (sh.base <= next ==> sh.base + sh.Offset(i) <= next)
    && (next < sh.base && sh.SawAny(i) ==> sh.base + sh.Offset(i) <= last)
  }

  /** The run falls into what is before file i, in it, and after it. */
  lemma SelectedInThree(all: seq<Entry>, m: nat, n: nat, next: nat, until: Option<nat>, step: Count)
    requires m <= n <= |all|
    ensures Selected(all, next, until, step)
         == Selected(all[..m], next, until, step) + Selected(all[m..n], next, until, step) + Selected(all[n..], next, until, step)
    ensures Selected(all[..n], next, until, step) == Selected(all[..m], next, until, step) + Selected(all[m..n], next, until, step)
  {
    SelectedSplit(all, n, next, until, step);
    SelectedSplit(all[..n], m, next, until, step);
    assert all[..n][..m] == all[..m] && all[..n][m..] == all[m..n];
  }

  /** A reader of file i sees an entry header whose id reaches the end of the range. */
  predicate SeesEnd(sh: Shape, i: nat, last: nat)
    requires i < |sh.files|
  {
    sh.files[i].Seen() > 0 && sh.base + sh.Offset(i) + sh.files[i].Seen() - 1 >= last
  }

  /** A file that shows the end of the range completes the read with the right entries. */
  lemma CompleteHere(env: Env, sh: Shape, i: nat, next: nat, last: nat, step: Count)
    requires FilesDense(env, sh) && i < |sh.files| && OnTrack(sh, i, next, last, step)
    requires SeesEnd(sh, i, last) && !sh.TornEndAt(i, last)
    ensures Selected(sh.all, next, Some(last), step) == Selected(sh.files[i].entries, next, Some(last), step)
    ensures last < sh.FileEnd() && sh.SawAny(|sh.files|)
  {
    hide IsFile, NothingAfter, Selected, Flat;
    FilePart(env, sh, i);
    var m, n := sh.Offset(i), sh.Offset(i + 1);
    assert last < sh.base + n;
    SelectedInThree(sh.all, m, n, next, Some(last), step);
    RunNumbered(env, sh);
    SelectedNone(sh.all[n..], next, Some(last), step);
  }

  /** The id to look for after a file. */
  function NextAfter(es: seq<Entry>, next: nat, last: nat, step: Count): nat {
    var sel := Selected(es, next, Some(last), step);
    if sel == [] then next else sel[|sel| - 1].id + step
  }

  /** Otherwise the reader is on track for the next file, and what it sends next continues what it sent. */
  lemma StaysOnTrack(env: Env, sh: Shape, i: nat, next: nat, last: nat, step: Count)
    requires FilesDense(env, sh) && i < |sh.files| && OnTrack(sh, i, next, last, step) && !SeesEnd(sh, i, last)
    ensures var es := sh.files[i].entries;
            var sel, next' := Selected(es, next, Some(last), step), NextAfter(es, next, last, step);
            && OnTrack(sh, i + 1, next', last, step)
            && Selected(sh.all, next, Some(last), step) == sel + Selected(sh.all, next', Some(last), step)
            && (sel != [] ==> sh.base <= next' && Selected(sh.all[..sh.Offset(i + 1)], next, Some(last), step) != [])
  {
    hide IsFile, NothingAfter, Selected, FilesDense;
    FilePart(env, sh, i);
    var es, m, n := sh.files[i].entries, sh.Offset(i), sh.Offset(i + 1);
    var sel := Selected(es, next, Some(last), step);
    SelectedInThree(sh.all, m, n, next, Some(last), step);
    LastSelected(es, sh.base + m, next, Some(last), step);
    assert Numbered(sh.all, sh.base) by { RunNumbered(env, sh); }
    assert Wanted(next, next, Some(last), step);
    assert sh.SawAny(i + 1) ==> sh.SawAny(i) || sh.files[i].Seen() > 0;
    if sel != [] {
      HitMovesOn(sh, i, next, last, step, sel[|sel| - 1].id);
    }
  }

  lemma RunNumbered(env: Env, sh: Shape)
    requires FilesDense(env, sh)
    ensures Numbered(sh.all, sh.base)
  {
  }

  lemma HitMovesOn(sh: Shape, i: nat, next: nat, last: nat, step: Count, hit: nat)
    requires i < |sh.files| && sh.Offset(i) <= sh.Offset(i + 1) <= |sh.all| && Numbered(sh.all, sh.base)
    requires next <= last && (last - next) % step == 0
    requires var m, n := sh.Offset(i), sh.Offset(i + 1);
             && sh.base + m <= hit < sh.base + n && sh.base + n - 1 < last && Wanted(hit, next, Some(last), step)
             && forall id :: hit < id < sh.base + n ==> !Wanted(id, next, Some(last), step)
    ensures OnTrack(sh, i + 1, hit + step, last, step)
    ensures Selected(sh.all[sh.Offset(i + 1)..], next, Some(last), step) == Selected(sh.all, hit + step, Some(last), step)
  {
    hide Selected;
    hide Flat, Wanted;
    var n, all := sh.Offset(i + 1), sh.all;
    assert next <= hit && (hit - next) % step == 0 by { WantedIs(hit, next, last, step); }
    MoreToCome(next, hit, last, step);
    PastTheFile(next, hit, last, step, sh.base + n);
    BelowIsNotWanted(all[..n], hit + step, last, step);
    SelectedOnwards(all[n..], next, last, step, hit);
    SelectedSplit(all, n, hit + step, Some(last), step);
  }

  lemma WantedIs(id: nat, next: nat, last: nat, step: Count)
    requires Wanted(id, next, Some(last), step)
    ensures next <= id <= last && (id - next) % step == 0
  {
  }

  lemma BelowIsNotWanted(es: seq<Entry>, next: nat, last: nat, step: Count)
    requires forall i :: 0 <= i < |es| ==> es[i].id < next
    ensures Selected(es, next, Some(last), step) == []
  {
    SelectedNone(es, next, Some(last), step);
  }

  /** After the last wanted id of a file, the next one in step lies past the file. */
  lemma PastTheFile(next: nat, hit: nat, last: nat, step: Count, end: nat)
    requires next <= hit && (hit - next) % step == 0 && hit + step <= last
    requires forall id :: hit < id < end ==> !Wanted(id, next, Some(last), step)
    ensures end <= hit + step
  {
    SameStep(hit + step, next, last, step, hit);
    assert Wanted(hit + step, next, Some(last), step);
  }

  /** Between two ids in step there is room for a whole step. */
  lemma MoreToCome(next: nat, hit: nat, last: nat, step: Count)
    requires next <= hit < last && (hit - next) % step == 0 && (last - next) % step == 0
    ensures hit + step <= last && (last - (hit + step)) % step == 0
  {
    var a, b := (hit - next) / step, (last - next) / step;
    assert hit - next == a * step && last - next == b * step;
    StepsApart(b, a, step);
    StepsApart(a, b, step);
    assert last - hit == (b - a) * step;
    assert a < b;
    MultipleOf(b - a - 1, step);
    assert (b - a - 1) * step == last - (hit + step);
  }

  // ----- Memory -----

  /** Memory ends a read exactly when it reaches back to the next id, and then sends what is left. */
  lemma MemoryAnswers(env: Env, sh: Shape, next: nat, last: nat, step: Count)
    requires FilesDense(env, sh) && MemDense(env.mem, sh)
    ensures var a := AfterFile(env, next, last, step);
            && (a.Some? <==> env.mem.Oldest() <= next)
            && (a.Some? ==> a.value == Selected(sh.all, next, Some(last), step))
    ensures var r := ReadFull(env.mem, next, last, step);
            && (r.success <==> env.mem.Oldest() <= next)
            && (r.success ==> r.sent == Selected(sh.all, next, Some(last), step))
    ensures sh.base <= env.mem.Oldest() <= sh.FileEnd()
  {
    hide FilesDense, Selected, Flat, Wanted, Numbered;
    RunNumbered(env, sh);
    FlatIsFront(env, sh);
    var m, k := env.mem, env.mem.Oldest() - sh.base;
    SelectedSplit(sh.all, k, next, Some(last), step);
    if next >= m.NextId() {
      RunIsBelow(sh.all, sh.base, next, last, step);
    } else if next >= m.Oldest() {
      FrontNumbered(sh.all, sh.base, k);
      RunIsBelow(sh.all[..k], sh.base, next, last, step);
    }
  }

  lemma FrontNumbered(es: seq<Entry>, first: nat, k: nat)
    requires Numbered(es, first) && k <= |es|
    ensures Numbered(es[..k], first)
  {
  }

  lemma RunIsBelow(es: seq<Entry>, first: nat, next: nat, last: nat, step: Count)
    requires Numbered(es, first) && first + |es| <= next
    ensures Selected(es, next, Some(last), step) == []
  {
    BelowIsNotWanted(es, next, last, step);
  }

  // ----- The walk -----

  /** The read comes to an end: it starts within the run, or something in the files is sent, or the range ends in the files. */
  ghost predicate Finishes(sh: Shape, next: nat, last: nat, step: Count) {
    || sh.base <= next
    || Selected(Flat(sh.files), next, Some(last), step) != []
    || (sh.SawAny(|sh.files|) && last < sh.FileEnd())
  }

  ghost predicate WalkIs(env: Env, sh: Shape, o: Outcome, next: nat, last: nat, step: Count) {
    o == if Finishes(sh, next, last, step) then Done(Selected(sh.all, next, Some(last), step)) else Never([])
  }

  /** The walk from a file on, going on after it as given. */
  lemma OneFile(env: Env, sh: Shape, i: nat, next: nat, last: nat, step: Count)
    requires FilesDense(env, sh) && i < |sh.files| && OnTrack(sh, i, next, last, step)
    ensures var es := sh.files[i].entries;
            FromFile(env, sh.Last(), sh.first + i, next, last, step)
            == if SeesEnd(sh, i, last) then Done(Selected(es, next, Some(last), step))
               else Prepend(Selected(es, next, Some(last), step),
                            FromNext(env, sh.Last(), sh.first + i, NextAfter(es, next, last, step), last, step))
  {
    hide Selected, BytesRange, RunBytes, HeaderBytes, OnTrack, FromNext, NothingAfter, Flat, WholeEntries, HeadersSeen, Fits;
    var file, first := sh.files[i], sh.base + sh.Offset(i);
    assert IsFile(env, sh.first + i, file, first);
    var more, k :| IsCut(env, sh.first + i, file, first, more, k);
    CutRange(env.hash, file.header, file.entries, more, first, k, next, last, step);
  }

  /** The range reader on a file that may be cut off. */
  lemma CutRange(hash: Hash, hd: WalHeader, es: seq<Entry>, more: seq<Entry>, first: nat, k: nat, from: nat, last: nat, step: Count)
    requires hd.Storable() && AllFit(hd, es + more) && Numbered(es + more, first) && k <= |RunBytes(hash, hd, es + more)|
    requires WholeEntries(hd, es + more, k) == |es|
    ensures var r := BytesRange(hash, HeaderBytes(hd) + RunBytes(hash, hd, es + more)[..k], from, Some(last), step);
            var sel, seen := Selected(es, from, Some(last), step), HeadersSeen(hd, es + more, k);
            && r.sent == sel && r.result.Ok?
            && (r.result.value.Complete? <==> seen > 0 && first + seen - 1 >= last)
            && (r.result.value.PartialRead? ==> r.result.value.lastReadId == if sel == [] then None else Some(sel[|sel| - 1].id))
  {
    hide HeaderBytes, HeaderFromBytes, WalkRange, RunBytes, Selected, WholeEntries, HeadersSeen, IdWidth, Fits, Numbered;
    var part := RunBytes(hash, hd, es + more)[..k];
    HeaderRoundTrip(hd, part);
    DropLeft(HeaderBytes(hd), part);
    WalkPrefix(hash, hd, es + more, first, k, from, Some(last), step);
    assert (es + more)[..|es|] == es;
  }

  /** From a file on, with no file cut off in the last entry asked for. */
  lemma {:induction false} WalkFiles(env: Env, sh: Shape, i: nat, next: nat, last: nat, step: Count)
    requires FilesDense(env, sh) && MemDense(env.mem, sh) && i < |sh.files| && OnTrack(sh, i, next, last, step)
    requires sh.NoTornFrom(i, last)
    ensures WalkIs(env, sh, FromFile(env, sh.Last(), sh.first + i, next, last, step), next, last, step)
    decreases |sh.files| - i
  {
    hide Selected, OnTrack, FilesDense, MemDense, FromFile, FromNext, NextAfter, Flat;
    OneFile(env, sh, i, next, last, step);
    var es := sh.files[i].entries;
    if SeesEnd(sh, i, last) {
      CompleteHere(env, sh, i, next, last, step);
    } else {
      StaysOnTrack(env, sh, i, next, last, step);
      var sel, next' := Selected(es, next, Some(last), step), NextAfter(es, next, last, step);
      if i + 1 < |sh.files| {
        WalkFiles(env, sh, i + 1, next', last, step);
      }
      AfterOneFile(env, sh, i, next', last, step);
      if sel == [] {
        NothingSent(es, next, last, step);
        PrependNothing(FromNext(env, sh.Last(), sh.first + i, next', last, step));
      } else {
        FilePart(env, sh, i);
        SentInFiles(env, sh, i, next, last, step);
      }
    }
  }

  // ----- The walk to a file that is cut off in the last entry asked for -----

  /** The id looked for on coming to file i, from file j on. */
  function NextAt(sh: Shape, j: nat, i: nat, next: nat, last: nat, step: Count): nat
    requires j <= i <= |sh.files|
    decreases i - j
  {
    if j == i then next else NextAt(sh, j + 1, i, NextAfter(sh.files[j].entries, next, last, step), last, step)
  }

  lemma {:induction false} NextGrows(env: Env, sh: Shape, j: nat, i: nat, next: nat, last: nat, step: Count)
    requires FilesDense(env, sh) && j <= i <= |sh.files|
    ensures next <= NextAt(sh, j, i, next, last, step)
    decreases i - j
  {
    hide FilesDense, Selected;
    if j < i {
      FilePart(env, sh, j);
      LastSelected(sh.files[j].entries, sh.base + sh.Offset(j), next, Some(last), step);
      NextGrows(env, sh, j + 1, i, NextAfter(sh.files[j].entries, next, last, step), last, step);
    }
  }

  /** Memory takes over after a file before the one that is cut off. */
  predicate TakesOver(sh: Shape, m: Mem, j: nat, i: nat, next: nat, last: nat, step: Count)
    requires j <= i <= |sh.files|
  {
    j < i && m.Oldest() <= NextAt(sh, j, i, next, last, step)
  }

  /** What is wanted of the run before the last id. */
  function Short(sh: Shape, next: nat, last: nat, step: Count): seq<Entry> {
    Selected(if sh.base <= last <= sh.base + |sh.all| then sh.all[..last - sh.base] else sh.all, next, Some(last), step)
  }

  lemma FilesBeforeTorn(env: Env, sh: Shape, j: nat, i: nat, last: nat)
    requires FilesDense(env, sh) && j < i < |sh.files| && sh.TornEndAt(i, last) && !sh.TornEndAt(j, last)
    ensures !SeesEnd(sh, j, last)
  {
    hide FilesDense, Flat;
    FilePart(env, sh, j);
    OffsetsGrow(env, sh, j + 1, i + 1);
  }

  lemma TornInRun(env: Env, sh: Shape, i: nat, last: nat)
    requires FilesDense(env, sh) && i < |sh.files| && sh.TornEndAt(i, last)
    ensures sh.base <= last <= sh.base + |sh.all|
  {
    hide FilesDense, Flat;
    FilePart(env, sh, i);
  }

  /** The walk ends at the file that is cut off, without the entry it is cut off in, unless memory takes over before. */
  lemma {:induction false} WalkToTorn(env: Env, sh: Shape, j: nat, i: nat, next: nat, last: nat, step: Count)
    requires FilesDense(env, sh) && MemDense(env.mem, sh) && j <= i < |sh.files| && OnTrack(sh, j, next, last, step)
    requires sh.TornEndAt(i, last) && forall k :: j <= k < i ==> !sh.TornEndAt(k, last)
    ensures sh.base <= last <= sh.base + |sh.all|
    ensures FromFile(env, sh.Last(), sh.first + j, next, last, step)
         == Done(if TakesOver(sh, env.mem, j, i, next, last, step) then Selected(sh.all, next, Some(last), step)
                 else Short(sh, next, last, step))
    decreases i - j
  {
    hide Selected, OnTrack, FilesDense, MemDense, FromFile, NextAfter, Flat, SeesEnd, AfterFile, NextAt, Short;
    TornInRun(env, sh, i, last);
    OneFile(env, sh, j, next, last, step);
    if j == i {
      TornEnd(env, sh, i, next, last, step);
    } else {
      FilesBeforeTorn(env, sh, j, i, last);
      StaysOnTrack(env, sh, j, next, last, step);
      var next' := NextAfter(sh.files[j].entries, next, last, step);
      ShortGoesOn(env, sh, j, next, last, step);
      MemoryAnswers(env, sh, next', last, step);
      NextGrows(env, sh, j + 1, i, next', last, step);
      OneNext(sh, j, i, next, last, step);
      if env.mem.Oldest() > next' {
        WalkToTorn(env, sh, j + 1, i, next', last, step);
        if j + 1 == i {
          NoNext(sh, i, next', last, step);
        }
      }
    }
  }

  lemma OneNext(sh: Shape, j: nat, i: nat, next: nat, last: nat, step: Count)
    requires j < i <= |sh.files|
    ensures NextAt(sh, j, i, next, last, step)
         == NextAt(sh, j + 1, i, NextAfter(sh.files[j].entries, next, last, step), last, step)
  {
  }

  lemma NoNext(sh: Shape, i: nat, next: nat, last: nat, step: Count)
    requires i <= |sh.files|
    ensures NextAt(sh, i, i, next, last, step) == next
  {
  }

  /** What a short read sends also goes on from file to file. */
  lemma ShortGoesOn(env: Env, sh: Shape, j: nat, next: nat, last: nat, step: Count)
    requires FilesDense(env, sh) && j < |sh.files| && OnTrack(sh, j, next, last, step) && !SeesEnd(sh, j, last)
    requires sh.base <= last <= sh.base + |sh.all|
    ensures var es := sh.files[j].entries;
            Short(sh, next, last, step)
            == Selected(es, next, Some(last), step) + Short(sh, NextAfter(es, next, last, step), last, step)
  {
    hide Selected, FilesDense, NextAfter, Flat, SeesEnd;
    StaysOnTrack(env, sh, j, next, last, step);
    var es := sh.files[j].entries;
    var next', n := NextAfter(es, next, last, step), last - sh.base;
    RunNumbered(env, sh);
    SelectedSplit(sh.all, n, next, Some(last), step);
    SelectedSplit(sh.all, n, next', Some(last), step);
    OnlyTheLast(sh.all, sh.base, n, next, last, step);
    OnlyTheLast(sh.all, sh.base, n, next', last, step);
    CancelEnd(Short(sh, next, last, step), Selected(es, next, Some(last), step) + Short(sh, next', last, step),
              if n < |sh.all| then [sh.all[n]] else []);
    ConcatThree(Selected(es, next, Some(last), step), Short(sh, next', last, step), if n < |sh.all| then [sh.all[n]] else []);
  }

  lemma ConcatThree(a: seq<Entry>, b: seq<Entry>, c: seq<Entry>)
    ensures (a + b) + c == a + (b + c)
  {
  }

  lemma CancelEnd(a: seq<Entry>, b: seq<Entry>, end: seq<Entry>)
    requires a + end == b + end
    ensures a == b
  {
    assert |a| == |b|;
    assert a == (a + end)[..|a|] && b == (b + end)[..|b|];
  }

  /** From the last id on a run holds only the last id's entry to be selected. */
  lemma OnlyTheLast(all: seq<Entry>, base: nat, n: nat, next: nat, last: nat, step: Count)
    requires Numbered(all, base) && n <= |all| && last == base + n && next <= last && (last - next) % step == 0
    ensures Selected(all[n..], next, Some(last), step) == if n < |all| then [all[n]] else []
  {
    if n < |all| {
      assert all[n..][0] == all[n] && all[n..][1..] == all[n + 1..];
      SelectedNone(all[n + 1..], next, Some(last), step);
    }
  }

  /** Coming to the file that is cut off, the read ends with what came before the last id. */
  lemma TornEnd(env: Env, sh: Shape, i: nat, next: nat, last: nat, step: Count)
    requires FilesDense(env, sh) && i < |sh.files| && OnTrack(sh, i, next, last, step) && sh.TornEndAt(i, last)
    ensures sh.base <= last <= sh.base + |sh.all|
    ensures FromFile(env, sh.Last(), sh.first + i, next, last, step) == Done(Short(sh, next, last, step))
  {
    hide Selected, FilesDense, Flat, FromFile;
    OneFile(env, sh, i, next, last, step);
    FilePart(env, sh, i);
    SelectedInThree(sh.all, sh.Offset(i), sh.Offset(i + 1), next, Some(last), step);
  }

  /** A short read leaves out an entry exactly when there is one with the last id. */
  lemma ShortExactly(env: Env, sh: Shape, next: nat, last: nat, step: Count)
    requires FilesDense(env, sh) && sh.base <= last <= sh.base + |sh.all| && next <= last && (last - next) % step == 0
    ensures Selected(sh.all, next, Some(last), step)
         == Short(sh, next, last, step) + if last < sh.base + |sh.all| then [sh.all[last - sh.base]] else []
  {
    hide Selected, FilesDense;
    RunNumbered(env, sh);
    SelectedSplit(sh.all, last - sh.base, next, Some(last), step);
    OnlyTheLast(sh.all, sh.base, last - sh.base, next, last, step);
  }

  lemma NothingSent(es: seq<Entry>, next: nat, last: nat, step: Count)
    requires Selected(es, next, Some(last), step) == []
    ensures NextAfter(es, next, last, step) == next
  {
  }

  lemma SentInFiles(env: Env, sh: Shape, i: nat, next: nat, last: nat, step: Count)
    requires FilesDense(env, sh) && i < |sh.files|
    requires sh.Offset(i + 1) <= |sh.all| && Selected(sh.all[..sh.Offset(i + 1)], next, Some(last), step) != []
    ensures Selected(Flat(sh.files), next, Some(last), step) != []
  {
    hide IsFile, NothingAfter, Selected;
    FilePart(env, sh, i);
    var n, all := sh.Offset(i + 1), Flat(sh.files);
    assert all[..n] == sh.all[..n];
    SelectedSplit(all, n, next, Some(last), step);
  }

  /** After a file: memory ends the read, or the next file goes on, or there is none and the read never ends. */
  lemma AfterOneFile(env: Env, sh: Shape, i: nat, next: nat, last: nat, step: Count)
    requires FilesDense(env, sh) && MemDense(env.mem, sh) && i < |sh.files| && OnTrack(sh, i + 1, next, last, step)
    requires i + 1 < |sh.files| ==>
               WalkIs(env, sh, FromFile(env, sh.Last(), sh.first + i + 1, next, last, step), next, last, step)
    ensures WalkIs(env, sh, FromNext(env, sh.Last(), sh.first + i, next, last, step), next, last, step)
  {
    hide Selected, FilesDense, MemDense, FromFile, AfterFile, Flat;
    MemoryAnswers(env, sh, next, last, step);
    if i + 1 == |sh.files| {
      FilePart(env, sh, i);
      FlatIsFront(env, sh);
    }
  }

  lemma FlatIsFront(env: Env, sh: Shape)
    requires FilesDense(env, sh)
    ensures |Flat(sh.files)| <= |sh.all| && Flat(sh.files) == sh.all[..|Flat(sh.files)|]
  {
  }

  // ----- The lookup on such files -----

  /**
   * What probing these files tells: a store file's true range, or the start a WAL header announces. A
   * file without entries may not be found at all, once it is converted and its WAL file deleted.
   */
  ghost predicate InfoAgrees(lay: Lookup.Layout, sh: Shape, i: nat)
    requires i < |sh.files|
  {
    var start, end := sh.base + sh.Offset(i), sh.base + sh.Offset(i + 1);
    match lay.info(sh.first + i)
    case InStore(s, e) => s == start && e + 1 == end
    case InWal(s) => s == start && lay.walEnd(sh.first + i) == end
    case Missing => start == end
    case _ => false
  }

  /** The reader looks files up, on true information about them. */
  ghost predicate FindsFiles(env: Env, sh: Shape, lay: Lookup.Layout)
    requires sh.files != []
  {
    && lay.first == sh.first && lay.last == sh.Last()
    && (forall i :: 0 <= i < |sh.files| ==> InfoAgrees(lay, sh, i))
    && (forall target :: env.find(target) == Lookup.Find(lay.info, lay.first, lay.last, target))
  }

  lemma FileBounds(env: Env, sh: Shape, lay: Lookup.Layout, i: nat)
    requires sh.files != [] && FindsFiles(env, sh, lay) && i < |sh.files|
    ensures var f := sh.first + i;
            && !lay.info(f).Broken?
            && (lay.Holds(f) ==> lay.Start(f) == sh.base + sh.Offset(i) && lay.End(f) == sh.base + sh.Offset(i + 1))
            && (!lay.Holds(f) ==> sh.Offset(i) == sh.Offset(i + 1))
  {
    hide Flat, Lookup.Find;
    assert InfoAgrees(lay, sh, i);
  }

  lemma {:induction false} OffsetsGrow(env: Env, sh: Shape, i: nat, j: nat)
    requires FilesDense(env, sh) && i <= j <= |sh.files|
    ensures sh.Offset(i) <= sh.Offset(j)
    decreases j - i
  {
    hide FilesDense, Flat;
    if i < j {
      FilePart(env, sh, j - 1);
      OffsetsGrow(env, sh, i, j - 1);
    }
  }

  /** These files are in order and contiguous, and none is broken. */
  lemma LayoutInOrder(env: Env, sh: Shape, lay: Lookup.Layout)
    requires FilesDense(env, sh) && sh.files != [] && FindsFiles(env, sh, lay)
    ensures lay.Monotone() && lay.Contiguous() && forall f: nat :: lay.first <= f <= lay.last ==> !lay.info(f).Broken?
  {
    hide Flat, Lookup.Find, FilesDense, FindsFiles;
    assert lay.first == sh.first && lay.last == sh.Last() by { FirstAndLast(env, sh, lay); }
    forall f: nat | lay.first <= f <= lay.last
      ensures !lay.info(f).Broken?
      ensures lay.Holds(f) ==> lay.Start(f) == sh.base + sh.Offset(f - sh.first) && lay.End(f) == sh.base + sh.Offset(f - sh.first + 1)
    {
      FileBounds(env, sh, lay, f - sh.first);
    }
    forall f: nat, g: nat | lay.Holds(f) && lay.Holds(g) && f <= g
      ensures lay.Start(f) <= lay.End(f) && (f < g ==> lay.End(f) <= lay.Start(g))
    {
      OffsetsGrow(env, sh, f - sh.first, f - sh.first + 1);
      if f < g {
        OffsetsGrow(env, sh, f - sh.first + 1, g - sh.first);
      }
    }
  }

  lemma FirstAndLast(env: Env, sh: Shape, lay: Lookup.Layout)
    requires sh.files != [] && FindsFiles(env, sh, lay)
    ensures lay.first == sh.first && lay.last == sh.Last()
  {
  }

  /** Where the lookup answers, it answers with a file up to which nothing is wanted. */
  lemma {:induction false} BehindTheAnswer(env: Env, sh: Shape, lay: Lookup.Layout, start: nat, f: nat, k: nat)
    requires sh.files != [] && FindsFiles(env, sh, lay) && lay.Holds(lay.first)
    requires 1 <= k <= f < |sh.files| && lay.NotTooLate(start, sh.first + f)
    ensures sh.base + sh.Offset(k) <= start
    decreases k
  {
    hide Flat, Lookup.Find, FindsFiles;
    FirstAndLast(env, sh, lay);
    FileBounds(env, sh, lay, k - 1);
    if !lay.Holds(sh.first + k - 1) {
      BehindTheAnswer(env, sh, lay, start, f, k - 1);
    }
  }

  lemma FirstHolds(lay: Lookup.Layout, target: nat)
    requires lay.first <= lay.last
    ensures var r := Lookup.Find(lay.info, lay.first, lay.last, target); r.Ok? && r.value.Some? ==> lay.Holds(lay.first)
  {
    hide Lookup.Search, Lookup.Backward;
  }

  /** The reader starts on track: at a file before which nothing is wanted. */
  lemma LookupOnTrack(env: Env, sh: Shape, lay: Lookup.Layout, start: nat, last: nat, step: Count, id: nat)
    requires FilesDense(env, sh) && sh.files != [] && FindsFiles(env, sh, lay) && start <= last && (last - start) % step == 0
    requires env.find(start) == Ok(Some(id))
    ensures sh.first <= id <= sh.Last() && OnTrack(sh, id - sh.first, start, last, step)
  {
    hide FilesDense, Flat, Selected, Lookup.Find;
    LayoutInOrder(env, sh, lay);
    Lookup.FindIsGood(lay, start);
    FirstHolds(lay, start);
    var f := id - sh.first;
    FilePart(env, sh, f);
    RunNumbered(env, sh);
    if f > 0 {
      BehindTheAnswer(env, sh, lay, start, f, f);
      BelowIsNotWanted(sh.all[..sh.Offset(f)], start, last, step);
    } else {
      assert sh.files[..0] == [];
      NoFilesNoEntries(sh);
      BelowIsNotWanted([], start, last, step);
    }
  }

  lemma NoFilesNoEntries(sh: Shape)
    ensures sh.Offset(0) == 0 && sh.all[..0] == []
  {
  }

  /** When memory does not serve the start and every file is found, the lookup answers. */
  lemma LookupAnswers(env: Env, sh: Shape, lay: Lookup.Layout, start: nat)
    requires FilesDense(env, sh) && sh.files != [] && FindsFiles(env, sh, lay) && start < sh.FileEnd() && lay.AllHold()
    ensures env.find(start).Ok? && env.find(start).value.Some?
  {
    hide FilesDense, Flat, Lookup.Find;
    LayoutInOrder(env, sh, lay);
    Lookup.FindIsGood(lay, start);
    FilePart(env, sh, |sh.files| - 1);
    FileBounds(env, sh, lay, |sh.files| - 1);
    Lookup.DismissedAt(lay, start, lay.last);
  }

  // ----- The result -----

  lemma EndInStep(start: nat, limit: Count, step: Count)
    ensures start <= EndOf(start, limit, step) && (EndOf(start, limit, step) - start) % step == 0
  {
    MultipleOf(limit - 1, step);
  }

  /** What the walk from file f on comes to. */
  ghost function WalkResult(sh: Shape, m: Mem, f: nat, start: nat, last: nat, step: Count): Outcome {
    var wanted := Selected(sh.all, start, Some(last), step);
    if sh.NoTornFrom(f, last) then if Finishes(sh, start, last, step) then Done(wanted) else Never([])
    else
      var i := sh.FirstTorn(f, last);
      Done(if TakesOver(sh, m, f, i, start, last, step) then wanted else Short(sh, start, last, step))
  }

  /** What a read comes to, given what the lookup says about its start. */
  ghost function ReadResult(sh: Shape, m: Mem, find: Result<Option<nat>, Lookup.LookupError>, start: nat, last: nat, step: Count): Outcome {
    if m.Oldest() <= start then Done(Selected(sh.all, start, Some(last), step))
    else
      match find
      case Ok(Some(id)) => WalkResult(sh, m, if sh.first <= id then id - sh.first else 0, start, last, step)
      case Ok(None) => Broke([], QueueNotFound)
      case Err(_) => Broke([], NotFound)
  }

  /**
   * When a read returns what it asks for: memory serves it; or the lookup answers and, if no file
   * from there on is cut off in the last entry asked for, the read finishes; or, if one is, that
   * entry does not exist or memory takes over before.
   */
  ghost predicate ReadIsRight(sh: Shape, m: Mem, find: Result<Option<nat>, Lookup.LookupError>, start: nat, last: nat, step: Count) {
    || m.Oldest() <= start
    || (&& find.Ok? && find.value.Some? && find.value.value >= sh.first
        && var f := find.value.value - sh.first;
           if sh.NoTornFrom(f, last) then Finishes(sh, start, last, step)
           else m.NextId() <= last || TakesOver(sh, m, f, sh.FirstTorn(f, last), start, last, step))
  }

  /**
   * An absolute read with a limit and a step, over files and memory that hold a gapless run: when
   * memory serves its start or no file is cut off in the last id it asks for, it sends exactly the
   * existing ids among start, start + step, ..., in order, each once and with its data, however they
   * split between files and memory. Otherwise ReadResult says what it comes to.
   */
  lemma AbsoluteRead(env: Env, sh: Shape, lay: Lookup.Layout, start: nat, limit: Count, step: Count)
    requires FilesDense(env, sh) && MemDense(env.mem, sh) && sh.files != [] && FindsFiles(env, sh, lay)
    ensures Meaning(env, sh.Last(), Begin(Absolute(start), limit), step)
         == ReadResult(sh, env.mem, env.find(start), start, EndOf(start, limit, step), step)
  {
    hide FilesDense, MemDense, Flat, Selected, FromFile, ReadFull, OnTrack, FindsFiles, NextAt, Short;
    var last := EndOf(start, limit, step);
    EndInStep(start, limit, step);
    MemoryAnswers(env, sh, start, last, step);
    if env.mem.Oldest() > start && env.find(start).Ok? && env.find(start).value.Some? {
      var id := env.find(start).value.value;
      LookupOnTrack(env, sh, lay, start, last, step, id);
      var f := id - sh.first;
      if sh.NoTornFrom(f, last) {
        WalkFiles(env, sh, f, start, last, step);
      } else {
        WalkToTorn(env, sh, f, sh.FirstTorn(f, last), start, last, step);
      }
    }
  }

  /** The read returns what it asks for exactly when it is right in this sense; a read that is not leaves out at most the last id. */
  lemma RightExactly(env: Env, sh: Shape, lay: Lookup.Layout, start: nat, limit: Count, step: Count)
    requires FilesDense(env, sh) && MemDense(env.mem, sh) && sh.files != [] && FindsFiles(env, sh, lay)
    ensures var last := EndOf(start, limit, step);
            var r := ReadResult(sh, env.mem, env.find(start), start, last, step);
            && (r == Done(Selected(sh.all, start, Some(last), step)) <==> ReadIsRight(sh, env.mem, env.find(start), start, last, step))
            && (r.Done? && !ReadIsRight(sh, env.mem, env.find(start), start, last, step) ==>
                  && sh.base <= last < sh.base + |sh.all|
                  && Selected(sh.all, start, Some(last), step) == r.sent + [sh.all[last - sh.base]])
  {
    hide FilesDense, MemDense, Flat, Selected, FindsFiles, NextAt, Short, Finishes;
    var last := EndOf(start, limit, step);
    EndInStep(start, limit, step);
    if env.mem.Oldest() > start && env.find(start).Ok? && env.find(start).value.Some? {
      var id := env.find(start).value.value;
      LookupOnTrack(env, sh, lay, start, last, step, id);
      var f := id - sh.first;
      if !sh.NoTornFrom(f, last) {
        TornInRun(env, sh, sh.FirstTorn(f, last), last);
        ShortExactly(env, sh, start, last, step);
        NextIs(env.mem, sh);
      }
    }
  }

  lemma NextIs(m: Mem, sh: Shape)
    requires MemDense(m, sh)
    ensures m.NextId() == sh.base + |sh.all|
  {
  }

  /**
   * The machine, with or without fetching ahead, ends with exactly the wanted entries if and only if
   * the read is right; and it never ends exactly when its result says so.
   */
  lemma MachineReads(env: Env, sh: Shape, lay: Lookup.Layout, start: nat, limit: Count, step: Count, prefetching: bool)
    requires FilesDense(env, sh) && MemDense(env.mem, sh) && sh.files != [] && FindsFiles(env, sh, lay)
    ensures var last, state := EndOf(start, limit, step), Begin(Absolute(start), limit);
            var wanted, r := Selected(sh.all, start, Some(last), step), ReadResult(sh, env.mem, env.find(start), start, last, step);
            && (EndsWith(env, state, step, prefetching, Move(Completed, wanted)) <==>
                  ReadIsRight(sh, env.mem, env.find(start), start, last, step))
            && (r.Done? ==> EndsWith(env, state, step, prefetching, Move(Completed, r.sent)))
            && (r.Never? ==> forall n: nat :: !Steps(env, state, step, prefetching, n).state.Terminal())
  {
    hide MemDense, Flat, Selected, Meaning, ReadIsRight, ReadResult, EndsWith, Steps, IsFile, FindsFiles;
    var last, state := EndOf(start, limit, step), Begin(Absolute(start), limit);
    var r := ReadResult(sh, env.mem, env.find(start), start, last, step);
    AbsoluteRead(env, sh, lay, start, limit, step);
    RightExactly(env, sh, lay, start, limit, step);
    EndsExactly(env, sh.Last(), state, step, prefetching, Move(Completed, Selected(sh.all, start, Some(last), step)));
    if r.Done? {
      EndsExactly(env, sh.Last(), state, step, prefetching, Move(Completed, r.sent));
    }
    if r.Never? {
      forall n: nat
        ensures !Steps(env, state, step, prefetching, n).state.Terminal()
      {
        NeverOver(env, sh.Last(), state, step, prefetching, n);
      }
    }
  }

  /** A limited read from the tail comes to the same as the absolute read counted back from the last id. */
  lemma TailRead(env: Env, sh: Shape, lay: Lookup.Layout, offset: nat, limit: Count, step: Count)
    requires FilesDense(env, sh) && MemDense(env.mem, sh) && sh.files != [] && FindsFiles(env, sh, lay) && env.mem.lastId.Some?
    ensures var start := TailStart(env.mem.lastId.value, offset);
            var last := EndOf(start, limit, step);
            var o := Meaning(env, sh.Last(), Begin(ShiftFromTail(offset), limit), step);
            && o == ReadResult(sh, env.mem, env.find(start), start, last, step)
            && (o == Done(Selected(sh.all, start, Some(last), step)) <==> ReadIsRight(sh, env.mem, env.find(start), start, last, step))
  {
    hide FilesDense, Flat, Selected, Meaning, ReadResult, ReadIsRight, FindsFiles;
    TailReadIsAbsolute(env, sh.Last(), offset, limit, step);
    AbsoluteRead(env, sh, lay, TailStart(env.mem.lastId.value, offset), limit, step);
    RightExactly(env, sh, lay, TailStart(env.mem.lastId.value, offset), limit, step);
  }

  /** Memory's stepping walk and the file reader's step test send the same out of the same entries. */
  lemma MemoryAndFileAgree(m: Mem, hash: Hash, hd: WalHeader, start: nat, end: nat, step: Count)
    requires m.Valid() && hd.Storable() && AllFit(hd, m.entries) && ReadFull(m, start, end, step).success
    ensures ReadFull(m, start, end, step).sent
         == BytesRange(hash, HeaderBytes(hd) + RunBytes(hash, hd, m.entries), start, Some(end), step).sent
  {
    hide HeaderBytes, RunBytes, BytesRange, Selected, Fits;
    UntornRange(hash, hd, m.entries, m.Oldest(), start, Some(end), step);
    if m.lastId.None? || start > m.lastId.value {
      RunIsBelow(m.entries, m.Oldest(), start, end, step);
    }
  }

  // ----- The exception happens -----

  function SkipFile(d: Data): Stored {
    Stored(WalHeader(8, 4, 1), [Entry(1, d)], false)
  }

  lemma SkipFileFits(d: Data)
    ensures SkipFile(d).header.Storable() && AllFit(SkipFile(d).header, SkipFile(d).entries)
  {
    RecordWidth(|d|);
  }

  /** Id 0 is gone, id 1 is in the only file, id 2 only in memory. */
  function SkipEnv(hash: Hash, d: Data): Env {
    SkipFileFits(d);
    var bytes := HeaderBytes(SkipFile(d).header) + RunBytes(hash, SkipFile(d).header, SkipFile(d).entries);
    Env(hash, _ => Absent, id => if id == 1 then Got(bytes) else Absent, (_, _) => None,
        Mem([Entry(2, d)], Some(2), Some(2), None, |d|), _ => Ok(Some(1)))
  }

  function SkipShape(d: Data): Shape {
    Shape(1, [SkipFile(d)], 1, [Entry(1, d)] + [Entry(2, d)])
  }

  function SkipLayout(): Lookup.Layout {
    Lookup.Layout(1, 1, _ => Lookup.InWal(1), _ => 2)
  }

  lemma SkipOffsets(d: Data)
    ensures var sh := SkipShape(d);
            && Flat(sh.files) == [Entry(1, d)] && sh.Offset(0) == 0 && sh.Offset(1) == 1
            && sh.all[..1] == [Entry(1, d)] && sh.all[1..] == [Entry(2, d)]
  {
    var sh := SkipShape(d);
    assert sh.files[..0] == [] && sh.files[..1] == sh.files;
    assert Flat(sh.files) == [] + [Entry(1, d)];
  }

  lemma SkipFinds(hash: Hash, d: Data)
    ensures FindsFiles(SkipEnv(hash, d), SkipShape(d), SkipLayout())
  {
    hide HeaderBytes, RunBytes, IdWidth, Flat;
    SkipOffsets(d);
    assert InfoAgrees(SkipLayout(), SkipShape(d), 0);
  }

  lemma SkipMemory(hash: Hash, d: Data)
    ensures MemDense(SkipEnv(hash, d).mem, SkipShape(d))
  {
    hide HeaderBytes, RunBytes, IdWidth, Flat;
    SkipOffsets(d);
    var m := SkipEnv(hash, d).mem;
    assert TotalSize(m.entries) == |d| by {
      assert m.entries[1..] == [];
    }
    assert m.entries == SkipShape(d).all[m.Oldest() - 1..];
  }

  lemma SkipIsFile(hash: Hash, d: Data)
    ensures IsFile(SkipEnv(hash, d), 1, SkipFile(d), 1)
  {
    hide HeaderBytes, RunBytes, IdWidth, WholeEntries, HeadersSeen;
    SkipFileFits(d);
    var hd, es := SkipFile(d).header, SkipFile(d).entries;
    var run := RunBytes(hash, hd, es);
    assert es + [] == es;
    TakeAll(run);
    WholeRun(hash, hd, es);
    assert IsCut(SkipEnv(hash, d), 1, SkipFile(d), 1, [], |run|);
  }

  /** Reading every second id from 0 passes over id 1, is refused by memory for id 0, and never gets to id 2. */
  lemma SkippedForever(hash: Hash, d: Data)
    ensures var env, sh := SkipEnv(hash, d), SkipShape(d);
            && FilesDense(env, sh) && MemDense(env.mem, sh) && FindsFiles(env, sh, SkipLayout())
            && Selected(sh.all, 0, Some(EndOf(0, 2, 2)), 2) == [Entry(2, d)]
            && ReadResult(sh, env.mem, env.find(0), 0, EndOf(0, 2, 2), 2) == Never([])
  {
    hide HeaderBytes, RunBytes, IdWidth, Flat, FindsFiles, MemDense;
    SkipFileFits(d);
    SkipOffsets(d);
    SkipMemory(hash, d);
    SkipFinds(hash, d);
    var env, sh := SkipEnv(hash, d), SkipShape(d);
    SkipIsFile(hash, d);
    SelectedConcat([Entry(1, d)], [Entry(2, d)], 0, Some(2), 2);
    SelectedNone([Entry(1, d)], 0, Some(2), 2);
    assert [Entry(2, d)][1..] == [];
  }
}
