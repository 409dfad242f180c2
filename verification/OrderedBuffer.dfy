/**
 * The reordering buffer in front of the WAL writer. Entries may arrive in any order; they leave
 * in id order.
 */
module OrderedBuffering {
  import opened Outcomes
  import opened WalCodec
  import opened Selection

  datatype Ordering = Ordering(pending: seq<Entry>, lastWritten: Option<nat>) {
    /** The only id that may be written next. */
    function Next(): nat {
      if lastWritten.Some? then lastWritten.value + 1 else 0
    }
  }

  predicate SortedIds(es: seq<Entry>) {
    forall i, j :: 0 <= i < j < |es| ==> es[i].id <= es[j].id
  }

  /** No id occurs twice among the entries. */
  ghost predicate DistinctIds(m: multiset<Entry>) {
    forall x, y :: x in m && y in m && x.id == y.id ==> x == y && m[x] == 1
  }

  // ----- What one arrival may do -----

  /**
   * Buffering an entry: pending and new entries together are what is released and what is kept,
   * in id order, the released ones run on from the next id, and the first one kept does not.
   */
  ghost predicate Waits(pre: Ordering, e: Entry, post: Ordering, ready: seq<Entry>) {
    && multiset(pre.pending) + multiset{e} == multiset(ready) + multiset(post.pending)
    && SortedIds(ready + post.pending)
    && Numbered(ready, pre.Next())
    && post.lastWritten == (if ready == [] then pre.lastWritten else Some(ready[|ready| - 1].id))
    && (post.pending == [] || post.pending[0].id != post.Next())
  }

  /** Handing the writer an entry: straight through when it is the next one, buffered otherwise. */
  ghost predicate Accepts(pre: Ordering, e: Entry, post: Ordering, ready: seq<Entry>) {
    if e.id == pre.Next() then ready == [e] && post == pre.(lastWritten := Some(e.id))
    else Waits(pre, e, post, ready)
  }

  /** Every accepted entry is either released or still pending, and releases run on from Next. */
  lemma AcceptsConserves(pre: Ordering, e: Entry, post: Ordering, ready: seq<Entry>)
    requires Accepts(pre, e, post, ready)
    ensures multiset(pre.pending) + multiset{e} == multiset(ready) + multiset(post.pending)
    ensures Numbered(ready, pre.Next()) && post.Next() == pre.Next() + |ready|
  {
  }

  /** Nothing that is pending could be written now. */
  ghost predicate Maximal(o: Ordering) {
    !HasId(o.pending, o.Next())
  }

  /** Fresh ids: none is used twice and none was written before. */
  ghost predicate Fresh(o: Ordering, e: Entry) {
    var m := multiset(o.pending) + multiset{e};
    DistinctIds(m) && forall x :: x in m ==> x.id >= o.Next()
  }

  lemma TwoPlaces(es: seq<Entry>, i: nat, j: nat)
    requires i < j < |es|
    ensures es[i] in multiset(es) && es[j] in multiset(es)
    ensures es[i] == es[j] ==> multiset(es)[es[i]] >= 2
  {
    var left, right := es[..j], es[j..];
    assert es == left + right;
    assert es[i] in left && es[j] in right;
    assert es[i] in multiset(left) && es[j] in multiset(right);
  }

  lemma DistinctPlaces(es: seq<Entry>, i: nat, j: nat)
    requires i < j < |es| && DistinctIds(multiset(es))
    ensures es[i].id != es[j].id
  {
    TwoPlaces(es, i, j);
  }

  /** Buffering fresh entries releases as much as possible. */
  lemma WaitsMaximal(pre: Ordering, e: Entry, post: Ordering, ready: seq<Entry>)
    requires Waits(pre, e, post, ready) && Fresh(pre, e)
    ensures Maximal(post)
  {
    var all := ready + post.pending;
    var n := |ready|;
    assert multiset(all) == multiset(pre.pending) + multiset{e};
    if post.pending != [] {
      assert all[n] in multiset(all) && all[n] == post.pending[0];
      if n > 0 {
        DistinctPlaces(all, n - 1, n);
        assert all[n - 1] == ready[n - 1];
      }
      assert post.pending[0].id > post.Next();
      NoneAtNext(ready, post.pending, post.Next());
    }
  }

  lemma NoneAtNext(ready: seq<Entry>, pending: seq<Entry>, next: nat)
    requires SortedIds(ready + pending) && pending != [] && pending[0].id > next
    ensures !HasId(pending, next)
  {
    forall i | 0 <= i < |pending|
      ensures pending[i].id > next
    {
      assert pending[i] == (ready + pending)[|ready| + i] && pending[0] == (ready + pending)[|ready|];
    }
  }

  /**
   * After any accepted fresh entry the release is maximal, except in one case: the entry went
   * straight through while its successor was already pending.
   */
  lemma AcceptsMaximalExactly(pre: Ordering, e: Entry, post: Ordering, ready: seq<Entry>)
    requires Accepts(pre, e, post, ready) && Fresh(pre, e)
    ensures Maximal(post) <==> !(e.id == pre.Next() && HasId(pre.pending, e.id + 1))
  {
    if e.id != pre.Next() {
      WaitsMaximal(pre, e, post, ready);
    }
  }

  /** The exception happens: entry 2 arrives, then entry 1, and entry 2 stays pending. */
  lemma SuccessorLeftPending(data: Data)
    ensures var start := Ordering([], Some(0));
            var one := Ordering([Entry(2, data)], Some(0));
            var two := Ordering([Entry(2, data)], Some(1));
            && Accepts(start, Entry(2, data), one, []) && Fresh(start, Entry(2, data))
            && Accepts(one, Entry(1, data), two, [Entry(1, data)]) && Fresh(one, Entry(1, data))
            && !Maximal(two)
  {
    var two := Ordering([Entry(2, data)], Some(1));
    assert two.pending[0].id == two.Next();
  }

  // ----- Whole runs -----

  /** A run of arrivals: the buffer before each one, the entry, and what it released. */
  datatype Arrival = Arrival(pre: Ordering, entry: Entry, ready: seq<Entry>)

  function PostOf(run: seq<Arrival>, last: Ordering, i: nat): Ordering {
    if i + 1 < |run| then run[i + 1].pre else last
  }

  ghost predicate IsRun(run: seq<Arrival>, last: Ordering) {
    forall i :: 0 <= i < |run| ==> Accepts(run[i].pre, run[i].entry, PostOf(run, last, i), run[i].ready)
  }

  function Arrived(run: seq<Arrival>): seq<Entry> {
    if run == [] then [] else Arrived(run[..|run| - 1]) + [run[|run| - 1].entry]
  }

  function Released(run: seq<Arrival>): seq<Entry> {
    if run == [] then [] else Released(run[..|run| - 1]) + run[|run| - 1].ready
  }

  /** Conservation over some arrivals and over one more gives conservation over all of them. */
  lemma Chain(start: multiset<Entry>, came: multiset<Entry>, gone: multiset<Entry>, mid: multiset<Entry>,
              one: multiset<Entry>, ready: multiset<Entry>, end: multiset<Entry>)
    requires start + came == gone + mid && mid + one == ready + end
    ensures start + (came + one) == (gone + ready) + end
  {
    assert start + (came + one) == (gone + mid) + one == gone + (ready + end);
  }

  /**
   * Over any run, whatever the arrival order, the released entries carry the ids that follow the
   * starting one, each exactly once, and arrivals are conserved: everything pending at the start
   * or arriving is released or still pending.
   */
  lemma {:induction false} RunReleasesInOrder(run: seq<Arrival>, first: Ordering, last: Ordering)
    requires IsRun(run, last)
    requires if run == [] then first == last else run[0].pre == first
    ensures Numbered(Released(run), first.Next())
    ensures last.Next() == first.Next() + |Released(run)|
    ensures multiset(first.pending) + multiset(Arrived(run)) == multiset(Released(run)) + multiset(last.pending)
    decreases |run|
  {
    hide Accepts, IsRun;
    if run != [] {
      var k := |run| - 1;
      var step, before := run[k], run[..k];
      PrefixIsRun(run, last);
      RunReleasesInOrder(before, first, step.pre);
      AcceptsConserves(step.pre, step.entry, last, step.ready);
      Chain(multiset(first.pending), multiset(Arrived(before)), multiset(Released(before)), multiset(step.pre.pending),
            multiset{step.entry}, multiset(step.ready), multiset(last.pending));
      assert multiset(Arrived(run)) == multiset(Arrived(before)) + multiset{step.entry};
      assert multiset(Released(run)) == multiset(Released(before)) + multiset(step.ready);
    }
  }

  lemma PrefixIsRun(run: seq<Arrival>, last: Ordering)
    requires run != [] && IsRun(run, last)
    ensures var k := |run| - 1;
            && IsRun(run[..k], run[k].pre)
            && Accepts(run[k].pre, run[k].entry, last, run[k].ready)
  {
    hide Accepts;
    var k := |run| - 1;
    var before := run[..k];
    assert PostOf(run, last, k) == last;
    forall i | 0 <= i < k
      ensures Accepts(before[i].pre, before[i].entry, PostOf(before, run[k].pre, i), before[i].ready)
    {
      assert before[i] == run[i] && PostOf(before, run[k].pre, i) == PostOf(run, last, i);
    }
  }

  /**
   * If a run brings every id from the starting one up to some bound, each once, and its last
   * arrival has to wait, then everything has been released.
   */
  lemma {:induction false} RunReleasesAll(run: seq<Arrival>, step: Arrival, first: Ordering, last: Ordering,
                                          ids: seq<Entry>)
    requires IsRun(run, step.pre) && first.pending == []
    requires if run == [] then first == step.pre else run[0].pre == first
    requires step.entry.id != step.pre.Next() && Accepts(step.pre, step.entry, last, step.ready)
    requires Numbered(ids, first.Next())
    requires multiset(Arrived(run)) + multiset{step.entry} == multiset(ids)
    ensures last.pending == [] && Released(run) + step.ready == ids
  {
    hide IsRun, Arrived, Released, DistinctIds;
    var done := Released(run);
    RunReleasesInOrder(run, first, step.pre);
    AcceptsConserves(step.pre, step.entry, last, step.ready);
    Regroup(multiset(Arrived(run)), multiset(done), multiset(step.pre.pending), multiset{step.entry},
            multiset(step.ready), multiset(last.pending));
    RestIsFresh(done, multiset(step.pre.pending) + multiset{step.entry}, ids, first.Next());
    WaitsMaximal(step.pre, step.entry, last, step.ready);
    assert multiset(done + step.ready) == multiset(done) + multiset(step.ready);
    NothingPending(done + step.ready, last.pending, ids, first.Next());
  }

  lemma Regroup(came: multiset<Entry>, done: multiset<Entry>, pending: multiset<Entry>, one: multiset<Entry>,
                ready: multiset<Entry>, end: multiset<Entry>)
    requires came == done + pending && pending + one == ready + end
    ensures done + (pending + one) == came + one
    ensures (done + ready) + end == came + one
  {
    assert done + (pending + one) == (done + pending) + one;
    assert (done + ready) + end == done + (ready + end);
  }

  lemma {:induction false} NumberedOnce(ids: seq<Entry>, first: nat, i: nat)
    requires Numbered(ids, first) && i < |ids|
    ensures multiset(ids)[ids[i]] == 1
  {
    var left, right := ids[..i], ids[i + 1..];
    assert ids == left + [ids[i]] + right;
    assert ids[i] !in left && ids[i] !in right;
  }

  lemma NumberedDistinct(ids: seq<Entry>, first: nat)
    requires Numbered(ids, first)
    ensures DistinctIds(multiset(ids))
    ensures forall x :: x in multiset(ids) ==> first <= x.id < first + |ids| && ids[x.id - first] == x
  {
    forall x | x in multiset(ids)
      ensures first <= x.id < first + |ids| && ids[x.id - first] == x && multiset(ids)[x] == 1
    {
      var i :| 0 <= i < |ids| && ids[i] == x;
      NumberedOnce(ids, first, i);
    }
  }

  /** What is left of a numbered range after its front was taken away has fresh ids. */
  lemma RestIsFresh(done: seq<Entry>, rest: multiset<Entry>, ids: seq<Entry>, first: nat)
    requires Numbered(done, first) && Numbered(ids, first)
    requires multiset(done) + rest == multiset(ids)
    ensures DistinctIds(rest)
    ensures forall x :: x in rest ==> x.id >= first + |done|
  {
    NumberedDistinct(ids, first);
    FrontOfRange(done, ids, first, rest);
    forall x | x in rest
      ensures rest[x] == 1 && x.id >= first + |done|
    {
      assert x in multiset(ids) && multiset(ids)[x] == multiset(done)[x] + rest[x];
      assert x !in multiset(done) && x !in done;
      assert ids[x.id - first] == x;
    }
  }

  /** Numbered entries out of a numbered range are its front. */
  lemma FrontOfRange(done: seq<Entry>, ids: seq<Entry>, first: nat, rest: multiset<Entry>)
    requires Numbered(done, first) && Numbered(ids, first)
    requires multiset(done) + rest == multiset(ids)
    ensures |done| + |rest| == |ids| && done == ids[..|done|]
  {
    assert |multiset(done)| == |done| && |multiset(ids)| == |ids|;
    forall i | 0 <= i < |done|
      ensures done[i] == ids[i]
    {
      assert done[i] in multiset(done) && done[i] in multiset(ids);
      var j :| 0 <= j < |ids| && ids[j] == done[i];
    }
  }

  /** If the front of a numbered range is out and its next id is not pending, nothing is pending. */
  lemma NothingPending(done: seq<Entry>, pending: seq<Entry>, ids: seq<Entry>, first: nat)
    requires Numbered(done, first) && Numbered(ids, first)
    requires multiset(done) + multiset(pending) == multiset(ids)
    requires !HasId(pending, first + |done|)
    ensures pending == [] && done == ids
  {
    FrontOfRange(done, ids, first, multiset(pending));
    assert |multiset(pending)| == |pending|;
    if |done| < |ids| {
      NextIsInRest(done, multiset(pending), ids, first);
      assert false;
    }
  }

  lemma NextIsInRest(done: seq<Entry>, rest: multiset<Entry>, ids: seq<Entry>, first: nat)
    requires Numbered(done, first) && Numbered(ids, first) && |done| < |ids|
    requires multiset(done) + rest == multiset(ids)
    ensures ids[|done|] in rest
  {
    var e := ids[|done|];
    assert e in multiset(ids);
    assert e !in done && e !in multiset(done);
    assert multiset(ids)[e] == multiset(done)[e] + rest[e];
  }

  // ----- The buffer itself -----

  predicate NoneBelow(es: seq<Entry>, bound: nat) {
    forall i :: 0 <= i < |es| ==> bound <= es[i].id
  }

  function InsertById(es: seq<Entry>, e: Entry): (r: seq<Entry>) {
    if es == [] || e.id < es[0].id then [e] + es else [es[0]] + InsertById(es[1..], e)
  }

  lemma {:induction false} InsertKeepsOrder(es: seq<Entry>, e: Entry, bound: nat)
    requires SortedIds(es) && NoneBelow(es, bound) && bound <= e.id
    ensures SortedIds(InsertById(es, e)) && NoneBelow(InsertById(es, e), bound)
  {
    if es != [] && es[0].id <= e.id {
      InsertKeepsOrder(es[1..], e, es[0].id);
    }
  }

  lemma {:induction false} InsertKeepsEntries(es: seq<Entry>, e: Entry)
    ensures multiset(InsertById(es, e)) == multiset(es) + multiset{e}
  {
    if es != [] && es[0].id <= e.id {
      InsertKeepsEntries(es[1..], e);
      assert es == [es[0]] + es[1..];
      assert multiset(es) == multiset{es[0]} + multiset(es[1..]);
    }
  }

  /** Sorting by id, as a library sort does: some ordered permutation. */
  method SortById(es: seq<Entry>) returns (r: seq<Entry>)
    ensures multiset(r) == multiset(es) && SortedIds(r)
  {
    r := [];
    for i := 0 to |es|
      invariant multiset(r) == multiset(es[..i]) && SortedIds(r)
    {
      InsertKeepsOrder(r, es[i], 0);
      InsertKeepsEntries(r, es[i]);
      r := InsertById(r, es[i]);
      assert es[..i + 1] == es[..i] + [es[i]];
    }
    assert es[..|es|] == es;
  }

  /** Whatever arrives can be accepted: some order of the pending entries always serves. */
  lemma ArrivalPossible(pre: Ordering, e: Entry) returns (post: Ordering, ready: seq<Entry>)
    ensures Accepts(pre, e, post, ready)
  {
    if e.id == pre.Next() {
      post, ready := pre.(lastWritten := Some(e.id)), [e];
    } else {
      var sorted := Ordered(pre.pending + [e]);
      var n := FrontFrom(sorted, pre.Next());
      var lastId := if n == 0 then pre.lastWritten else Some(sorted[n - 1].id);
      post, ready := Ordering(sorted[n..], lastId), sorted[..n];
      CropWaits(pre, e, sorted, n, lastId);
    }
  }

  lemma {:induction false} Ordered(es: seq<Entry>) returns (r: seq<Entry>)
    ensures multiset(r) == multiset(es) && SortedIds(r)
    decreases |es|
  {
    if es == [] {
      r := [];
    } else {
      var k := |es| - 1;
      var front := Ordered(es[..k]);
      InsertKeepsOrder(front, es[k], 0);
      InsertKeepsEntries(front, es[k]);
      assert es == es[..k] + [es[k]];
      r := InsertById(front, es[k]);
    }
  }

  /** How many entries at the front run on from an id. */
  lemma {:induction false} FrontFrom(es: seq<Entry>, first: nat) returns (n: nat)
    ensures n <= |es| && Numbered(es[..n], first) && (n < |es| ==> es[n].id != first + n)
    decreases |es|
  {
    if es == [] || es[0].id != first {
      n := 0;
    } else {
      var k := FrontFrom(es[1..], first + 1);
      n := k + 1;
      assert forall i :: 1 <= i < n ==> es[..n][i] == es[1..][..k][i - 1];
    }
  }

  class OrderedBuffer {
    var pending: seq<Entry>
    var lastWrittenId: Option<nat>

    ghost function State(): Ordering
      reads this
    {
      Ordering(pending, lastWrittenId)
    }

    constructor (lastId: Option<nat>)
      ensures State() == Ordering([], lastId)
    {
      pending := [];
      lastWrittenId := lastId;
    }

    predicate CheckCanWrite(id: nat)
      reads this
      ensures CheckCanWrite(id) <==> id == State().Next()
    {
      match lastWrittenId
      case Some(last) => id == last + 1
      case None => id == 0
    }

    method CanWrite(id: nat) returns (ok: bool)
      modifies this
      ensures ok == (id == old(State()).Next())
      ensures State() == if ok then old(State()).(lastWritten := Some(id)) else old(State())
    {
      ok := CheckCanWrite(id);
      if ok {
        lastWrittenId := Some(id);
      }
    }

    method WaitForOrder(e: Entry) returns (ready: seq<Entry>)
      modifies this
      ensures Waits(old(State()), e, State(), ready)
    {
      var sorted := SortById(pending + [e]);
      var cropped, lastId := CountReady(sorted, lastWrittenId);
      CropWaits(State(), e, sorted, cropped, lastId);
      ready := sorted[..cropped];
      pending := sorted[cropped..];
      if cropped > 0 {
        lastWrittenId := lastId;
      }
    }
  }

  lemma CropWaits(pre: Ordering, e: Entry, sorted: seq<Entry>, cropped: nat, lastId: Option<nat>)
    requires multiset(sorted) == multiset(pre.pending + [e]) && SortedIds(sorted)
    requires cropped <= |sorted| && Numbered(sorted[..cropped], pre.Next())
    requires lastId == if cropped == 0 then pre.lastWritten else Some(sorted[cropped - 1].id)
    requires cropped < |sorted| ==> sorted[cropped].id != Ordering([], lastId).Next()
    ensures Waits(pre, e, Ordering(sorted[cropped..], lastId), sorted[..cropped])
  {
    var ready, kept := sorted[..cropped], sorted[cropped..];
    assert sorted == ready + kept;
    assert multiset(sorted) == multiset(ready) + multiset(kept);
    assert multiset(pre.pending + [e]) == multiset(pre.pending) + multiset{e};
  }

  /** How many entries at the front of a sorted buffer run on from the last written id. */
  method CountReady(sorted: seq<Entry>, lastWritten: Option<nat>) returns (cropped: nat, lastId: Option<nat>)
    ensures cropped <= |sorted| && Numbered(sorted[..cropped], Ordering([], lastWritten).Next())
    ensures lastId == if cropped == 0 then lastWritten else Some(sorted[cropped - 1].id)
    ensures cropped < |sorted| ==> sorted[cropped].id != Ordering([], lastId).Next()
  {
    cropped, lastId := 0, lastWritten;
    while cropped < |sorted|
      invariant 0 <= cropped <= |sorted| && Numbered(sorted[..cropped], Ordering([], lastWritten).Next())
      invariant lastId == if cropped == 0 then lastWritten else Some(sorted[cropped - 1].id)
    {
      var id := sorted[cropped].id;
      if !(if lastId.Some? then id == lastId.value + 1 else id == 0) {
        return;
      }
      lastId := Some(id);
      cropped := cropped + 1;
    }
  }
}
