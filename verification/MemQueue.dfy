/**
 * The in-memory end of a queue. It numbers entries, keeps them until they are acknowledged and
 * memory runs short, and serves reads of what it still holds.
 */
module MemQueues {
  import opened Outcomes
  import opened WalCodec
  import opened Selection

  datatype Mem = Mem(entries: seq<Entry>, lastId: Option<nat>, firstId: Option<nat>,
                     lastAcked: Option<nat>, usage: nat) {
    function NextId(): nat {
      if lastId.Some? then lastId.value + 1 else 0
    }

    /** The id of the oldest entry still held, or the next id when none is. */
    function Oldest(): nat {
      if entries == [] then NextId() else entries[0].id
    }

    /** Entries are consecutive up to the last id, and the cached fields tell the truth. */
    ghost predicate Valid() {
      && |entries| <= NextId()
      && Numbered(entries, NextId() - |entries|)
      && firstId == (if entries == [] then None else Some(entries[0].id))
      && usage == TotalSize(entries)
    }

    /** Only assigned ids have been acknowledged. */
    predicate AcksAssigned() {
      lastAcked.Some? ==> lastAcked.value < NextId()
    }
  }

  function TotalSize(es: seq<Entry>): nat {
    if es == [] then 0 else |es[0].data| + TotalSize(es[1..])
  }

  lemma {:induction false} TotalSizeConcat(xs: seq<Entry>, ys: seq<Entry>)
    ensures TotalSize(xs + ys) == TotalSize(xs) + TotalSize(ys)
  {
    if xs == [] {
      assert xs + ys == ys;
    } else {
      TotalSizeConcat(xs[1..], ys);
      assert (xs + ys)[1..] == xs[1..] + ys && (xs + ys)[0] == xs[0];
    }
  }

  // ----- The operations -----

  function NewMem(lastId: Option<nat>): Mem {
    Mem([], lastId, None, None, 0)
  }

  /** How many entries at the front have ids up to the acknowledged one. */
  function AckedFront(es: seq<Entry>, acked: nat): (n: nat)
    ensures n <= |es|
  {
    if es == [] || es[0].id > acked then 0 else 1 + AckedFront(es[1..], acked)
  }

  /** When memory is short, let go of the acknowledged front. */
  function Cleanup(m: Mem, max: nat): (r: Mem)
    requires m.Valid()
  {
    if m.usage <= max || m.lastAcked.None? then m
    else
      var n := AckedFront(m.entries, m.lastAcked.value);
      if n == 0 then m
      else
        var kept := m.entries[n..];
        TotalSizeConcat(m.entries[..n], kept);
        assert m.entries == m.entries[..n] + kept;
        m.(entries := kept,
           usage := m.usage - TotalSize(m.entries[..n]),
           firstId := if kept == [] then None else Some(kept[0].id))
  }

  /** Add an entry under the next id, without letting go of anything. */
  function Push(m: Mem, data: Data): Mem {
    var id := m.NextId();
    m.(entries := m.entries + [Entry(id, data)],
       lastId := Some(id),
       firstId := if m.firstId.None? then Some(id) else m.firstId,
       usage := m.usage + |data|)
  }

  lemma PushValid(m: Mem, data: Data)
    requires m.Valid()
    ensures Push(m, data).Valid() && (m.AcksAssigned() ==> Push(m, data).AcksAssigned())
    ensures Push(m, data).NextId() == m.NextId() + 1
  {
    TotalSizeConcat(m.entries, [Entry(m.NextId(), data)]);
  }

  lemma CleanupValid(m: Mem, max: nat)
    requires m.Valid()
    ensures Cleanup(m, max).Valid() && (m.AcksAssigned() ==> Cleanup(m, max).AcksAssigned())
    ensures Cleanup(m, max).NextId() == m.NextId() && Cleanup(m, max).lastAcked == m.lastAcked
  {
    if Cleanup(m, max) != m {
      var n := AckedFront(m.entries, m.lastAcked.value);
      TotalSizeConcat(m.entries[..n], m.entries[n..]);
      assert m.entries == m.entries[..n] + m.entries[n..];
    }
  }

  function AfterEnqueue(m: Mem, max: nat, data: Data): Mem
    requires m.Valid()
  {
    PushValid(m, data);
    Cleanup(Push(m, data), max)
  }

  function PushAll(m: Mem, datas: seq<Data>): Mem
    decreases |datas|
  {
    if datas == [] then m else PushAll(Push(m, datas[0]), datas[1..])
  }

  lemma {:induction false} PushAllValid(m: Mem, datas: seq<Data>)
    requires m.Valid()
    ensures PushAll(m, datas).Valid() && (m.AcksAssigned() ==> PushAll(m, datas).AcksAssigned())
    ensures PushAll(m, datas).NextId() == m.NextId() + |datas|
    decreases |datas|
  {
    if datas != [] {
      PushValid(m, datas[0]);
      PushAllValid(Push(m, datas[0]), datas[1..]);
    }
  }

  /** A batch is added as a whole and memory is looked after once, at the end. */
  function AfterBatch(m: Mem, max: nat, datas: seq<Data>): Mem
    requires m.Valid()
  {
    if datas == [] then m
    else
      PushAllValid(m, datas);
      Cleanup(PushAll(m, datas), max)
  }

  function AfterAck(m: Mem, max: nat, id: nat): Mem
    requires m.Valid()
  {
    Cleanup(m.(lastAcked := if m.lastAcked.None? || id > m.lastAcked.value then Some(id) else m.lastAcked), max)
  }

  // ----- A batch is the same as its entries one by one -----

  function AfterEach(m: Mem, max: nat, datas: seq<Data>): Mem
    requires m.Valid()
    decreases |datas|
  {
    if datas == [] then m
    else
      PushValid(m, datas[0]);
      CleanupValid(Push(m, datas[0]), max);
      AfterEach(AfterEnqueue(m, max, datas[0]), max, datas[1..])
  }

  lemma {:induction false} AckedFrontStops(es: seq<Entry>, e: Entry, acked: nat)
    requires e.id > acked
    ensures AckedFront(es + [e], acked) == AckedFront(es, acked)
  {
    if es != [] && es[0].id <= acked {
      AckedFrontStops(es[1..], e, acked);
      assert (es + [e])[1..] == es[1..] + [e];
    }
  }

  lemma {:induction false} AckedFrontGone(es: seq<Entry>, acked: nat)
    ensures AckedFront(es[AckedFront(es, acked)..], acked) == 0
  {
    if es != [] && es[0].id <= acked {
      var n := AckedFront(es, acked);
      AckedFrontGone(es[1..], acked);
      assert es[n..] == es[1..][n - 1..];
    }
  }

  /** Looking after memory before adding an entry makes no difference if it is done again after. */
  lemma CleanupAbsorbed(m: Mem, max: nat, data: Data)
    requires m.Valid() && m.AcksAssigned()
    ensures Cleanup(m, max).Valid()
    ensures AfterEnqueue(Cleanup(m, max), max, data) == AfterEnqueue(m, max, data)
  {
    CleanupValid(m, max);
    var c := Cleanup(m, max);
    if c != m {
      var acked, e := m.lastAcked.value, Entry(m.NextId(), data);
      var n := AckedFront(m.entries, acked);
      PushValid(m, data);
      PushValid(c, data);
      AckedFrontStops(m.entries, e, acked);
      AckedFrontStops(c.entries, e, acked);
      AckedFrontGone(m.entries, acked);
      assert (m.entries + [e])[n..] == m.entries[n..] + [e];
      assert (m.entries + [e])[..n] == m.entries[..n];
    }
  }

  lemma PushOne(m: Mem, datas: seq<Data>)
    requires |datas| == 1
    ensures datas[1..] == [] && PushAll(m, datas) == Push(m, datas[0])
  {
  }

  lemma {:induction false} CleanupAbsorbedByAll(m: Mem, max: nat, datas: seq<Data>)
    requires m.Valid() && m.AcksAssigned() && datas != []
    ensures Cleanup(m, max).Valid()
    ensures AfterBatch(Cleanup(m, max), max, datas) == AfterBatch(m, max, datas)
    decreases |datas|
  {
    hide Cleanup, Push;
    CleanupValid(m, max);
    PushValid(m, datas[0]);
    PushValid(Cleanup(m, max), datas[0]);
    CleanupAbsorbed(m, max, datas[0]);
    if |datas| > 1 {
      var m1, m2 := Push(m, datas[0]), Push(Cleanup(m, max), datas[0]);
      CleanupAbsorbedByAll(m1, max, datas[1..]);
      CleanupAbsorbedByAll(m2, max, datas[1..]);
    } else {
      PushOne(m, datas);
      PushOne(Cleanup(m, max), datas);
    }
  }

  /** Enqueueing a batch leaves the same memory, and uses the same ids, as enqueueing one by one. */
  lemma {:induction false} BatchIsOneByOne(m: Mem, max: nat, datas: seq<Data>)
    requires m.Valid() && m.AcksAssigned()
    ensures AfterBatch(m, max, datas) == AfterEach(m, max, datas)
    ensures AfterEach(m, max, datas).NextId() == m.NextId() + |datas|
    decreases |datas|
  {
    hide Cleanup, Push;
    if datas != [] {
      var m1 := Push(m, datas[0]);
      PushValid(m, datas[0]);
      CleanupValid(m1, max);
      BatchIsOneByOne(Cleanup(m1, max), max, datas[1..]);
      if |datas| > 1 {
        CleanupAbsorbedByAll(m1, max, datas[1..]);
      } else {
        PushOne(m, datas);
      }
    }
  }

  // ----- What an entry's life in memory keeps -----

  /** Every operation keeps the queue consistent; only acknowledged ids ever leave memory. */
  lemma OperationsKeepValid(m: Mem, max: nat, data: Data, datas: seq<Data>, id: nat)
    requires m.Valid() && m.AcksAssigned()
    ensures AfterEnqueue(m, max, data).Valid() && AfterBatch(m, max, datas).Valid() && AfterAck(m, max, id).Valid()
    ensures AfterEnqueue(m, max, data).AcksAssigned() && AfterBatch(m, max, datas).AcksAssigned()
    ensures id < m.NextId() ==> AfterAck(m, max, id).AcksAssigned()
  {
    hide Cleanup, Push;
    PushValid(m, data);
    CleanupValid(Push(m, data), max);
    PushAllValid(m, datas);
    CleanupValid(PushAll(m, datas), max);
    var acked := m.(lastAcked := if m.lastAcked.None? || id > m.lastAcked.value then Some(id) else m.lastAcked);
    CleanupValid(acked, max);
  }

  lemma {:induction false} AckedFrontAcked(es: seq<Entry>, acked: nat, i: nat)
    requires i < AckedFront(es, acked)
    ensures es[i].id <= acked
  {
    if i > 0 {
      AckedFrontAcked(es[1..], acked, i - 1);
    }
  }

  /** Cleaning up keeps a suffix, and what it drops was acknowledged. */
  lemma CleanupDropsAcked(m: Mem, max: nat)
    requires m.Valid()
    ensures var r := Cleanup(m, max);
            && |r.entries| <= |m.entries|
            && r.entries == m.entries[|m.entries| - |r.entries|..]
            && (forall i :: 0 <= i < |m.entries| - |r.entries| ==>
                  m.lastAcked.Some? && m.entries[i].id <= m.lastAcked.value)
            && (m.lastAcked.None? ==> r == m)
            && m.Oldest() <= r.Oldest()
            && (m.Oldest() < r.Oldest() ==> m.lastAcked.Some? && r.Oldest() <= m.lastAcked.value + 1)
  {
    var r := Cleanup(m, max);
    if r != m {
      var acked := m.lastAcked.value;
      var n := AckedFront(m.entries, acked);
      forall i | 0 <= i < n
        ensures m.entries[i].id <= acked
      {
        AckedFrontAcked(m.entries, acked, i);
      }
      assert m.entries[n - 1].id <= acked;
    } else {
      assert m.entries[0..] == m.entries;
    }
  }

  /** Which entries are let go of is decided by the limit and the greatest acknowledged id alone. */
  ghost predicate Stays(e: Entry, usage: nat, max: nat, acked: Option<nat>) {
    usage <= max || acked.None? || e.id > acked.value
  }

  lemma {:induction false} AckedFrontExactly(es: seq<Entry>, acked: nat, first: nat)
    requires Numbered(es, first)
    ensures var n := AckedFront(es, acked); forall i :: 0 <= i < |es| ==> (i < n <==> es[i].id <= acked)
  {
    if es != [] && es[0].id <= acked {
      AckedFrontExactly(es[1..], acked, first + 1);
      var n := AckedFront(es, acked);
      assert forall i :: 1 <= i < |es| ==> es[i] == es[1..][i - 1];
    }
  }

  /**
   * Within the limit, or with nothing acknowledged, memory keeps everything. Beyond it, exactly the
   * acknowledged entries go.
   */
  lemma CleanupExactly(m: Mem, max: nat)
    requires m.Valid()
    ensures var r := Cleanup(m, max);
            && (m.usage <= max || m.lastAcked.None? ==> r == m)
            && forall e :: e in r.entries <==> e in m.entries && Stays(e, m.usage, max, m.lastAcked)
  {
    if m.usage > max && m.lastAcked.Some? {
      var n, r := AckedFront(m.entries, m.lastAcked.value), Cleanup(m, max);
      AckedFrontExactly(m.entries, m.lastAcked.value, m.NextId() - |m.entries|);
      assert r.entries == m.entries[n..];
      forall e | e in m.entries
        ensures e in r.entries <==> e.id > m.lastAcked.value
      {
        var i :| 0 <= i < |m.entries| && m.entries[i] == e;
        if i >= n {
          assert m.entries[n..][i - n] == e;
        }
      }
    }
  }

  /** A batch of entries under consecutive ids. */
  function BatchEntries(first: nat, datas: seq<Data>): (es: seq<Entry>)
    ensures |es| == |datas| && forall i :: 0 <= i < |datas| ==> es[i] == Entry(first + i, datas[i])
  {
    seq(|datas|, i requires 0 <= i < |datas| => Entry(first + i, datas[i]))
  }

  lemma {:induction false} PushAllIs(m: Mem, datas: seq<Data>)
    ensures var r, es := PushAll(m, datas), BatchEntries(m.NextId(), datas);
            && r.entries == m.entries + es && r.usage == m.usage + TotalSize(es) && r.lastAcked == m.lastAcked
    decreases |datas|
  {
    var es := BatchEntries(m.NextId(), datas);
    if datas != [] {
      PushAllIs(Push(m, datas[0]), datas[1..]);
      assert es[1..] == BatchEntries(m.NextId() + 1, datas[1..]);
      assert m.entries + [es[0]] + es[1..] == m.entries + es;
    }
  }

  /** What memory holds after each operation: what it held, with what came in, unless it had to go. */
  lemma HeldExactly(m: Mem, max: nat, data: Data, datas: seq<Data>, id: nat)
    requires m.Valid()
    ensures var e := Entry(m.NextId(), data);
            forall x :: x in AfterEnqueue(m, max, data).entries <==>
              (x in m.entries || x == e) && Stays(x, m.usage + |data|, max, m.lastAcked)
    ensures var es := BatchEntries(m.NextId(), datas);
            datas != [] ==> forall x :: x in AfterBatch(m, max, datas).entries <==>
              (x in m.entries || x in es) && Stays(x, m.usage + TotalSize(es), max, m.lastAcked)
    ensures var acked := if m.lastAcked.Some? && m.lastAcked.value > id then m.lastAcked.value else id;
            forall x :: x in AfterAck(m, max, id).entries <==> x in m.entries && Stays(x, m.usage, max, Some(acked))
  {
    hide Cleanup, TotalSize;
    PushValid(m, data);
    CleanupExactly(Push(m, data), max);
    PushAllValid(m, datas);
    PushAllIs(m, datas);
    CleanupExactly(PushAll(m, datas), max);
    var acked := if m.lastAcked.Some? && m.lastAcked.value > id then m.lastAcked.value else id;
    CleanupExactly(m.(lastAcked := Some(acked)), max);
  }

  /** Memory after some acknowledgements, in whatever order they arrive. */
  function AfterAcks(m: Mem, max: nat, ids: seq<nat>): Mem
    requires m.Valid()
    decreases |ids|
  {
    if ids == [] then m
    else
      AckValid(m, max, ids[0]);
      AfterAcks(AfterAck(m, max, ids[0]), max, ids[1..])
  }

  lemma AckValid(m: Mem, max: nat, id: nat)
    requires m.Valid()
    ensures AfterAck(m, max, id).Valid()
  {
    hide Cleanup;
    CleanupValid(m.(lastAcked := if m.lastAcked.None? || id > m.lastAcked.value then Some(id) else m.lastAcked), max);
  }

  /** The kept acknowledgement is the greatest of them and of the one before. */
  lemma {:induction false} GreatestAckKept(m: Mem, max: nat, ids: seq<nat>)
    requires m.Valid()
    ensures var kept := AfterAcks(m, max, ids).lastAcked;
            && (kept.None? <==> ids == [] && m.lastAcked.None?)
            && (kept.Some? ==> kept == m.lastAcked || kept.value in ids)
            && (m.lastAcked.Some? ==> kept.Some? && m.lastAcked.value <= kept.value)
            && forall id :: id in ids ==> kept.Some? && id <= kept.value
    decreases |ids|
  {
    hide Cleanup;
    if ids != [] {
      AckValid(m, max, ids[0]);
      CleanupValid(m.(lastAcked := if m.lastAcked.None? || ids[0] > m.lastAcked.value then Some(ids[0]) else m.lastAcked), max);
      GreatestAckKept(AfterAck(m, max, ids[0]), max, ids[1..]);
      assert forall id :: id in ids <==> id == ids[0] || id in ids[1..];
    }
  }

  // ----- Reads -----

  datatype MemRead = MemRead(success: bool, startId: Option<nat>, sent: seq<Entry>)

  /** A read between two ids: refused when it starts before what memory still holds. */
  function ReadFull(m: Mem, start: nat, end: nat, step: nat): (r: MemRead)
    requires step >= 1
  {
    if m.lastId.None? || start > m.lastId.value then MemRead(true, None, [])
    else if m.firstId.None? || start < m.firstId.value then MemRead(false, None, [])
    else MemRead(true, None, Selected(m.entries, start, Some(end), step))
  }

  /** Where a read that counts back from the tail starts: so many ids before the last, or at the first. */
  function TailStart(last: nat, offset: nat): (start: nat)
    ensures offset <= last ==> start + offset == last
    ensures offset > last ==> start == 0
  {
    if offset > last then 0 else last - offset
  }

  /** A read from the tail: a number of entries, none meaning no limit. */
  function ReadFullNegative(m: Mem, offset: nat, step: nat, limit: nat): (r: MemRead)
    requires step >= 1
  {
    if m.lastId.None? then MemRead(true, Some(0), [])
    else
      var start := TailStart(m.lastId.value, offset);
      if m.firstId.None? || start < m.firstId.value then MemRead(false, Some(start), [])
      else
        var found := Selected(m.entries, start, None, step);
        var sent := if limit == 0 then found else AtMost(found, limit);
        MemRead(sent != [], Some(start), sent)
  }

  /** What memory serves from the tail it also serves as a bounded read from the resolved start. */
  lemma TailReadIsBoundedRead(m: Mem, offset: nat, step: nat, limit: nat)
    requires m.Valid() && step >= 1 && limit >= 1 && m.lastId.Some?
    ensures var start := TailStart(m.lastId.value, offset);
            var tail := ReadFullNegative(m, offset, step, limit);
            var plain := ReadFull(m, start, EndOf(start, limit, step), step);
            tail.startId == Some(start) && tail.success == plain.success && tail.sent == plain.sent
  {
    var start := TailStart(m.lastId.value, offset);
    if m.firstId.Some? && m.firstId.value <= start {
      LimitIsEnd(m.entries, m.entries[0].id, start, limit, step);
      var i := start - m.entries[0].id;
      assert m.entries[i].id == start;
      StartIsSelected(m.entries, i, start, EndOf(start, limit, step), step);
    }
  }

  /**
   * A read from the tail is refused exactly when memory does not reach back to its start. Else it sends
   * the first entries in step from there on: all of them without a limit, else as many as the limit allows.
   */
  lemma TailReadExactly(m: Mem, offset: nat, step: nat, limit: nat)
    requires m.Valid() && step >= 1 && m.lastId.Some?
    ensures var r := ReadFullNegative(m, offset, step, limit);
            var start := if offset <= m.lastId.value then m.lastId.value - offset else 0;
            var all := Selected(m.entries, start, None, step);
            && r.startId == Some(start) && (r.success <==> m.Oldest() <= start)
            && (!r.success ==> r.sent == [])
            && (r.success ==> r.sent <= all && |r.sent| == if limit == 0 || |all| < limit then |all| else limit)
  {
    var start := TailStart(m.lastId.value, offset);
    if m.firstId.Some? && m.firstId.value <= start {
      var i := start - m.entries[0].id;
      assert m.entries[i].id == start;
      SelectedSplit(m.entries, i, start, None, step);
      assert m.entries[i..][0] == m.entries[i];
    }
  }

  lemma StartIsSelected(es: seq<Entry>, i: nat, start: nat, end: nat, step: nat)
    requires step >= 1 && i < |es| && es[i].id == start && start <= end
    ensures Selected(es, start, Some(end), step) != []
  {
    SelectedSplit(es, i, start, Some(end), step);
    assert es[i..][0] == es[i];
  }

  /** The walk of a bounded read: a candidate id steps along while the entries pass by. */
  method StepWalk(es: seq<Entry>, start: nat, end: nat, step: nat, ghost first: nat) returns (sent: seq<Entry>)
    requires step >= 1 && Numbered(es, first)
    ensures sent == Selected(es, start, Some(end), step)
  {
    hide Selected;
    var i := SkipBelow(es, start, Some(end), step);
    sent := [];
    var current := start;
    while i < |es|
      invariant i <= |es| && sent == Selected(es[..i], start, Some(end), step)
      invariant i < |es| ==> start <= es[i].id
      invariant start <= current && (current - start) % step == 0
      invariant i < |es| ==> current < es[i].id + step
    {
      var id := es[i].id;
      if id > end {
        break;
      }
      current := CatchUp(start, current, id, step);
      SelectedSnoc(es, i, start, Some(end), step);
      OnlyExactMultiple(start, current, id, step);
      if current == id {
        sent := sent + [es[i]];
        AddStep(current - start, step);
        current := current + step;
      }
      i := i + 1;
    }
    SelectedSplit(es, i, start, Some(end), step);
    SelectedNone(es[i..], start, Some(end), step);
  }

  /** Entries before the start are passed over. */
  method SkipBelow(es: seq<Entry>, start: nat, until: Option<nat>, step: nat) returns (i: nat)
    requires step >= 1
    ensures i <= |es| && Selected(es[..i], start, until, step) == []
    ensures i < |es| ==> es[i].id >= start
  {
    i := 0;
    while i < |es| && es[i].id < start
      invariant i <= |es| && forall j :: 0 <= j < i ==> es[j].id < start
    {
      i := i + 1;
    }
    SelectedNone(es[..i], start, until, step);
  }

  /**
   * Step the candidate up to an entry's id. A bounded read also stops when the candidate passes the
   * end; by then it has passed the entry as well.
   */
  method CatchUp(start: nat, candidate: nat, id: nat, step: nat) returns (current: nat)
    requires step >= 1 && start <= candidate && (candidate - start) % step == 0
    requires candidate < id + step
    ensures id <= current < id + step && candidate <= current && (current - start) % step == 0
  {
    current := candidate;
    while current < id
      invariant candidate <= current < id + step && (current - start) % step == 0
    {
      AddStep(current - start, step);
      current := current + step;
    }
  }

  lemma OnlyExactMultiple(start: nat, current: nat, id: nat, step: nat)
    requires step >= 1 && start <= id <= current < id + step && (current - start) % step == 0
    ensures current == id <==> (id - start) % step == 0
  {
    if (id - start) % step == 0 {
      SameMultiple(id - start, current - start, step);
    }
  }

  /** The walk of a tail read: the same, but counting entries instead of watching an end. */
  method CountedWalk(es: seq<Entry>, start: nat, limit: nat, step: nat, ghost first: nat) returns (sent: seq<Entry>)
    requires step >= 1 && Numbered(es, first)
    ensures var found := Selected(es, start, None, step);
            sent == if limit == 0 then found else AtMost(found, limit)
  {
    hide Selected;
    var i := SkipBelow(es, start, None, step);
    sent := [];
    var current, count := start, 0;
    while i < |es| && !(limit > 0 && count >= limit)
      invariant i <= |es| && sent == Selected(es[..i], start, None, step) && count == |sent|
      invariant limit > 0 ==> count <= limit
      invariant i < |es| ==> start <= es[i].id
      invariant start <= current && (current - start) % step == 0
      invariant i < |es| ==> current < es[i].id + step
    {
      var id := es[i].id;
      current := CatchUp(start, current, id, step);
      SelectedSnoc(es, i, start, None, step);
      OnlyExactMultiple(start, current, id, step);
      if current == id {
        sent := sent + [es[i]];
        AddStep(current - start, step);
        current := current + step;
        count := count + 1;
      }
      i := i + 1;
    }
    SelectedSplit(es, i, start, None, step);
    if i == |es| {
      SelectedNone(es[i..], start, None, step);
    }
  }

  // ----- The queue itself -----

  class MemQueue {
    var entries: seq<Entry>
    var lastId: Option<nat>
    var firstId: Option<nat>
    var lastAckedId: Option<nat>
    var memoryUsage: nat
    const maxMemoryUsage: nat

    ghost function State(): Mem
      reads this
    {
      Mem(entries, lastId, firstId, lastAckedId, memoryUsage)
    }

    constructor (lastId: Option<nat>, maxMemoryUsage: nat)
      ensures State() == NewMem(lastId) && State().Valid()
      ensures this.maxMemoryUsage == maxMemoryUsage
    {
      entries, this.lastId, firstId, lastAckedId, memoryUsage := [], lastId, None, None, 0;
      this.maxMemoryUsage := maxMemoryUsage;
    }

    method Enqueue(data: Data) returns (id: nat)
      requires State().Valid()
      modifies this
      ensures State() == AfterEnqueue(old(State()), maxMemoryUsage, data) && State().Valid()
      ensures id == old(State()).NextId()
    {
      id := if lastId.Some? then lastId.value + 1 else 0;
      PushValid(State(), data);
      if firstId.None? {
        firstId := Some(id);
      }
      lastId := Some(id);
      entries := entries + [Entry(id, data)];
      memoryUsage := memoryUsage + |data|;
      CleanupUnlocked();
    }

    method EnqueueBatch(datas: seq<Data>) returns (ids: seq<nat>)
      requires State().Valid()
      modifies this
      ensures State() == AfterBatch(old(State()), maxMemoryUsage, datas) && State().Valid()
      ensures |ids| == |datas| && forall i :: 0 <= i < |ids| ==> ids[i] == old(State()).NextId() + i
    {
      ids := [];
      if datas == [] {
        return;
      }
      ghost var pre := State();
      var nextId := if lastId.Some? then lastId.value + 1 else 0;
      if firstId.None? {
        firstId := Some(nextId);
      }
      var i := 0;
      while i < |datas|
        invariant 0 <= i <= |datas| && nextId == pre.NextId() + i && lastId == pre.lastId
        invariant |ids| == i && forall j :: 0 <= j < i ==> ids[j] == pre.NextId() + j
        invariant i > 0 ==> PushAll(pre, datas[..i]) == State().(lastId := Some(nextId - 1))
        invariant i == 0 ==> State() == pre.(firstId := if pre.firstId.None? then Some(nextId) else pre.firstId)
        modifies `entries, `memoryUsage
      {
        PushAllSnoc(pre, datas, i);
        ids := ids + [nextId];
        entries := entries + [Entry(nextId, datas[i])];
        memoryUsage := memoryUsage + |datas[i]|;
        nextId := nextId + 1;
        i := i + 1;
      }
      assert datas[..i] == datas;
      lastId := Some(ids[|ids| - 1]);
      assert State() == PushAll(pre, datas);
      PushAllValid(pre, datas);
      CleanupUnlocked();
    }

    method Ack(id: nat)
      requires State().Valid()
      modifies this
      ensures State() == AfterAck(old(State()), maxMemoryUsage, id) && State().Valid()
    {
      if lastAckedId.None? || id > lastAckedId.value {
        lastAckedId := Some(id);
      }
      CleanupUnlocked();
    }

    method CleanupUnlocked()
      requires State().Valid()
      modifies this
      ensures State() == Cleanup(old(State()), maxMemoryUsage) && State().Valid()
    {
      CleanupValid(State(), maxMemoryUsage);
      if memoryUsage <= maxMemoryUsage || lastAckedId.None? {
        return;
      }
      var toRemove := CountAcked(entries, lastAckedId.value);
      if toRemove > 0 {
        var removed := SizeOfFirst(entries, toRemove);
        TotalSizeConcat(entries[..toRemove], entries[toRemove..]);
        assert entries == entries[..toRemove] + entries[toRemove..];
        entries := entries[toRemove..];
        memoryUsage := memoryUsage - removed;
        firstId := if entries == [] then None else Some(entries[0].id);
      }
    }

    method Read(start: nat, end: nat, step: nat) returns (success: bool, sent: seq<Entry>)
      requires State().Valid() && step >= 1
      ensures MemRead(success, None, sent) == ReadFull(State(), start, end, step)
    {
      sent := [];
      if lastId.None? || start > lastId.value {
        return true, [];
      }
      if firstId.None? || start < firstId.value {
        return false, [];
      }
      sent := StepWalk(entries, start, end, step, State().NextId() - |entries|);
      success := true;
    }

    method ReadNegative(offset: nat, step: nat, limit: nat)
      returns (success: bool, startId: Option<nat>, sent: seq<Entry>)
      requires State().Valid() && step >= 1
      ensures MemRead(success, startId, sent) == ReadFullNegative(State(), offset, step, limit)
    {
      if lastId.None? {
        return true, Some(0), [];
      }
      var start := if offset > lastId.value then 0 else lastId.value - offset;
      startId := Some(start);
      if firstId.None? || start < firstId.value {
        return false, startId, [];
      }
      sent := CountedWalk(entries, start, limit, step, State().NextId() - |entries|);
      success := sent != [];
    }
  }

  method CountAcked(es: seq<Entry>, acked: nat) returns (n: nat)
    ensures n == AckedFront(es, acked)
  {
    n := 0;
    while n < |es| && es[n].id <= acked
      invariant n <= |es|
      invariant AckedFront(es, acked) == n + AckedFront(es[n..], acked)
    {
      assert es[n..][1..] == es[n + 1..];
      n := n + 1;
    }
  }

  method SizeOfFirst(es: seq<Entry>, n: nat) returns (size: nat)
    requires n <= |es|
    ensures size == TotalSize(es[..n])
  {
    size := 0;
    for i := 0 to n
      invariant size == TotalSize(es[..i])
    {
      assert es[..i + 1] == es[..i] + [es[i]];
      TotalSizeConcat(es[..i], [es[i]]);
      size := size + |es[i].data|;
    }
  }

  lemma {:induction false} PushAllSnoc(m: Mem, datas: seq<Data>, i: nat)
    requires i < |datas|
    ensures PushAll(m, datas[..i + 1]) == Push(PushAll(m, datas[..i]), datas[i])
    decreases i
  {
    if i == 0 {
      PushOne(m, datas[..1]);
    } else {
      assert datas[..i + 1][1..] == datas[1..][..i] && datas[..i][1..] == datas[1..][..i - 1];
      PushAllSnoc(Push(m, datas[0]), datas[1..], i - 1);
    }
  }
}
