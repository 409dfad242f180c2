/** What a stepped, bounded read asks for: the plain filter every reader is measured against. */
module Selection {
  import opened Outcomes
  import opened Bytes
  import opened WalCodec

  /** Entries whose ids run first, first + 1, first + 2, ... */
  predicate Numbered(es: seq<Entry>, first: nat) {
    forall i :: 0 <= i < |es| ==> es[i].id == first + i
  }

  predicate HasId(es: seq<Entry>, id: nat) {
    exists i :: 0 <= i < |es| && es[i].id == id
  }

  /** The step test as the readers make it. */
  predicate InStep(id: nat, from: nat, step: nat)
    requires step >= 1
  {
    step == 1 || (from <= id && (id - from) % step == 0)
  }

  predicate Wanted(id: nat, from: nat, until: Option<nat>, step: nat)
    requires step >= 1
  {
    from <= id && (until.Some? ==> id <= until.value) && (id - from) % step == 0
  }

  /** The entries with from <= id <= until that lie a multiple of step past from. */
  function Selected(es: seq<Entry>, from: nat, until: Option<nat>, step: nat): (r: seq<Entry>)
    requires step >= 1
  {
    if es == [] then []
    else if Wanted(es[0].id, from, until, step) then [es[0]] + Selected(es[1..], from, until, step)
    else Selected(es[1..], from, until, step)
  }

  lemma {:induction false} SelectedConcat(xs: seq<Entry>, ys: seq<Entry>, from: nat, until: Option<nat>, step: nat)
    requires step >= 1
    ensures Selected(xs + ys, from, until, step) == Selected(xs, from, until, step) + Selected(ys, from, until, step)
  {
    if xs == [] {
      assert xs + ys == ys;
    } else {
      SelectedConcat(xs[1..], ys, from, until, step);
      assert (xs + ys)[1..] == xs[1..] + ys && (xs + ys)[0] == xs[0];
    }
  }

  /** Nothing is selected when no id is wanted. */
  lemma {:induction false} SelectedNone(es: seq<Entry>, from: nat, until: Option<nat>, step: nat)
    requires step >= 1
    requires forall i :: 0 <= i < |es| ==> !Wanted(es[i].id, from, until, step)
    ensures Selected(es, from, until, step) == []
  {
    if es != [] {
      SelectedNone(es[1..], from, until, step);
    }
  }

  /** The step test agrees with the filter on every id not below the start. */
  lemma InStepIsMultiple(id: nat, from: nat, step: nat)
    requires step >= 1 && from <= id
    ensures InStep(id, from, step) <==> (id - from) % step == 0
  {
  }

  // ----- Arithmetic of steps -----

  lemma AddStep(a: nat, step: nat)
    requires step >= 1
    ensures (a + step) % step == a % step
  {
    var q, r := a / step, a % step;
    assert a + step == (q + 1) * step + r;
    DivideUnique(a + step, step, q + 1, r);
  }

  lemma MultipleOf(k: nat, step: nat)
    requires step >= 1
    ensures (k * step) % step == 0
  {
    DivideUnique(k * step, step, k, 0);
  }

  /** Two multiples of the step less than one step apart are equal. */
  lemma SameMultiple(a: nat, b: nat, step: nat)
    requires step >= 1 && a % step == 0 && b % step == 0
    requires a <= b < a + step
    ensures a == b
  {
    DivideUnique(b, step, a / step, b - a);
  }

  lemma BetweenMultiples(a: nat, k: nat, step: nat)
    requires step >= 1 && k * step < a < k * step + step
    ensures a % step != 0
  {
    DivideUnique(a, step, k, a - k * step);
  }

  // ----- Counting entries and bounding ids come to the same -----

  function AtMost(s: seq<Entry>, n: nat): seq<Entry> {
    if |s| <= n then s else s[..n]
  }

  /** The id a limited read ends at. */
  function EndOf(start: nat, limit: nat, step: nat): nat
    requires limit >= 1
  {
    start + (limit - 1) * step
  }

  lemma SelectedSnoc(es: seq<Entry>, i: nat, from: nat, until: Option<nat>, step: nat)
    requires step >= 1 && i < |es|
    ensures Selected(es[..i + 1], from, until, step)
         == Selected(es[..i], from, until, step) + if Wanted(es[i].id, from, until, step) then [es[i]] else []
  {
    assert es[..i + 1] == es[..i] + [es[i]];
    SelectedConcat(es[..i], [es[i]], from, until, step);
    assert [es[i]][1..] == [];
  }

  lemma SelectedSplit(es: seq<Entry>, i: nat, from: nat, until: Option<nat>, step: nat)
    requires step >= 1 && i <= |es|
    ensures Selected(es, from, until, step)
         == Selected(es[..i], from, until, step) + Selected(es[i..], from, until, step)
  {
    assert es == es[..i] + es[i..];
    SelectedConcat(es[..i], es[i..], from, until, step);
  }

  /**
   * Of numbered entries, the first `limit` ones in step are those in step up to the end id. Here
   * the first k have already been counted and the next one in step is k steps past the start.
   */
  lemma {:induction false} LimitIsEndFrom(es: seq<Entry>, first: nat, start: nat, limit: nat, step: nat, k: nat)
    requires step >= 1 && limit >= 1 && k <= limit && Numbered(es, first)
    requires first <= start + k * step && (k > 0 ==> start + (k - 1) * step < first)
    ensures AtMost(Selected(es, start, None, step), limit - k)
         == Selected(es, start, Some(EndOf(start, limit, step)), step)
    decreases |es|
  {
    if es != [] {
      var end := EndOf(start, limit, step);
      assert es[0].id == first;
      if first == start + k * step {
        MultipleOf(k, step);
        if k == limit {
          assert k * step == (limit - 1) * step + step;
          SelectedNone(es, start, Some(end), step);
        } else {
          StepsApart(k, limit - 1, step);
          assert Wanted(first, start, Some(end), step);
          assert (k + 1) * step == k * step + step;
          LimitIsEndFrom(es[1..], first + 1, start, limit, step, k + 1);
        }
      } else {
        if start <= first {
          assert k * step == (k - 1) * step + step;
          BetweenMultiples(first - start, k - 1, step);
        }
        LimitIsEndFrom(es[1..], first + 1, start, limit, step, k);
      }
    }
  }

  /** Reading a number of entries and reading up to an end id select the same entries. */
  lemma LimitIsEnd(es: seq<Entry>, first: nat, start: nat, limit: nat, step: nat)
    requires step >= 1 && limit >= 1 && Numbered(es, first) && first <= start
    ensures AtMost(Selected(es, start, None, step), limit)
         == Selected(es, start, Some(EndOf(start, limit, step)), step)
  {
    LimitIsEndFrom(es, first, start, limit, step, 0);
  }
}
