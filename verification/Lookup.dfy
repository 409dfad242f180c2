/**
 * Finding the file to start reading from: a binary search over file ids, in which files may be
 * missing or empty and the last id of a WAL file is not known.
 */
module Lookup {
  import opened Outcomes

  /** What one probe of a file id tells: a store file's range, a WAL file's start, or no data. */
  datatype Info =
    | InStore(start: nat, end: nat)
    | InWal(start: nat)
    | EmptyWal
    | Missing
    | Broken(inStore: bool)
  {
    predicate HasData() {
      InStore? || InWal?
    }

    /** The store's part of the probe failed. */
    predicate StoreBroken() {
      Broken? && inStore
    }

    /** The last id, where the probe knows it. */
    function KnownEnd(): Option<nat>
      requires HasData()
    {
      if InStore? then Some(end) else None
    }
  }

  datatype LookupError = StoreFailed | FileNotFound | WalNotFound | WalFailed

  /** What a broken file is reported as. */
  function BrokenError(found: Info): LookupError {
    if found.StoreBroken() then StoreFailed else WalFailed
  }

  type Found = Option<(nat, nat, Option<nat>)>

  // ----- Layouts -----

  /** The files of a queue: the first and last file id, what probing tells, and where WAL files really end. */
  datatype Layout = Layout(first: nat, last: nat, info: nat -> Info, walEnd: nat -> nat) {
    predicate Holds(f: nat) {
      first <= f <= last && info(f).HasData()
    }

    function Start(f: nat): nat
      requires Holds(f)
    {
      info(f).start
    }

    /** One past the last id of a file. */
    function End(f: nat): nat
      requires Holds(f)
    {
      if info(f).InStore? then info(f).end + 1 else walEnd(f)
    }

    /** Files follow each other in id order; holes between them are allowed. */
    ghost predicate Monotone() {
      && first <= last
      && (forall f: nat :: Holds(f) ==> Start(f) <= End(f))
      && (forall f: nat, g: nat :: Holds(f) && Holds(g) && f < g ==> End(f) <= Start(g))
    }

    ghost predicate AllHold() {
      forall f: nat :: first <= f <= last ==> info(f).HasData()
    }

    /** Each file starts where the one before ends. */
    ghost predicate Contiguous() {
      forall f: nat :: Holds(f) && Holds(f + 1) ==> End(f) == Start(f + 1)
    }

    /** No file before this one holds the target or any later id. */
    ghost predicate NotTooLate(target: nat, r: nat) {
      Holds(r) && forall f: nat :: Holds(f) && f < r ==> End(f) <= target
    }

    /** The target falls between a store file and the file right after it. */
    predicate InHoleBefore(target: nat, r: nat) {
      r > 0 && Holds(r) && Holds(r - 1) && info(r - 1).InStore? && info(r - 1).end < target < Start(r)
    }

    /** The search is known to leave this file behind. */
    predicate Past(target: nat, f: nat)
      requires Holds(f)
    {
      f < last && (if info(f).InStore? then info(f).end < target else Holds(f + 1) && Start(f + 1) <= target)
    }

    /** The first file the search has no reason to leave behind. */
    ghost predicate IsPlace(target: nat, r: nat) {
      Holds(r) && !Past(target, r) && forall f: nat :: Holds(f) && f < r ==> Past(target, f)
    }

    /** The last file that holds data. */
    ghost predicate IsLastData(f: nat) {
      Holds(f) && forall g: nat :: f < g <= last ==> !info(g).HasData()
    }

    /** The lookup gives up: the last data is a store file whose recorded range ends before it starts, around the target. */
    ghost predicate Dismissed(target: nat) {
      && Holds(first) && Start(first) <= target && !(info(first).InStore? && target <= info(first).end)
      && exists f: nat :: IsLastData(f) && info(f).InStore? && info(f).end < target <= Start(f)
    }

    /** Nothing the search may stumble over. */
    ghost predicate Sound() {
      && (forall f: nat :: first <= f <= last ==> !info(f).Broken?)
      && Holds(first)
      && (forall f: nat :: Holds(f) && info(f).InWal? && f < last ==> info(f + 1).HasData())
    }
  }

  /** What the binary search may answer; without an answer something was broken, missing or empty. */
  ghost predicate GoodSearch(lay: Layout, target: nat, r: Result<Option<nat>, LookupError>) {
    && (lay.Sound() ==> r.Ok? && r.value.Some?)
    && GoodPlace(lay, target, r)
    && (lay.Monotone() && lay.AllHold() ==> r.Ok? && r.value.Some? && lay.IsPlace(target, r.value.value))
  }

  /** A file given as the answer is not too late, and starts at or before the target unless that lies in a hole. */
  ghost predicate GoodPlace(lay: Layout, target: nat, r: Result<Option<nat>, LookupError>) {
    lay.Monotone() && r.Ok? && r.value.Some? ==>
      var f := r.value.value;
      && lay.NotTooLate(target, f)
      && (f == lay.first || lay.Start(f) <= target || lay.InHoleBefore(target, f))
  }

  /** What the whole lookup may answer: the same, but for the targets it dismisses. */
  ghost predicate GoodAnswer(lay: Layout, target: nat, r: Result<Option<nat>, LookupError>) {
    && (lay.Sound() ==> r.Ok? && (r.value.None? <==> lay.Dismissed(target)))
    && GoodPlace(lay, target, r)
    && (lay.Monotone() && lay.AllHold() ==>
          r.Ok? && (r.value.None? <==> lay.Dismissed(target)) && (r.value.Some? ==> lay.IsPlace(target, r.value.value)))
  }

  // ----- Walking back over gaps -----

  /** The nearest file at or before s, not before min, that holds data, if no broken one comes first. */
  function Backward(info: nat -> Info, s: nat, min: nat): (r: Result<Found, LookupError>)
    ensures r.Ok? && r.value.Some? ==>
              var (f, start, end) := r.value.value;
              && f <= s && (f == s || min <= f) && info(f).HasData() && start == info(f).start && end == info(f).KnownEnd()
              && forall g: nat :: f < g <= s ==> !info(g).HasData()
    ensures r.Ok? && r.value.None? ==> forall g: nat :: min <= g <= s ==> !info(g).HasData()
    ensures r.Err? ==> exists g: nat :: (min <= g <= s || g == s) && info(g).Broken?
  {
    if info(s).HasData() then Ok(Some((s, info(s).start, info(s).KnownEnd())))
    else if info(s).Broken? then Err(BrokenError(info(s)))
    else if s <= min then Ok(None)
    else Backward(info, s - 1, min)
  }

  method FindValidFileBackward(info: nat -> Info, s: nat, min: nat) returns (r: Result<Found, LookupError>)
    ensures r == Backward(info, s, min)
  {
    var id: nat := s;
    while true
      invariant Backward(info, s, min) == Backward(info, id, min)
      decreases id
    {
      match info(id) {
        case InStore(start, end) => return Ok(Some((id, start, Some(end))));
        case InWal(start) => return Ok(Some((id, start, None)));
        case Broken(_) => return Err(BrokenError(info(id)));
        case _ =>
          if id <= min {
            return Ok(None);
          }
          id := id - 1;
      }
    }
  }

  // ----- The search -----

  /** What is known about the left end: the left file's last id, or something the right file starts at or before. */
  ghost predicate LeftEndOk(lay: Layout, left: nat, right: nat, leftEnd: Option<nat>) {
    && lay.Holds(left) && lay.Holds(right)
    && (leftEnd.Some? ==>
          && lay.End(left) <= leftEnd.value + 1
          && (leftEnd == lay.info(left).KnownEnd() || lay.Start(right) <= leftEnd.value + 1))
    && (lay.AllHold() ==> leftEnd == lay.info(left).KnownEnd())
  }

  /** What holds before every round of the search. */
  ghost predicate Searching(lay: Layout, target: nat, left: nat, right: nat, leftEnd: Option<nat>, rightStart: nat) {
    && lay.first <= left <= right <= lay.last && lay.Holds(left) && lay.Holds(right)
    && rightStart == lay.Start(right) && lay.Start(left) <= target
    && (lay.Monotone() ==> LeftEndOk(lay, left, right, leftEnd))
    && (lay.Monotone() && lay.AllHold() ==> !lay.Past(target, right))
  }

  /** Files before one that starts at or before the target are behind. */
  lemma FilesBefore(lay: Layout, target: nat, f: nat)
    requires lay.Monotone() && lay.Holds(f) && lay.Start(f) <= target
    ensures lay.NotTooLate(target, f)
    ensures lay.AllHold() ==> forall g: nat :: lay.Holds(g) && g < f ==> lay.Past(target, g)
  {
    forall g: nat | lay.Holds(g) && g < f
      ensures lay.End(g) <= target && (lay.AllHold() ==> lay.Past(target, g))
    {
      assert lay.End(g) <= lay.Start(f);
      if lay.AllHold() && g + 1 < f {
        assert lay.Holds(g + 1) && lay.End(g + 1) <= lay.Start(f);
      }
    }
  }

  /** A file that starts at or before the target is a good answer unless the search should have left it. */
  lemma StartsBefore(lay: Layout, target: nat, f: nat)
    requires lay.Holds(f) && lay.Start(f) <= target
    requires lay.Monotone() && lay.AllHold() ==> !lay.Past(target, f)
    ensures GoodSearch(lay, target, Ok(Some(f)))
  {
    if lay.Monotone() {
      FilesBefore(lay, target, f);
    }
  }

  lemma LeftAnswers(lay: Layout, target: nat, left: nat, right: nat, leftEnd: Option<nat>, rightStart: nat)
    requires Searching(lay, target, left, right, leftEnd, rightStart)
    requires lay.AllHold() ==> left == right || left + 1 == right
    requires left < right && lay.AllHold() ==> if leftEnd.Some? then target <= leftEnd.value else target < rightStart
    ensures GoodSearch(lay, target, Ok(Some(left)))
  {
    StartsBefore(lay, target, left);
  }

  /** The right one answers when the target lies past everything known of the left one. */
  lemma RightAnswers(lay: Layout, target: nat, left: nat, right: nat, leftEnd: Option<nat>, rightStart: nat)
    requires Searching(lay, target, left, right, leftEnd, rightStart) && left + 1 == right
    requires if leftEnd.Some? then target > leftEnd.value else target >= rightStart
    ensures GoodSearch(lay, target, Ok(Some(right)))
  {
    if lay.Start(right) <= target {
      StartsBefore(lay, target, right);
    } else if lay.Monotone() {
      FilesBefore(lay, target, left);
      assert lay.InHoleBefore(target, right);
    }
  }

  /** A file in the middle that starts after the target becomes the right one. */
  lemma MoveRight(lay: Layout, target: nat, left: nat, right: nat, leftEnd: Option<nat>, rightStart: nat, mid: nat)
    requires Searching(lay, target, left, right, leftEnd, rightStart)
    requires left < mid < right && lay.Holds(mid) && target < lay.Start(mid)
    ensures Searching(lay, target, left, mid, leftEnd, lay.Start(mid))
  {
    if lay.Monotone() {
      assert lay.Start(mid) <= lay.End(mid) <= lay.Start(right);
      if lay.AllHold() {
        assert lay.Holds(mid + 1) && lay.End(mid) <= lay.Start(mid + 1);
      }
    }
  }

  /** A file found by walking back becomes the right one, and its end stands in for the left one's. */
  lemma MoveRightBack(lay: Layout, target: nat, left: nat, right: nat, leftEnd: Option<nat>, rightStart: nat, f: nat)
    requires Searching(lay, target, left, right, leftEnd, rightStart)
    requires left < f < right && lay.Holds(f) && !lay.AllHold()
    ensures Searching(lay, target, left, f, lay.info(f).KnownEnd(), lay.Start(f))
  {
    if lay.Monotone() {
      assert lay.End(left) <= lay.Start(f) <= lay.End(f);
    }
  }

  lemma MoveLeft(lay: Layout, target: nat, left: nat, right: nat, leftEnd: Option<nat>, rightStart: nat, mid: nat)
    requires Searching(lay, target, left, right, leftEnd, rightStart)
    requires left < mid < right && lay.Holds(mid) && lay.Start(mid) <= target
    ensures Searching(lay, target, mid, right, lay.info(mid).KnownEnd(), rightStart)
  {
  }

  lemma NoAnswer(lay: Layout, target: nat, e: LookupError)
    requires !lay.Sound() && !lay.AllHold()
    ensures GoodSearch(lay, target, Err(e)) && GoodAnswer(lay, target, Err(e))
  {
  }

  lemma SearchingBounds(lay: Layout, target: nat, left: nat, right: nat, leftEnd: Option<nat>, rightStart: nat)
    requires Searching(lay, target, left, right, leftEnd, rightStart)
    ensures lay.first <= left <= right <= lay.last && lay.Holds(left) && lay.Holds(right)
  {
  }

  /** What the error is when the file after one with an unknown end holds no data. */
  function NextError(next: Info): LookupError {
    if next.Missing? then WalNotFound else if next.EmptyWal? then FileNotFound else BrokenError(next)
  }

  /** The search, round by round. */
  function Search(info: nat -> Info, target: nat, left: nat, right: nat, leftEnd: Option<nat>, rightStart: nat)
    : Result<Option<nat>, LookupError>
    requires left <= right
    decreases right - left
  {
    if left == right then Ok(Some(left))
    else if left + 1 == right then
      Ok(Some(if (if leftEnd.Some? then target <= leftEnd.value else target < rightStart) then left else right))
    else
      var mid := (left + right) / 2;
      var found := info(mid);
      if found.Broken? then Err(BrokenError(found))
      else if !found.HasData() then
        match Backward(info, mid, left + 1)
        case Err(e) => Err(e)
        case Ok(None) => Ok(Some(left))
        case Ok(Some((f, start, end))) => Search(info, target, left, f, end, start)
      else if target < found.start then Search(info, target, left, mid, leftEnd, found.start)
      else if found.InStore? then
        if target <= found.end then Ok(Some(mid)) else Search(info, target, mid, right, Some(found.end), rightStart)
      else
        // The end is not known: the next file, which is not after the right one, tells.
        var next := info(mid + 1);
        if !next.HasData() then Err(NextError(next))
        else if target < next.start then Ok(Some(mid))
        else Search(info, target, mid, right, None, rightStart)
  }

  method BinarySearch(target: nat, info: nat -> Info, first: nat, last: nat, end0: Option<nat>, start0: nat)
    returns (r: Result<Option<nat>, LookupError>)
    requires first <= last
    ensures r == Search(info, target, first, last, end0, start0)
    ensures forall lay: Layout :: lay.info == info && Searching(lay, target, first, last, end0, start0) ==> GoodSearch(lay, target, r)
  {
    hide GoodSearch, Searching, Backward;
    var left, right, leftEnd, rightStart := first, last, end0, start0;
    forall lay: Layout | lay.info == info && Searching(lay, target, first, last, end0, start0)
      ensures GoodSearch(lay, target, Search(info, target, first, last, end0, start0))
    {
      SearchIsGood(lay, target, first, last, end0, start0);
    }
    while true
      invariant left <= right
      invariant Search(info, target, left, right, leftEnd, rightStart) == Search(info, target, first, last, end0, start0)
      decreases right - left
    {
      if left == right {
        return Ok(Some(left));
      }
      if left + 1 == right {
        if leftEnd.Some? {
          if target <= leftEnd.value {
            return Ok(Some(left));
          }
        } else if target < rightStart {
          return Ok(Some(left));
        }
        return Ok(Some(right));
      }
      var mid := (left + right) / 2;
      var found := info(mid);
      if found.Broken? {
        return Err(BrokenError(found));
      }
      if found.Missing? || found.EmptyWal? {
        var walk := FindValidFileBackward(info, mid, left + 1);
        if walk.Err? {
          return Err(walk.error);
        }
        if walk.value.None? {
          return Ok(Some(left));
        }
        right, rightStart, leftEnd := walk.value.value.0, walk.value.value.1, walk.value.value.2;
      } else if target < found.start {
        right, rightStart := mid, found.start;
      } else if found.InStore? {
        if target <= found.end {
          return Ok(Some(mid));
        }
        left, leftEnd := mid, Some(found.end);
      } else {
        var next := info(mid + 1);
        if !next.HasData() {
          return Err(NextError(next));
        }
        if target < next.start {
          return Ok(Some(mid));
        }
        left, leftEnd := mid, None;
      }
    }
  }

  /** From any state a search can be in, its answer is good. */
  lemma {:induction false} SearchIsGood(lay: Layout, target: nat, left: nat, right: nat, leftEnd: Option<nat>, rightStart: nat)
    requires Searching(lay, target, left, right, leftEnd, rightStart)
    ensures left <= right && GoodSearch(lay, target, Search(lay.info, target, left, right, leftEnd, rightStart))
    decreases right - left
  {
    hide GoodSearch, Searching;
    SearchingBounds(lay, target, left, right, leftEnd, rightStart);
    if right <= left + 1 {
      if left < right && (if leftEnd.Some? then target > leftEnd.value else target >= rightStart) {
        RightAnswers(lay, target, left, right, leftEnd, rightStart);
      } else {
        LeftAnswers(lay, target, left, right, leftEnd, rightStart);
      }
    } else {
      SearchRound(lay, target, left, right, leftEnd, rightStart);
      var mid := (left + right) / 2;
      var found := lay.info(mid);
      if !found.HasData() {
        if !found.Broken? {
          var walk := Backward(lay.info, mid, left + 1);
          if walk.Ok? && walk.value.Some? {
            SearchIsGood(lay, target, left, walk.value.value.0, walk.value.value.2, walk.value.value.1);
          }
        }
      } else if target < found.start {
        SearchIsGood(lay, target, left, mid, leftEnd, found.start);
      } else if found.InStore? {
        if target > found.end {
          SearchIsGood(lay, target, mid, right, Some(found.end), rightStart);
        }
      } else if lay.info(mid + 1).HasData() && target >= lay.info(mid + 1).start {
        SearchIsGood(lay, target, mid, right, None, rightStart);
      }
    }
  }

  /** One round: it ends well, or leaves a smaller search in order. */
  lemma SearchRound(lay: Layout, target: nat, left: nat, right: nat, leftEnd: Option<nat>, rightStart: nat)
    requires Searching(lay, target, left, right, leftEnd, rightStart) && left + 1 < right
    ensures var mid := (left + right) / 2;
            var found := lay.info(mid);
            if !found.HasData() then
              && (found.Broken? ==> GoodSearch(lay, target, Err(BrokenError(found))))
              && (!found.Broken? ==>
                    match Backward(lay.info, mid, left + 1)
                    case Err(e) => GoodSearch(lay, target, Err(e))
                    case Ok(None) => GoodSearch(lay, target, Ok(Some(left)))
                    case Ok(Some((f, start, end))) => left < f < right && Searching(lay, target, left, f, end, start))
            else if target < found.start then Searching(lay, target, left, mid, leftEnd, found.start)
            else if found.InStore? then
              if target <= found.end then GoodSearch(lay, target, Ok(Some(mid)))
              else Searching(lay, target, mid, right, Some(found.end), rightStart)
            else if !lay.info(mid + 1).HasData() then GoodSearch(lay, target, Err(NextError(lay.info(mid + 1))))
            else if target < lay.info(mid + 1).start then GoodSearch(lay, target, Ok(Some(mid)))
            else Searching(lay, target, mid, right, None, rightStart)
  {
    hide GoodSearch, Searching;
    SearchingBounds(lay, target, left, right, leftEnd, rightStart);
    var mid := (left + right) / 2;
    var found := lay.info(mid);
    if !found.HasData() {
      if found.Broken? {
        NoAnswer(lay, target, BrokenError(found));
      } else {
        match Backward(lay.info, mid, left + 1)
        case Err(e) => NoAnswer(lay, target, e);
        case Ok(None) => LeftAnswers(lay, target, left, right, leftEnd, rightStart);
        case Ok(Some((f, start, end))) => MoveRightBack(lay, target, left, right, leftEnd, rightStart, f);
      }
    } else if target < found.start {
      MoveRight(lay, target, left, right, leftEnd, rightStart, mid);
    } else if found.InStore? {
      if target <= found.end {
        StartsBefore(lay, target, mid);
      } else {
        MoveLeft(lay, target, left, right, leftEnd, rightStart, mid);
      }
    } else if !lay.info(mid + 1).HasData() {
      NoAnswer(lay, target, NextError(lay.info(mid + 1)));
    } else if target < lay.info(mid + 1).start {
      StartsBefore(lay, target, mid);
    } else {
      MoveLeft(lay, target, left, right, leftEnd, rightStart, mid);
    }
  }

  // ----- The whole lookup -----

  /** The least and greatest file id a directory listing found, if it found any file. */
  predicate Listing(first: Option<nat>, last: Option<nat>) {
    (first.None? && last.None?) || (first.Some? && last.Some? && first.value <= last.value)
  }

  function Least(a: Option<nat>, b: Option<nat>): (r: Option<nat>)
    ensures (r == a || r == b) && (a.Some? || b.Some? ==> r.Some?)
    ensures (a.Some? ==> r.value <= a.value) && (b.Some? ==> r.value <= b.value)
  {
    if a.Some? && b.Some? then Some(if a.value <= b.value then a.value else b.value)
    else if a.Some? then a else b
  }

  function Greatest(a: Option<nat>, b: Option<nat>): (r: Option<nat>)
    ensures (r == a || r == b) && (a.Some? || b.Some? ==> r.Some?)
    ensures (a.Some? ==> r.value >= a.value) && (b.Some? ==> r.value >= b.value)
  {
    if a.Some? && b.Some? then Some(if a.value >= b.value then a.value else b.value)
    else if a.Some? then a else b
  }

  /** The lookup between the first and the last file id. */
  function Find(info: nat -> Info, first: nat, last: nat, target: nat): Result<Option<nat>, LookupError>
    requires first <= last
  {
    var found := info(first);
    // The store is asked for the ranges of both ends before anything else.
    if found.StoreBroken() || info(last).StoreBroken() then Err(StoreFailed)
    else if !found.HasData() then
      if found.Missing? then Err(WalNotFound) else if found.EmptyWal? then Ok(None) else Err(WalFailed)
    else if target < found.start then Ok(Some(first))
    else if found.InStore? && target <= found.end then Ok(Some(first))
    else
      match Backward(info, last, first)
      case Err(e) => Err(e)
      case Ok(None) => Ok(None)
      case Ok(Some((lastId, lastStart, lastEnd))) =>
        if target > lastStart then Ok(Some(lastId))
        else if lastEnd.Some? && target > lastEnd.value then Ok(None)
        else Search(info, target, first, lastId, found.KnownEnd(), lastStart)
  }

  method FindFile(target: nat, storeFirst: Option<nat>, storeLast: Option<nat>, walFirst: Option<nat>,
                  walLast: Option<nat>, info: nat -> Info)
    returns (r: Result<Option<nat>, LookupError>)
    requires Listing(storeFirst, storeLast) && Listing(walFirst, walLast)
    ensures storeFirst.None? && walFirst.None? ==> r == Ok(None)
    ensures storeFirst.Some? || walFirst.Some? ==>
              var first, last := Least(storeFirst, walFirst).value, Greatest(storeLast, walLast).value;
              && r == Find(info, first, last, target)
              && forall walEnd :: GoodAnswer(Layout(first, last, info, walEnd), target, r)
  {
    hide GoodAnswer, Search;
    if storeFirst.None? && walFirst.None? {
      return Ok(None);
    }
    var first, last := Least(storeFirst, walFirst).value, Greatest(storeLast, walLast).value;
    forall walEnd
      ensures GoodAnswer(Layout(first, last, info, walEnd), target, Find(info, first, last, target))
    {
      FindIsGood(Layout(first, last, info, walEnd), target);
    }
    var found := info(first);
    if found.StoreBroken() || info(last).StoreBroken() {
      return Err(StoreFailed);
    }
    if !found.HasData() {
      return if found.Missing? then Err(WalNotFound) else if found.EmptyWal? then Ok(None) else Err(WalFailed);
    }
    if target < found.start {
      return Ok(Some(first));
    }
    if found.InStore? && target <= found.end {
      return Ok(Some(first));
    }
    var walk := FindValidFileBackward(info, last, first);
    if walk.Err? {
      return Err(walk.error);
    }
    if walk.value.None? {
      return Ok(None);
    }
    var (lastId, lastStart, lastEnd) := walk.value.value;
    if target > lastStart {
      return Ok(Some(lastId));
    }
    if lastEnd.Some? && target > lastEnd.value {
      return Ok(None);
    }
    r := BinarySearch(target, info, first, lastId, found.KnownEnd(), lastStart);
  }

  /** On every layout the lookup's answer is good. */
  lemma FindIsGood(lay: Layout, target: nat)
    requires lay.first <= lay.last
    ensures GoodAnswer(lay, target, Find(lay.info, lay.first, lay.last, target))
  {
    hide GoodAnswer, Search, Searching, Backward;
    var found := lay.info(lay.first);
    if found.StoreBroken() || lay.info(lay.last).StoreBroken() {
      NoAnswer(lay, target, StoreFailed);
    } else if !found.HasData() {
      NoFirstFile(lay, target);
    } else if target < found.start || (found.InStore? && target <= found.end) {
      FirstAnswers(lay, target);
    } else {
      match Backward(lay.info, lay.last, lay.first)
      case Err(e) => NoAnswer(lay, target, e);
      case Ok(None) =>
      case Ok(Some((f, start, end))) =>
        if target > start {
          LastAnswers(lay, target, f);
        } else if end.Some? && target > end.value {
          IsDismissed(lay, target, f);
        } else {
          SearchFromEnds(lay, target, f);
          SearchIsGood(lay, target, lay.first, f, found.KnownEnd(), start);
          NotDismissed(lay, target, f, Search(lay.info, target, lay.first, f, found.KnownEnd(), start));
        }
    }
  }

  lemma NoFirstFile(lay: Layout, target: nat)
    requires lay.first <= lay.last && !lay.info(lay.first).HasData()
    ensures forall r: Result<Option<nat>, LookupError> :: r.Err? || r.value.None? ==> GoodAnswer(lay, target, r)
  {
  }

  lemma FirstAnswers(lay: Layout, target: nat)
    requires lay.Holds(lay.first)
    requires target < lay.Start(lay.first) || (lay.info(lay.first).InStore? && target <= lay.info(lay.first).end)
    ensures GoodAnswer(lay, target, Ok(Some(lay.first)))
  {
    if lay.Monotone() && lay.AllHold() && lay.first < lay.last {
      assert lay.Holds(lay.first + 1) && lay.End(lay.first) <= lay.Start(lay.first + 1);
    }
  }

  lemma LastAnswers(lay: Layout, target: nat, f: nat)
    requires lay.IsLastData(f) && target > lay.Start(f)
    ensures GoodAnswer(lay, target, Ok(Some(f)))
  {
    if f < lay.last {
      assert !lay.info(f + 1).HasData();
    }
    StartsBefore(lay, target, f);
    NotDismissed(lay, target, f, Ok(Some(f)));
  }

  /** There is one last file with data. */
  lemma OneLastData(lay: Layout, f: nat, g: nat)
    requires lay.IsLastData(f) && lay.IsLastData(g)
    ensures f == g
  {
  }

  lemma IsDismissed(lay: Layout, target: nat, f: nat)
    requires lay.IsLastData(f) && lay.info(f).InStore? && lay.info(f).end < target <= lay.Start(f)
    requires lay.Holds(lay.first) && lay.Start(lay.first) <= target
    requires !(lay.info(lay.first).InStore? && target <= lay.info(lay.first).end)
    ensures GoodAnswer(lay, target, Ok(None))
  {
    assert lay.Dismissed(target);
  }

  lemma NotDismissed(lay: Layout, target: nat, f: nat, r: Result<Option<nat>, LookupError>)
    requires lay.IsLastData(f) && (target > lay.Start(f) || !lay.info(f).InStore? || target <= lay.info(f).end)
    requires GoodSearch(lay, target, r)
    ensures GoodAnswer(lay, target, r)
  {
    DismissedAt(lay, target, f);
  }

  lemma DismissedAt(lay: Layout, target: nat, f: nat)
    requires lay.IsLastData(f)
    ensures lay.Dismissed(target) ==> lay.info(f).InStore? && lay.info(f).end < target <= lay.Start(f)
  {
    if lay.Dismissed(target) {
      var g: nat :| lay.IsLastData(g) && lay.info(g).InStore? && lay.info(g).end < target <= lay.Start(g);
      OneLastData(lay, f, g);
    }
  }

  lemma SearchFromEnds(lay: Layout, target: nat, f: nat)
    requires lay.Holds(lay.first) && lay.IsLastData(f) && lay.Start(lay.first) <= target
    ensures Searching(lay, target, lay.first, f, lay.info(lay.first).KnownEnd(), lay.Start(f))
  {
    if f < lay.last {
      assert !lay.info(f + 1).HasData();
    }
  }

  lemma {:induction false} SearchInBounds(info: nat -> Info, target: nat, left: nat, right: nat, leftEnd: Option<nat>, rightStart: nat)
    requires left <= right
    ensures var r := Search(info, target, left, right, leftEnd, rightStart); r.Ok? && r.value.Some? ==> left <= r.value.value <= right
    decreases right - left
  {
    if left + 1 < right {
      var mid := (left + right) / 2;
      var found := info(mid);
      if !found.HasData() {
        var walk := Backward(info, mid, left + 1);
        if walk.Ok? && walk.value.Some? {
          SearchInBounds(info, target, left, walk.value.value.0, walk.value.value.2, walk.value.value.1);
        }
      } else {
        SearchInBounds(info, target, left, mid, leftEnd, found.start);
        SearchInBounds(info, target, mid, right, found.KnownEnd(), rightStart);
      }
    }
  }

  /** The answer is one of the files. */
  lemma FindInBounds(info: nat -> Info, first: nat, last: nat, target: nat)
    requires first <= last
    ensures var r := Find(info, first, last, target); r.Ok? && r.value.Some? ==> first <= r.value.value <= last
  {
    hide Search;
    var walk := Backward(info, last, first);
    if info(first).HasData() && walk.Ok? && walk.value.Some? {
      SearchInBounds(info, target, first, walk.value.value.0, info(first).KnownEnd(), walk.value.value.1);
    }
  }

  // ----- What a good answer means -----

  /** Wherever the target is, or the first id after it, the answer is not a later file. */
  lemma NeverTooLate(lay: Layout, target: nat, g: nat, id: nat)
    requires lay.Monotone() && lay.Holds(g) && lay.Start(g) <= id < lay.End(g) && target <= id
    ensures var r := Find(lay.info, lay.first, lay.last, target); r.Ok? && r.value.Some? ==> r.value.value <= g
  {
    hide Find;
    FindIsGood(lay, target);
  }

  /** In an ordered layout the lookup gives up on a target exactly when the last data is an empty store file that starts there. */
  lemma DismissedExactly(lay: Layout, target: nat)
    requires lay.Monotone() && lay.Holds(lay.first)
    ensures lay.Dismissed(target) <==>
              exists f: nat :: lay.IsLastData(f) && lay.info(f).InStore? && lay.info(f).end + 1 == lay.Start(f) == target
  {
    if f: nat :| lay.IsLastData(f) && lay.info(f).InStore? && lay.info(f).end + 1 == lay.Start(f) == target {
      assert lay.Holds(lay.first) && lay.first <= f;
      assert lay.first < f ==> lay.End(lay.first) <= lay.Start(f);
    }
  }

  /** Such a file is recorded when an empty WAL file is converted; the lookup then has no answer, though the file is in place. */
  lemma EmptyLastFile()
    ensures var lay := EmptyLastLayout();
            && lay.Monotone() && lay.AllHold() && lay.Contiguous() && lay.Sound() && lay.IsPlace(4, 2)
            && Find(lay.info, 1, 2, 4) == Ok(None)
  {
    var lay := EmptyLastLayout();
    assert lay.Past(4, 1);
  }

  function EmptyLastLayout(): Layout {
    Layout(1, 2, f => if f == 1 then InStore(0, 3) else InStore(4, 3), _ => 0)
  }

  /**
   * When does the answer start at or before the target, if it is not the first file? Always, unless
   * the target lies in a hole of ids right after a store file; and where every file holds data, a
   * target in such a hole always misleads the lookup.
   */
  lemma StartsBeforeExactly(lay: Layout, target: nat, r: nat)
    requires lay.Monotone() && Find(lay.info, lay.first, lay.last, target) == Ok(Some(r))
    ensures lay.Holds(r)
    ensures (forall f: nat :: !lay.InHoleBefore(target, f)) ==> r == lay.first || lay.Start(r) <= target
    ensures lay.AllHold() ==>
              (r == lay.first || lay.Start(r) <= target <==> forall f: nat :: !lay.InHoleBefore(target, f))
  {
    hide Find;
    FindIsGood(lay, target);
    if lay.AllHold() {
      forall f: nat | lay.InHoleBefore(target, f)
        ensures r == f
      {
        HoleIsPlace(lay, target, f, r);
      }
    }
  }

  /** The place of a target in a hole is the file after the hole. */
  lemma HoleIsPlace(lay: Layout, target: nat, f: nat, r: nat)
    requires lay.Monotone() && lay.AllHold() && lay.InHoleBefore(target, f) && lay.IsPlace(target, r)
    ensures r == f && f != lay.first
  {
    assert lay.Past(target, f - 1);
    if f < lay.last {
      assert lay.Holds(f + 1) && lay.Start(f) <= lay.End(f) <= lay.Start(f + 1);
    }
    assert !lay.Past(target, f);
  }

  /** With no file missing or empty and no id missing, the answer is the one file the target belongs to. */
  lemma ExactFile(lay: Layout, target: nat, r: nat)
    requires lay.Monotone() && lay.AllHold() && lay.Contiguous()
    requires Find(lay.info, lay.first, lay.last, target) == Ok(Some(r))
    ensures lay.Holds(r)
    ensures target < lay.Start(lay.first) ==> r == lay.first
    ensures target >= lay.Start(lay.first) ==>
              lay.Start(r) <= target && (r == lay.last || target < lay.Start(r + 1))
    ensures forall f: nat :: lay.Holds(f) && lay.Start(f) <= target && (f == lay.last || target < lay.Start(f + 1)) ==>
              f == r
  {
    hide Find;
    FindIsGood(lay, target);
    if r > lay.first {
      assert lay.Holds(r - 1) && lay.Past(target, r - 1);
    }
  }

  /** A hole does mislead the lookup: store files 0..3 and 8..9, and the answer for 5 is the file that starts at 8. */
  lemma HoleOvershoots()
    ensures var lay := Layout(1, 2, f => if f == 1 then InStore(0, 3) else InStore(8, 9), _ => 0);
            lay.Monotone() && lay.AllHold() && Find(lay.info, 1, 2, 5) == Ok(Some(2)) && lay.Start(2) > 5
  {
  }

  // ----- When the lookup fails -----

  /** The search comes to a file of unknown end, not after the target, whose next file holds no data. */
  predicate Stumbles(info: nat -> Info, target: nat, left: nat, right: nat)
    requires left <= right
    decreases right - left
  {
    left + 1 < right &&
    var mid := (left + right) / 2;
    var found := info(mid);
    if !found.HasData() then
      var walk := Backward(info, mid, left + 1);
      walk.Ok? && walk.value.Some? && Stumbles(info, target, left, walk.value.value.0)
    else if target < found.start then Stumbles(info, target, left, mid)
    else if found.InStore? then target > found.end && Stumbles(info, target, mid, right)
    else !info(mid + 1).HasData() || (target >= info(mid + 1).start && Stumbles(info, target, mid, right))
  }

  lemma {:induction false} SearchFailsExactly(info: nat -> Info, target: nat, left: nat, right: nat,
                                              leftEnd: Option<nat>, rightStart: nat)
    requires left <= right && forall g: nat :: left <= g <= right ==> !info(g).Broken?
    ensures var r := Search(info, target, left, right, leftEnd, rightStart);
            (r.Err? <==> Stumbles(info, target, left, right)) && (r.Ok? ==> r.value.Some?)
    decreases right - left
  {
    if left + 1 < right {
      var mid := (left + right) / 2;
      var found := info(mid);
      if !found.HasData() {
        var walk := Backward(info, mid, left + 1);
        if walk.Ok? && walk.value.Some? {
          SearchFailsExactly(info, target, left, walk.value.value.0, walk.value.value.2, walk.value.value.1);
        }
      } else if target < found.start {
        SearchFailsExactly(info, target, left, mid, leftEnd, found.start);
      } else {
        SearchFailsExactly(info, target, mid, right, found.KnownEnd(), rightStart);
      }
    }
  }

  /**
   * Where no file is broken and the first one holds data, the lookup fails on a target exactly when
   * the target is neither answered from the first or last file nor dismissed, and the search between
   * these two stumbles.
   */
  lemma FindFailsExactly(lay: Layout, target: nat, f: nat)
    requires lay.Holds(lay.first) && lay.IsLastData(f)
    requires forall g: nat :: lay.first <= g <= lay.last ==> !lay.info(g).Broken?
    ensures var r := Find(lay.info, lay.first, lay.last, target);
            && (r.Err? <==>
                  && lay.Start(lay.first) <= target <= lay.Start(f) && !lay.Dismissed(target)
                  && !(lay.info(lay.first).InStore? && target <= lay.info(lay.first).end)
                  && Stumbles(lay.info, target, lay.first, f))
            && (r == Ok(None) <==> lay.Dismissed(target))
  {
    hide Search, Stumbles;
    LastIsFound(lay.info, lay.first, lay.last, f);
    var found := lay.info(lay.first);
    SearchFailsExactly(lay.info, target, lay.first, f, found.KnownEnd(), lay.Start(f));
    DismissedAt(lay, target, f);
  }

  lemma {:induction false} LastIsFound(info: nat -> Info, first: nat, last: nat, f: nat)
    requires first <= f <= last && info(f).HasData()
    requires forall g: nat :: f < g <= last ==> !info(g).HasData() && !info(g).Broken?
    ensures Backward(info, last, first) == Ok(Some((f, info(f).start, info(f).KnownEnd())))
    decreases last
  {
    if f < last {
      LastIsFound(info, first, last - 1, f);
    }
  }

  /** The search stumbles only where a WAL file is followed by one without data. */
  lemma {:induction false} NoStumbling(info: nat -> Info, target: nat, left: nat, right: nat)
    requires left <= right
    requires forall g: nat :: left < g < right && info(g).InWal? ==> info(g + 1).HasData()
    ensures !Stumbles(info, target, left, right)
    decreases right - left
  {
    if left + 1 < right {
      var mid := (left + right) / 2;
      var walk := Backward(info, mid, left + 1);
      if walk.Ok? && walk.value.Some? {
        NoStumbling(info, target, left, walk.value.value.0);
      }
      NoStumbling(info, target, left, mid);
      NoStumbling(info, target, mid, right);
    }
  }

  /** It does stumble: WAL files 1, 2 and 4, file 3 gone, and a target in file 2. */
  lemma MissingFileFails()
    ensures var lay := Layout(1, 4, (f: nat) => if f == 3 then Missing else InWal(10 * f), (f: nat) => 10 * f + 10);
            && lay.Holds(2) && lay.Start(2) <= 25 < lay.End(2)
            && Find(lay.info, 1, 4, 25) == Err(WalNotFound)
  {
  }

  /** The error tells what stands in the way: of the file after a WAL file, as in the layout before. */
  lemma OddNextFile(next: Info)
    requires !next.HasData()
    ensures var info := (f: nat) => if f == 3 then next else InWal(10 * f);
            Find(info, 1, 4, 25) == Err(match next
                                        case Missing => WalNotFound
                                        case EmptyWal => FileNotFound
                                        case Broken(inStore) => if inStore then StoreFailed else WalFailed
                                        case _ => WalFailed)
  {
    var info := (f: nat) => if f == 3 then next else InWal(10 * f);
    assert Backward(info, 4, 1) == Ok(Some((4, 40, None)));
    assert Search(info, 25, 1, 4, None, 40) == Err(NextError(next));
  }

  /**
   * The ends of the range come first: a store that cannot be read at either end, then a first file that
   * is missing, has no whole header or is broken. Walking back from the end, the nearest broken file decides.
   */
  lemma EndsDecide(info: nat -> Info, first: nat, last: nat, target: nat, g: nat)
    requires first <= last
    ensures var r := Find(info, first, last, target);
            && (info(first) == Broken(true) || info(last) == Broken(true) ==> r == Err(StoreFailed))
            && (info(first) != Broken(true) && info(last) != Broken(true) ==>
                  && (info(first).Missing? ==> r == Err(WalNotFound))
                  && (info(first).EmptyWal? ==> r == Ok(None))
                  && (info(first) == Broken(false) ==> r == Err(WalFailed))
                  && (info(first).HasData() && target < info(first).start ==> r == Ok(Some(first)))
                  && (info(first).InStore? && info(first).start <= target <= info(first).end ==> r == Ok(Some(first)))
                  && (info(first).HasData() && target >= info(first).start && !(info(first).InStore? && target <= info(first).end)
                      && first < g <= last && info(g).Broken? && (forall f: nat :: g < f <= last ==> info(f).Missing? || info(f).EmptyWal?) ==>
                        r == Err(if info(g).inStore then StoreFailed else WalFailed)))
  {
    hide Search;
    if first < g <= last && info(g).Broken? && (forall f: nat :: g < f <= last ==> info(f).Missing? || info(f).EmptyWal?) {
      BrokenFirst(info, last, first, g);
    }
  }

  lemma {:induction false} BrokenFirst(info: nat -> Info, s: nat, min: nat, g: nat)
    requires min <= g <= s && info(g).Broken? && forall f: nat :: g < f <= s ==> info(f).Missing? || info(f).EmptyWal?
    ensures Backward(info, s, min) == Err(BrokenError(info(g)))
    decreases s
  {
    if g < s {
      BrokenFirst(info, s - 1, min, g);
    }
  }
}
