/**
 * The reader: a state machine that looks up a file, walks files forward, parses them, fetches the
 * next one ahead of time, and finishes from memory. Reads have a limit; storage stays as it is
 * while a read runs.
 */
module ReaderFsm {
  import opened Outcomes
  import opened Bytes
  import opened WalCodec
  import opened Selection
  import opened WalReader
  import opened MemQueues
  import Lookup

  type Count = n: nat | n >= 1 witness 1

  datatype FileRead = Got(bytes: Bytes) | Absent | ReadFailed

  datatype ReadError = QueueNotFound | NotFound | StoreFailed | WalFailed

  /** All a read depends on. Extracting a store file gives WAL bytes or fails. */
  datatype Env = Env(hash: Hash, store: nat -> FileRead, wal: nat -> FileRead, extract: (nat, Bytes) -> Option<Bytes>,
                     mem: Mem, find: nat -> Result<Option<nat>, Lookup.LookupError>)

  datatype Context = Context(fileId: nat, nextId: nat, step: Count, lastId: nat)

  type Fetched = Result<Option<Bytes>, ReadError>

  datatype State =
    | LookupPositive(offset: nat, limit: Count)
    | LookupNegative(offset: nat, limit: Count)
    | LookupFile(startId: nat, endId: nat)
    | ReadFile(ctx: Context)
    | ReadStore(ctx: Context)
    | ReadWal(ctx: Context)
    | ExtractWalBytes(ctx: Context, storeBytes: Bytes)
    | ParseWalBytes(ctx: Context, walBytes: Bytes)
    | ReadNextFile(current: nat, ctx: Context, prefetch: Option<Fetched>)
    | Completed
    | Failed(error: ReadError)
  {
    predicate Terminal() {
      Completed? || Failed?
    }
  }

  /** The next state and the entries sent on the way to it. */
  datatype Move = Move(state: State, sent: seq<Entry>)

  // ----- The transitions -----

  /** The WAL bytes of a file: out of the store if it is there, else out of the WAL. */
  function Fetch(env: Env, id: nat): Fetched {
    match env.store(id)
    case Got(bytes) => Ok(env.extract(id, bytes))
    case ReadFailed => Err(StoreFailed)
    case Absent =>
      match env.wal(id)
      case Got(bytes) => Ok(Some(bytes))
      case Absent => Ok(None)
      case ReadFailed => Err(WalFailed)
  }

  function ShouldPrefetch(ctx: Context): bool {
    ctx.step == 1 && ctx.nextId < ctx.lastId
  }

  function HandleLookupPositive(env: Env, offset: nat, limit: Count, step: Count): Move {
    var end := EndOf(offset, limit, step);
    var r := ReadFull(env.mem, offset, end, step);
    Move(if r.success then Completed else LookupFile(offset, end), r.sent)
  }

  function HandleLookupNegative(env: Env, offset: nat, limit: Count, step: Count): Move {
    var r := ReadFullNegative(env.mem, offset, step, limit);
    Move(if r.success then Completed
         else if r.startId.None? then Failed(QueueNotFound)
         else LookupFile(r.startId.value, EndOf(r.startId.value, limit, step)), r.sent)
  }

  function HandleLookupFile(env: Env, start: nat, end: nat, step: Count): State {
    match env.find(start)
    case Ok(Some(id)) => ReadFile(Context(id, start, step, end))
    case Ok(None) => Failed(QueueNotFound)
    case Err(_) => Failed(NotFound)
  }

  function HandleReadStore(env: Env, ctx: Context): State {
    match env.store(ctx.fileId)
    case Got(bytes) => ExtractWalBytes(ctx, bytes)
    case Absent => ReadWal(ctx)
    case ReadFailed => Failed(StoreFailed)
  }

  function HandleReadWal(env: Env, ctx: Context): State {
    match env.wal(ctx.fileId)
    case Got(bytes) => ParseWalBytes(ctx, bytes)
    case Absent => ReadNextFile(ctx.fileId, ctx, None)
    case ReadFailed => Failed(WalFailed)
  }

  function HandleExtract(env: Env, ctx: Context, storeBytes: Bytes): State {
    match env.extract(ctx.fileId, storeBytes)
    case Some(bytes) => ParseWalBytes(ctx, bytes)
    case None => ReadNextFile(ctx.fileId, ctx, None)
  }

  function HandleParse(env: Env, ctx: Context, walBytes: Bytes, prefetching: bool): Move {
    var ahead := if prefetching && ShouldPrefetch(ctx) then Some(Fetch(env, ctx.fileId + 1)) else None;
    var r := BytesRange(env.hash, walBytes, ctx.nextId, Some(ctx.lastId), ctx.step);
    match r.result
    case Ok(Complete) => Move(Completed, r.sent)
    case Ok(PartialRead(lastReadId, _)) =>
      var next := if lastReadId.Some? then lastReadId.value + ctx.step else ctx.nextId;
      Move(ReadNextFile(ctx.fileId, ctx.(nextId := next), ahead), r.sent)
    case Err(_) => Move(ReadNextFile(ctx.fileId, ctx, ahead), r.sent)
  }

  function HandleReadNextFile(env: Env, current: nat, ctx: Context, prefetch: Option<Fetched>): Move {
    if env.mem.lastId.Some? && ctx.nextId > env.mem.lastId.value then Move(Completed, [])
    else
      var r := ReadFull(env.mem, ctx.nextId, ctx.lastId, ctx.step);
      if r.success then Move(Completed, r.sent)
      else
        var next := current + 1;
        match prefetch
        case None => Move(ReadFile(ctx.(fileId := next)), r.sent)
        case Some(Ok(Some(bytes))) => Move(ParseWalBytes(ctx.(fileId := next), bytes), r.sent)
        case Some(Ok(None)) => Move(ReadNextFile(next, ctx, None), r.sent)
        case Some(Err(e)) => Move(Failed(e), r.sent)
  }

  function Transition(env: Env, state: State, step: Count, prefetching: bool): Move {
    match state
    case LookupPositive(offset, limit) => HandleLookupPositive(env, offset, limit, step)
    case LookupNegative(offset, limit) => HandleLookupNegative(env, offset, limit, step)
    case LookupFile(start, end) => Move(HandleLookupFile(env, start, end, step), [])
    case ReadFile(ctx) => Move(ReadStore(ctx), [])
    case ReadStore(ctx) => Move(HandleReadStore(env, ctx), [])
    case ReadWal(ctx) => Move(HandleReadWal(env, ctx), [])
    case ExtractWalBytes(ctx, bytes) => Move(HandleExtract(env, ctx, bytes), [])
    case ParseWalBytes(ctx, bytes) => HandleParse(env, ctx, bytes, prefetching)
    case ReadNextFile(current, ctx, prefetch) => HandleReadNextFile(env, current, ctx, prefetch)
    case _ => Move(state, [])
  }

  // ----- What a read comes to -----

  /** Everything sent, and how the read ends, if it does. */
  datatype Outcome = Done(sent: seq<Entry>) | Broke(sent: seq<Entry>, error: ReadError) | Never(sent: seq<Entry>)

  function Prepend(sent: seq<Entry>, o: Outcome): Outcome {
    o.(sent := sent + o.sent)
  }

  /** From this file id on there is no file. */
  ghost predicate NothingAfter(env: Env, bound: nat) {
    forall id: nat :: id > bound ==> env.store(id).Absent? && env.wal(id).Absent?
  }

  /** Whether a read is over after a file: past the end, or served from memory. */
  function AfterFile(env: Env, next: nat, last: nat, step: Count): Option<seq<Entry>> {
    if env.mem.lastId.Some? && next > env.mem.lastId.value then Some([])
    else
      var r := ReadFull(env.mem, next, last, step);
      if r.success then Some(r.sent) else None
  }

  function FromNext(env: Env, bound: nat, current: nat, next: nat, last: nat, step: Count): Outcome
    decreases if current > bound then 0 else bound + 1 - current, 0
  {
    match AfterFile(env, next, last, step)
    case Some(sent) => Done(sent)
    case None => if current >= bound then Never([]) else FromFile(env, bound, current + 1, next, last, step)
  }

  function FromBytes(env: Env, bound: nat, f: nat, bytes: Bytes, next: nat, last: nat, step: Count): Outcome
    decreases if f > bound then 0 else bound + 1 - f, 1
  {
    var r := BytesRange(env.hash, bytes, next, Some(last), step);
    match r.result
    case Ok(Complete) => Done(r.sent)
    case Ok(PartialRead(lastReadId, _)) =>
      Prepend(r.sent, FromNext(env, bound, f, if lastReadId.Some? then lastReadId.value + step else next, last, step))
    case Err(_) => Prepend(r.sent, FromNext(env, bound, f, next, last, step))
  }

  function FromFile(env: Env, bound: nat, f: nat, next: nat, last: nat, step: Count): Outcome
    decreases if f > bound then 0 else bound + 1 - f, 2
  {
    match Fetch(env, f)
    case Err(e) => Broke([], e)
    case Ok(None) => FromNext(env, bound, f, next, last, step)
    case Ok(Some(bytes)) => FromBytes(env, bound, f, bytes, next, last, step)
  }

  function FromLookup(env: Env, bound: nat, start: nat, end: nat, step: Count): Outcome {
    match env.find(start)
    case Ok(Some(f)) => FromFile(env, bound, f, start, end, step)
    case Ok(None) => Broke([], QueueNotFound)
    case Err(_) => Broke([], NotFound)
  }

  /** The outcome of a read that has come to a given state, whatever is fetched ahead. */
  function Meaning(env: Env, bound: nat, state: State, step: Count): Outcome {
    match state
    case LookupPositive(offset, limit) =>
      var r := ReadFull(env.mem, offset, EndOf(offset, limit, step), step);
      if r.success then Done(r.sent) else FromLookup(env, bound, offset, EndOf(offset, limit, step), step)
    case LookupNegative(offset, limit) =>
      var r := ReadFullNegative(env.mem, offset, step, limit);
      if r.success || r.startId.None? then Done(r.sent)
      else FromLookup(env, bound, r.startId.value, EndOf(r.startId.value, limit, step), step)
    case LookupFile(start, end) => FromLookup(env, bound, start, end, step)
    case ReadFile(ctx) => FromFile(env, bound, ctx.fileId, ctx.nextId, ctx.lastId, ctx.step)
    case ReadStore(ctx) => FromFile(env, bound, ctx.fileId, ctx.nextId, ctx.lastId, ctx.step)
    case ReadWal(ctx) =>
      (match env.wal(ctx.fileId)
       case Got(bytes) => FromBytes(env, bound, ctx.fileId, bytes, ctx.nextId, ctx.lastId, ctx.step)
       case Absent => FromNext(env, bound, ctx.fileId, ctx.nextId, ctx.lastId, ctx.step)
       case ReadFailed => Broke([], WalFailed))
    case ExtractWalBytes(ctx, storeBytes) =>
      (match env.extract(ctx.fileId, storeBytes)
       case Some(bytes) => FromBytes(env, bound, ctx.fileId, bytes, ctx.nextId, ctx.lastId, ctx.step)
       case None => FromNext(env, bound, ctx.fileId, ctx.nextId, ctx.lastId, ctx.step))
    case ParseWalBytes(ctx, bytes) => FromBytes(env, bound, ctx.fileId, bytes, ctx.nextId, ctx.lastId, ctx.step)
    case ReadNextFile(current, ctx, _) => FromNext(env, bound, current, ctx.nextId, ctx.lastId, ctx.step)
    case Completed => Done([])
    case Failed(e) => Broke([], e)
  }

  /** What was fetched ahead is what fetching would give now. */
  predicate PrefetchOk(env: Env, state: State) {
    state.ReadNextFile? && state.prefetch.Some? ==> state.prefetch.value == Fetch(env, state.current + 1)
  }

  lemma PrependNothing(o: Outcome)
    ensures Prepend([], o) == o
  {
    assert [] + o.sent == o.sent;
  }

  /** Memory that refuses a read sends nothing. */
  lemma RefusedReadSendsNothing(m: Mem, start: nat, end: nat, step: Count)
    ensures var r := ReadFull(m, start, end, step); !r.success ==> r.sent == []
  {
  }

  /** Beyond all files the walk only repeats itself. */
  lemma BeyondAllFiles(env: Env, bound: nat, f: nat, next: nat, last: nat, step: Count)
    requires NothingAfter(env, bound) && f > bound
    ensures FromFile(env, bound, f, next, last, step) == FromNext(env, bound, f, next, last, step)
  {
  }

  /** A step of the machine sends a front part of what its state stands for; the new state stands for the rest. */
  lemma StepMeaning(env: Env, bound: nat, state: State, step: Count, prefetching: bool)
    requires NothingAfter(env, bound) && PrefetchOk(env, state) && !state.Terminal()
    ensures var m := Transition(env, state, step, prefetching);
            && PrefetchOk(env, m.state)
            && Meaning(env, bound, state, step) == Prepend(m.sent, Meaning(env, bound, m.state, step))
  {
    hide BytesRange, ReadFull, ReadFullNegative, NothingAfter;
    var m := Transition(env, state, step, prefetching);
    PrependNothing(Meaning(env, bound, m.state, step));
    match state {
      case LookupPositive(offset, limit) => RefusedReadSendsNothing(env.mem, offset, EndOf(offset, limit, step), step);
      case LookupNegative(offset, limit) => RefusedTailReadSendsNothing(env.mem, offset, step, limit);
      case ReadNextFile(current, ctx, prefetch) =>
        RefusedReadSendsNothing(env.mem, ctx.nextId, ctx.lastId, ctx.step);
        NextFileMeaning(env, bound, current, ctx, step);
      case _ =>
    }
    assert m.sent + [] == m.sent;
  }

  lemma RefusedTailReadSendsNothing(m: Mem, offset: nat, step: Count, limit: Count)
    ensures var r := ReadFullNegative(m, offset, step, limit); r.startId.Some? && (!r.success ==> r.sent == [])
  {
  }

  /** Moving on to the next file, by whatever way its bytes come. */
  lemma NextFileMeaning(env: Env, bound: nat, current: nat, ctx: Context, step: Count)
    requires NothingAfter(env, bound)
    ensures AfterFile(env, ctx.nextId, ctx.lastId, ctx.step).None? ==>
              FromNext(env, bound, current, ctx.nextId, ctx.lastId, ctx.step)
              == FromFile(env, bound, current + 1, ctx.nextId, ctx.lastId, ctx.step)
  {
    hide BytesRange, ReadFull;
    if current >= bound {
      BeyondAllFiles(env, bound, current + 1, ctx.nextId, ctx.lastId, ctx.step);
    }
  }

  // ----- Whole runs of the machine -----

  /** The state after n transitions, and everything sent. A terminal state stays. */
  function Steps(env: Env, state: State, step: Count, prefetching: bool, n: nat): Move
    decreases n
  {
    if n == 0 || state.Terminal() then Move(state, [])
    else
      var m := Transition(env, state, step, prefetching);
      var rest := Steps(env, m.state, step, prefetching, n - 1);
      Move(rest.state, m.sent + rest.sent)
  }

  /** How a terminal state shows as an outcome. */
  function Ending(m: Move): Outcome
    requires m.state.Terminal()
  {
    if m.state.Completed? then Done(m.sent) else Broke(m.sent, m.state.error)
  }

  lemma PrependTwice(a: seq<Entry>, b: seq<Entry>, o: Outcome)
    ensures Prepend(a, Prepend(b, o)) == Prepend(a + b, o)
  {
    assert a + (b + o.sent) == (a + b) + o.sent;
  }

  /** Over any number of steps, what was sent and what the state reached stands for add up to the outcome. */
  lemma {:induction false} StepsMeaning(env: Env, bound: nat, state: State, step: Count, prefetching: bool, n: nat)
    requires NothingAfter(env, bound) && PrefetchOk(env, state)
    ensures var m := Steps(env, state, step, prefetching, n);
            && PrefetchOk(env, m.state)
            && Meaning(env, bound, state, step) == Prepend(m.sent, Meaning(env, bound, m.state, step))
    decreases n
  {
    hide Transition, Meaning, NothingAfter, PrefetchOk;
    PrependNothing(Meaning(env, bound, state, step));
    if n > 0 && !state.Terminal() {
      StepMeaning(env, bound, state, step, prefetching);
      var m := Transition(env, state, step, prefetching);
      StepsMeaning(env, bound, m.state, step, prefetching, n - 1);
      var rest := Steps(env, m.state, step, prefetching, n - 1);
      PrependTwice(m.sent, rest.sent, Meaning(env, bound, rest.state, step));
    }
  }

  lemma TerminalMeaning(env: Env, bound: nat, state: State, step: Count)
    requires state.Terminal()
    ensures Meaning(env, bound, state, step) == Ending(Move(state, []))
  {
  }

  /** Files still ahead. */
  function Ahead(bound: nat, f: nat): nat {
    if f > bound then 0 else bound + 1 - f
  }

  /** Falls with every step of a read that comes to an end. */
  function Rank(bound: nat, state: State): nat {
    match state
    case LookupPositive(_, _) => 8 * (bound + 2) + 7
    case LookupNegative(_, _) => 8 * (bound + 2) + 7
    case LookupFile(_, _) => 8 * (bound + 2) + 6
    case ReadFile(ctx) => 8 * Ahead(bound, ctx.fileId) + 5
    case ReadStore(ctx) => 8 * Ahead(bound, ctx.fileId) + 4
    case ReadWal(ctx) => 8 * Ahead(bound, ctx.fileId) + 3
    case ExtractWalBytes(ctx, _) => 8 * Ahead(bound, ctx.fileId) + 3
    case ParseWalBytes(ctx, _) => 8 * Ahead(bound, ctx.fileId) + 2
    case ReadNextFile(current, _, _) => 8 * Ahead(bound, current) + 1
    case _ => 0
  }

  lemma RankFalls(env: Env, bound: nat, state: State, step: Count, prefetching: bool)
    requires !state.Terminal() && !Meaning(env, bound, state, step).Never?
    ensures Rank(bound, Transition(env, state, step, prefetching).state) < Rank(bound, state)
  {
    hide BytesRange, ReadFull, ReadFullNegative, FromFile, FromBytes;
  }

  /** A read whose outcome is an end gets there. */
  lemma {:induction false} Ends(env: Env, bound: nat, state: State, step: Count, prefetching: bool) returns (n: nat)
    requires NothingAfter(env, bound) && PrefetchOk(env, state) && !Meaning(env, bound, state, step).Never?
    ensures var m := Steps(env, state, step, prefetching, n);
            m.state.Terminal() && Ending(m) == Meaning(env, bound, state, step)
    decreases Rank(bound, state)
  {
    hide Transition, Meaning, NothingAfter, PrefetchOk, Rank;
    if state.Terminal() {
      n := 0;
      TerminalMeaning(env, bound, state, step);
    } else {
      StepMeaning(env, bound, state, step, prefetching);
      RankFalls(env, bound, state, step, prefetching);
      var k := Ends(env, bound, Transition(env, state, step, prefetching).state, step, prefetching);
      n := k + 1;
    }
  }

  /** The machine comes to an end after some number of steps, with this state and these entries sent. */
  ghost predicate EndsWith(env: Env, state: State, step: Count, prefetching: bool, end: Move) {
    end.state.Terminal() && exists n: nat :: Steps(env, state, step, prefetching, n) == end
  }

  /** The machine ends in exactly the way its outcome says, and never if the outcome says so. */
  lemma EndsExactly(env: Env, bound: nat, state: State, step: Count, prefetching: bool, end: Move)
    requires NothingAfter(env, bound) && PrefetchOk(env, state) && end.state.Terminal()
    ensures EndsWith(env, state, step, prefetching, end) <==> Meaning(env, bound, state, step) == Ending(end)
  {
    hide Transition, Meaning, NothingAfter, PrefetchOk, Steps;
    if Meaning(env, bound, state, step) == Ending(end) {
      var n := Ends(env, bound, state, step, prefetching);
    }
    if EndsWith(env, state, step, prefetching, end) {
      var n: nat :| Steps(env, state, step, prefetching, n) == end;
      StepsMeaning(env, bound, state, step, prefetching, n);
      TerminalMeaning(env, bound, end.state, step);
      assert end.sent + [] == end.sent;
    }
  }

  /**
   * Fetching the next file ahead changes nothing: from any state where nothing wrong was fetched,
   * the machine with it and the machine without it end the same way with the same entries sent, or
   * both never end, whatever files are missing, unreadable or cannot be extracted.
   */
  lemma PrefetchMakesNoDifference(env: Env, bound: nat, state: State, step: Count, end: Move)
    requires NothingAfter(env, bound) && PrefetchOk(env, state) && end.state.Terminal()
    ensures EndsWith(env, state, step, true, end) <==> EndsWith(env, state, step, false, end)
  {
    hide EndsWith, Meaning, NothingAfter, PrefetchOk;
    EndsExactly(env, bound, state, step, true, end);
    EndsExactly(env, bound, state, step, false, end);
  }

  /** How reads end that memory does not serve and the lookup does not answer. */
  lemma UnansweredEnds(env: Env, offset: nat, limit: Count, step: Count, prefetching: bool)
    requires !ReadFull(env.mem, offset, EndOf(offset, limit, step), step).success
    ensures env.find(offset).Err? ==> EndsWith(env, LookupPositive(offset, limit), step, prefetching, Move(Failed(NotFound), []))
    ensures env.find(offset) == Ok(None) ==> EndsWith(env, LookupPositive(offset, limit), step, prefetching, Move(Failed(QueueNotFound), []))
  {
    hide ReadFull;
    RefusedReadSendsNothing(env.mem, offset, EndOf(offset, limit, step), step);
    if env.find(offset).Err? || env.find(offset).value.None? {
      var state := LookupPositive(offset, limit);
      var m := Transition(env, state, step, prefetching);
      assert m.state == LookupFile(offset, EndOf(offset, limit, step));
      var end := Transition(env, m.state, step, prefetching).state;
      assert Steps(env, end, step, prefetching, 0) == Move(end, []);
      assert Steps(env, m.state, step, prefetching, 1) == Move(end, []);
      assert Steps(env, state, step, prefetching, 2) == Move(end, []);
    }
  }

  /** A read from the tail of a queue without entries has nothing to wait for. */
  lemma EmptyTailEnds(env: Env, offset: nat, limit: Count, step: Count, prefetching: bool)
    requires env.mem.lastId.None?
    ensures EndsWith(env, LookupNegative(offset, limit), step, prefetching, Move(Completed, []))
  {
    assert Steps(env, Completed, step, prefetching, 0) == Move(Completed, []);
    assert Steps(env, LookupNegative(offset, limit), step, prefetching, 1) == Move(Completed, []);
  }

  /**
   * What becomes of a read at a file. A tier that cannot be read ends it with that tier's error; the
   * WAL is asked only when the store has no such file. A file that is missing, cannot be extracted or
   * has no readable header is passed over.
   */
  lemma FaultyFile(env: Env, bound: nat, ctx: Context, step: Count, prefetching: bool, end: Move)
    requires NothingAfter(env, bound) && end.state.Terminal()
    ensures env.store(ctx.fileId).ReadFailed? ==>
              (EndsWith(env, ReadFile(ctx), step, prefetching, end) <==> end == Move(Failed(StoreFailed), []))
    ensures env.store(ctx.fileId).Absent? && env.wal(ctx.fileId).ReadFailed? ==>
              (EndsWith(env, ReadFile(ctx), step, prefetching, end) <==> end == Move(Failed(WalFailed), []))
    ensures (env.store(ctx.fileId).Absent? && env.wal(ctx.fileId).Absent?)
            || (env.store(ctx.fileId).Got? && env.extract(ctx.fileId, env.store(ctx.fileId).bytes).None?)
            || (env.store(ctx.fileId).Got? && Unreadable(env.extract(ctx.fileId, env.store(ctx.fileId).bytes)))
            || (env.store(ctx.fileId).Absent? && env.wal(ctx.fileId).Got? && Unreadable(Some(env.wal(ctx.fileId).bytes))) ==>
              (EndsWith(env, ReadFile(ctx), step, prefetching, end) <==> EndsWith(env, ReadNextFile(ctx.fileId, ctx, None), step, prefetching, end))
  {
    hide NothingAfter, EndsWith, BytesRange, ReadFull, HeaderFromBytes, FromNext, Unreadable;
    EndsExactly(env, bound, ReadFile(ctx), step, prefetching, end);
    EndsExactly(env, bound, ReadNextFile(ctx.fileId, ctx, None), step, prefetching, end);
    match Fetch(env, ctx.fileId) {
      case Ok(Some(bytes)) =>
        if Unreadable(Some(bytes)) {
          UnreadableBytes(env, bound, ctx.fileId, bytes, ctx.nextId, ctx.lastId, ctx.step);
        }
      case _ =>
    }
  }

  lemma UnreadableBytes(env: Env, bound: nat, f: nat, bytes: Bytes, next: nat, last: nat, step: Count)
    requires Unreadable(Some(bytes))
    ensures FromBytes(env, bound, f, bytes, next, last, step) == FromNext(env, bound, f, next, last, step)
  {
    hide WalkRange, FromNext, HeaderFromBytes;
    PrependNothing(FromNext(env, bound, f, next, last, step));
  }

  /** WAL bytes without a header that can be read. */
  predicate Unreadable(bytes: Option<Bytes>) {
    bytes.Some? && (bytes.value == [] || HeaderFromBytes(bytes.value).Err?)
  }

  /**
   * After a file that did not end the read, the next one has been fetched ahead exactly when that is
   * switched on, every entry is asked for, and more than the one the file was opened for.
   */
  lemma FetchesAhead(env: Env, ctx: Context, bytes: Bytes, step: Count, prefetching: bool)
    ensures var state := Transition(env, ParseWalBytes(ctx, bytes), step, prefetching).state;
            state.ReadNextFile? ==>
              && state.current == ctx.fileId
              && state.prefetch == if prefetching && ctx.step == 1 && ctx.nextId < ctx.lastId then Some(Fetch(env, ctx.fileId + 1)) else None
  {
    hide BytesRange, Fetch;
  }

  /** A read whose outcome is never to end is never over, after any number of steps. */
  lemma NeverOver(env: Env, bound: nat, state: State, step: Count, prefetching: bool, n: nat)
    requires NothingAfter(env, bound) && PrefetchOk(env, state) && Meaning(env, bound, state, step).Never?
    ensures !Steps(env, state, step, prefetching, n).state.Terminal()
  {
    hide Transition, NothingAfter, PrefetchOk, Steps;
    StepsMeaning(env, bound, state, step, prefetching, n);
  }

  datatype Position = Absolute(offset: nat) | ShiftFromTail(offset: nat)

  function Begin(position: Position, limit: Count): State {
    match position
    case Absolute(offset) => LookupPositive(offset, limit)
    case ShiftFromTail(offset) => LookupNegative(offset, limit)
  }

  /**
   * The read loop, for any number of rounds: a read that comes to an end is over after as many as its
   * rank, with the outcome that was specified; one that does not is over after none.
   */
  method Read(env: Env, position: Position, limit: Count, step: Count, rounds: nat, ghost bound: nat)
    returns (result: Option<Result<bool, ReadError>>, sent: seq<Entry>)
    requires NothingAfter(env, bound)
    ensures result.Some? ==>
              && Meaning(env, bound, Begin(position, limit), step)
                 == (if result.value.Ok? then Done(sent) else Broke(sent, result.value.error))
              && (result.value.Ok? ==> result.value.value == false)
    ensures result.None? ==>
              && sent <= Meaning(env, bound, Begin(position, limit), step).sent
              && (Meaning(env, bound, Begin(position, limit), step).Never? || rounds < Rank(bound, Begin(position, limit)))
    ensures Meaning(env, bound, Begin(position, limit), step).Never? ==> result.None?
  {
    hide Transition, Meaning, NothingAfter, PrefetchOk, Rank;
    var state := Begin(position, limit);
    sent := [];
    ghost var whole := Meaning(env, bound, state, step);
    PrependNothing(whole);
    assert PrefetchOk(env, state) by { NothingFetchedYet(env, position, limit); }
    var i := 0;
    while !state.Terminal() && i < rounds
      invariant PrefetchOk(env, state) && whole == Prepend(sent, Meaning(env, bound, state, step)) && i <= rounds
      invariant !whole.Never? ==> Rank(bound, state) + i <= Rank(bound, Begin(position, limit))
    {
      StepMeaning(env, bound, state, step, true);
      if !whole.Never? {
        RankFalls(env, bound, state, step, true);
      }
      var m := Transition(env, state, step, true);
      PrependTwice(sent, m.sent, Meaning(env, bound, m.state, step));
      state, sent := m.state, sent + m.sent;
      i := i + 1;
    }
    if !state.Terminal() {
      RunningHasRank(bound, state);
      return None, sent;
    }
    TerminalMeaning(env, bound, state, step);
    assert sent + [] == sent;
    result := Some(if state.Completed? then Ok(false) else Err(state.error));
  }

  lemma RunningHasRank(bound: nat, state: State)
    ensures !state.Terminal() ==> Rank(bound, state) > 0
  {
  }

  lemma NothingFetchedYet(env: Env, position: Position, limit: Count)
    ensures PrefetchOk(env, Begin(position, limit))
  {
  }

  /**
   * A limited read from the tail and the absolute read from the id it resolves to come to the same:
   * the same entries, the same end, although one counts entries and the other bounds ids.
   */
  lemma TailReadIsAbsolute(env: Env, bound: nat, offset: nat, limit: Count, step: Count)
    requires env.mem.Valid()
    ensures Meaning(env, bound, Begin(ShiftFromTail(offset), limit), step)
         == Meaning(env, bound, Begin(Absolute(if env.mem.lastId.Some? && offset <= env.mem.lastId.value then env.mem.lastId.value - offset else 0),
                                      limit), step)
  {
    if env.mem.lastId.Some? {
      hide ReadFull, ReadFullNegative, FromFile;
      TailReadIsBoundedRead(env.mem, offset, step, limit);
      RefusedTailReadSendsNothing(env.mem, offset, step, limit);
    }
  }
}
