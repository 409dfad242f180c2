/**
 * The buffered file writer that acknowledges entries once they are on disk. Writers append to a
 * shared buffer; a flusher takes the whole buffer as one block, writes it, and either
 * acknowledges the block's last entry or puts the block back in front of the buffer.
 */
module AckFileWriting {
  import opened Outcomes
  import opened Bytes
  import opened WalCodec
  import opened WalScan
  import opened WalReader
  import opened Selection

  /** A block on its way to the file and the acknowledgements it will release. */
  datatype Block = Block(bytes: Bytes, acks: seq<nat>)

  /** The file, how much of it is known to survive a crash, and what is not in it yet. */
  datatype AckState = AckState(file: Bytes, synced: nat, inflight: Option<Block>,
                               buffer: Bytes, acks: seq<nat>, currentSize: nat) {
    function InflightBytes(): Bytes {
      if inflight.Some? then inflight.value.bytes else []
    }
  }

  // ----- The steps -----

  /** A new file holds its header, not yet synced. */
  function NewFile(header: Bytes): AckState {
    AckState(header, 0, None, [], [], |header|)
  }

  /** A writer appends an encoded entry to the buffer. */
  function Append(s: AckState, id: nat, bytes: Bytes): AckState {
    s.(buffer := s.buffer + bytes, acks := s.acks + [id], currentSize := s.currentSize + |bytes|)
  }

  /** The flusher takes the buffer; of its acknowledgements only the last is kept. */
  function TakeBlock(s: AckState): AckState {
    if s.buffer == [] then s
    else
      var kept := if s.acks == [] then [] else [s.acks[|s.acks| - 1]];
      s.(inflight := Some(Block(s.buffer, kept)), buffer := [], acks := [])
  }

  /** The block is in the file. */
  function BlockLanded(s: AckState, fsync: bool): AckState
    requires s.inflight.Some?
  {
    var file := s.file + s.inflight.value.bytes;
    s.(file := file, synced := if fsync then |file| else s.synced, inflight := None)
  }

  /** The block could not be written: it goes back in front of the buffer, with its acknowledgement. */
  function BlockFailed(s: AckState): AckState
    requires s.inflight.Some?
  {
    s.(inflight := None,
       buffer := s.inflight.value.bytes + s.buffer,
       acks := s.inflight.value.acks + s.acks)
  }

  // ----- What the bytes stand for -----

  /** The entries in the file, in the block on its way, and in the buffer. */
  datatype Lay = Lay(inFile: seq<Entry>, inFlight: seq<Entry>, inBuffer: seq<Entry>) {
    function All(): seq<Entry> {
      inFile + inFlight + inBuffer
    }
  }

  ghost predicate AllLayFit(hd: WalHeader, lay: Lay) {
    AllFit(hd, lay.inFile) && AllFit(hd, lay.inFlight) && AllFit(hd, lay.inBuffer)
  }

  ghost predicate IsBlockOf(block: Block, hash: Hash, hd: WalHeader, es: seq<Entry>)
    requires AllFit(hd, es) && es != []
  {
    block == Block(RunBytes(hash, hd, es), [es[|es| - 1].id])
  }

  /** The writer's bytes are exactly the header and the encoded entries, split where the lay says. */
  ghost predicate Laid(s: AckState, hash: Hash, hd: WalHeader, lay: Lay) {
    && hd.Storable() && AllLayFit(hd, lay)
    && s.file == HeaderBytes(hd) + RunBytes(hash, hd, lay.inFile)
    && s.synced <= |s.file|
    && (s.inflight.Some? <==> lay.inFlight != [])
    && (s.inflight.Some? ==> IsBlockOf(s.inflight.value, hash, hd, lay.inFlight))
    && s.buffer == RunBytes(hash, hd, lay.inBuffer)
    && (s.acks == [] <==> lay.inBuffer == [])
    && (lay.inBuffer != [] ==> s.acks[|s.acks| - 1] == lay.inBuffer[|lay.inBuffer| - 1].id)
    && s.currentSize == |s.file| + |s.InflightBytes()| + |s.buffer|
  }

  lemma NewFileLaid(hash: Hash, hd: WalHeader)
    requires hd.Storable()
    ensures Laid(NewFile(HeaderBytes(hd)), hash, hd, Lay([], [], []))
  {
  }

  /** Appending keeps the split and puts the entry last in the buffer. */
  lemma AppendLaid(s: AckState, hash: Hash, hd: WalHeader, lay: Lay, e: Entry)
    requires Laid(s, hash, hd, lay) && Fits(hd, e)
    ensures Laid(Append(s, e.id, EntryBytes(hash, hd, e)), hash, hd, lay.(inBuffer := lay.inBuffer + [e]))
  {
    hide EntryBytes, HeaderBytes, Fits;
    RunBytesConcat(hash, hd, lay.inBuffer, [e]);
    assert RunBytes(hash, hd, [e]) == EntryBytes(hash, hd, e) by { OneEntryRun(hash, hd, e); }
  }

  lemma OneEntryRun(hash: Hash, hd: WalHeader, e: Entry)
    requires Fits(hd, e)
    ensures AllFit(hd, [e]) && RunBytes(hash, hd, [e]) == EntryBytes(hash, hd, e)
  {
    hide EntryBytes, Fits;
    assert [e][1..] == [];
    assert RunBytes(hash, hd, [e]) == EntryBytes(hash, hd, e) + [];
  }

  lemma TakeBlockLaid(s: AckState, hash: Hash, hd: WalHeader, lay: Lay)
    requires Laid(s, hash, hd, lay) && s.inflight.None?
    ensures Laid(TakeBlock(s), hash, hd, if lay.inBuffer == [] then lay else Lay(lay.inFile, lay.inBuffer, []))
  {
    hide EntryBytes, HeaderBytes, Fits;
    RunBytesEmpty(hash, hd, lay.inBuffer);
  }

  lemma BlockLandedLaid(s: AckState, hash: Hash, hd: WalHeader, lay: Lay, fsync: bool)
    requires Laid(s, hash, hd, lay) && s.inflight.Some?
    ensures Laid(BlockLanded(s, fsync), hash, hd, Lay(lay.inFile + lay.inFlight, [], lay.inBuffer))
  {
    hide EntryBytes, HeaderBytes, Fits, RunBytes, IdWidth;
    RunBytesConcat(hash, hd, lay.inFile, lay.inFlight);
    ConcatAssociates(HeaderBytes(hd), RunBytes(hash, hd, lay.inFile), RunBytes(hash, hd, lay.inFlight));
  }

  lemma BlockFailedLaid(s: AckState, hash: Hash, hd: WalHeader, lay: Lay)
    requires Laid(s, hash, hd, lay) && s.inflight.Some?
    ensures Laid(BlockFailed(s), hash, hd, Lay(lay.inFile, [], lay.inFlight + lay.inBuffer))
  {
    hide EntryBytes, HeaderBytes, Fits, RunBytes, IdWidth;
    RunBytesConcat(hash, hd, lay.inFlight, lay.inBuffer);
  }

  /** File, block and buffer together are the header and all entries in write order. */
  lemma NothingLostOnTheWay(s: AckState, hash: Hash, hd: WalHeader, lay: Lay)
    requires Laid(s, hash, hd, lay)
    ensures AllFit(hd, lay.All())
    ensures s.file + s.InflightBytes() + s.buffer == HeaderBytes(hd) + RunBytes(hash, hd, lay.All())
  {
    hide EntryBytes, HeaderBytes, Fits, RunBytes;
    var head := HeaderBytes(hd);
    var a, b, c := RunBytes(hash, hd, lay.inFile), RunBytes(hash, hd, lay.inFlight), RunBytes(hash, hd, lay.inBuffer);
    RunBytesConcat(hash, hd, lay.inFile, lay.inFlight);
    RunBytesConcat(hash, hd, lay.inFile + lay.inFlight, lay.inBuffer);
    assert s.InflightBytes() == b by {
      if lay.inFlight == [] {
        RunBytesEmpty(hash, hd, []);
      }
    }
    ConcatAssociates(head, a, b);
    ConcatAssociates(head, a + b, c);
  }

  // ----- Whole runs of the flush protocol -----

  datatype FlushStep = Appends(entry: Entry) | Takes | Lands | Fails

  /** The writer after some steps, what was appended, and which acknowledgements were sent. */
  datatype FlushRun = FlushRun(state: AckState, appended: seq<Entry>, sent: seq<nat>)

  predicate Enabled(s: AckState, hd: WalHeader, step: FlushStep) {
    match step
    case Appends(e) => Fits(hd, e)
    case Takes => s.inflight.None?
    case Lands => s.inflight.Some?
    case Fails => s.inflight.Some?
  }

  function FlushApply(r: FlushRun, hash: Hash, hd: WalHeader, fsync: bool, step: FlushStep): FlushRun
    requires Enabled(r.state, hd, step)
  {
    match step
    case Appends(e) => FlushRun(Append(r.state, e.id, EntryBytes(hash, hd, e)), r.appended + [e], r.sent)
    case Takes => r.(state := TakeBlock(r.state))
    case Lands => r.(state := BlockLanded(r.state, fsync), sent := r.sent + r.state.inflight.value.acks)
    case Fails => r.(state := BlockFailed(r.state))
  }

  /** The same step on entries instead of bytes. */
  function LayApply(lay: Lay, step: FlushStep): Lay {
    match step
    case Appends(e) => lay.(inBuffer := lay.inBuffer + [e])
    case Takes => if lay.inBuffer == [] then lay else Lay(lay.inFile, lay.inBuffer, [])
    case Lands => Lay(lay.inFile + lay.inFlight, [], lay.inBuffer)
    case Fails => Lay(lay.inFile, [], lay.inFlight + lay.inBuffer)
  }

  ghost predicate StepsEnabled(r: FlushRun, hash: Hash, hd: WalHeader, fsync: bool, steps: seq<FlushStep>)
    decreases |steps|
  {
    steps != [] ==>
      && Enabled(r.state, hd, steps[0])
      && StepsEnabled(FlushApply(r, hash, hd, fsync, steps[0]), hash, hd, fsync, steps[1..])
  }

  ghost function FlushAll(r: FlushRun, hash: Hash, hd: WalHeader, fsync: bool, steps: seq<FlushStep>): FlushRun
    requires StepsEnabled(r, hash, hd, fsync, steps)
    decreases |steps|
  {
    if steps == [] then r
    else FlushAll(FlushApply(r, hash, hd, fsync, steps[0]), hash, hd, fsync, steps[1..])
  }

  function LayAll(lay: Lay, steps: seq<FlushStep>): Lay
    decreases |steps|
  {
    if steps == [] then lay else LayAll(LayApply(lay, steps[0]), steps[1..])
  }

  /** Every sent acknowledgement names an entry of the file. */
  ghost predicate AcksInFile(sent: seq<nat>, lay: Lay) {
    forall i :: 0 <= i < |sent| ==> HasId(lay.inFile, sent[i])
  }

  ghost predicate FlushInvariant(r: FlushRun, hash: Hash, hd: WalHeader, fsync: bool, lay: Lay) {
    && Laid(r.state, hash, hd, lay)
    && lay.All() == r.appended
    && AcksInFile(r.sent, lay)
    && (fsync ==> r.state.synced == if lay.inFile == [] then r.state.synced else |r.state.file|)
  }

  lemma FlushStepKeeps(r: FlushRun, hash: Hash, hd: WalHeader, fsync: bool, lay: Lay, step: FlushStep)
    requires FlushInvariant(r, hash, hd, fsync, lay) && Enabled(r.state, hd, step)
    ensures FlushInvariant(FlushApply(r, hash, hd, fsync, step), hash, hd, fsync, LayApply(lay, step))
  {
    hide Laid, EntryBytes, Fits;
    match step
    case Appends(e) =>
      AppendLaid(r.state, hash, hd, lay, e);
      assert lay.inFile + lay.inFlight + (lay.inBuffer + [e]) == lay.All() + [e];
    case Takes =>
      assert lay.inFlight == [] by { LaidFlight(r.state, hash, hd, lay); }
      TakeBlockLaid(r.state, hash, hd, lay);
      assert lay.inFile + [] + lay.inBuffer == lay.inFile + lay.inBuffer + [];
    case Lands =>
      LaidFlight(r.state, hash, hd, lay);
      BlockLandedLaid(r.state, hash, hd, lay, fsync);
      assert (lay.inFile + lay.inFlight) + [] + lay.inBuffer == lay.All();
      LandedAcks(r.sent, lay);
    case Fails =>
      BlockFailedLaid(r.state, hash, hd, lay);
      assert lay.inFile + [] + (lay.inFlight + lay.inBuffer) == lay.All();
  }

  lemma LaidFlight(s: AckState, hash: Hash, hd: WalHeader, lay: Lay)
    requires Laid(s, hash, hd, lay)
    ensures s.inflight.Some? <==> lay.inFlight != []
    ensures s.inflight.Some? ==> s.inflight.value.acks == [lay.inFlight[|lay.inFlight| - 1].id]
  {
  }

  lemma LandedAcks(sent: seq<nat>, lay: Lay)
    requires AcksInFile(sent, lay) && lay.inFlight != []
    ensures AcksInFile(sent + [lay.inFlight[|lay.inFlight| - 1].id], Lay(lay.inFile + lay.inFlight, [], lay.inBuffer))
  {
    var id := lay.inFlight[|lay.inFlight| - 1].id;
    var file := lay.inFile + lay.inFlight;
    forall i | 0 <= i < |sent + [id]|
      ensures HasId(file, (sent + [id])[i])
    {
      if i < |sent| {
        assert HasId(lay.inFile, sent[i]);
        HasIdInFront(lay.inFile, lay.inFlight, sent[i]);
      } else {
        assert file[|file| - 1].id == id;
      }
    }
  }

  lemma HasIdInFront(xs: seq<Entry>, ys: seq<Entry>, id: nat)
    requires HasId(xs, id)
    ensures HasId(xs + ys, id)
  {
    var j :| 0 <= j < |xs| && xs[j].id == id;
    assert (xs + ys)[j].id == id;
  }

  /**
   * In every state any interleaving of appends and flushes can reach, failed flushes included,
   * the bytes are the header and the appended entries in order, and whatever was acknowledged is
   * in the file, with everything before it.
   */
  lemma {:induction false} FlushRunKeeps(r: FlushRun, hash: Hash, hd: WalHeader, fsync: bool, lay: Lay,
                                         steps: seq<FlushStep>)
    requires FlushInvariant(r, hash, hd, fsync, lay)
    requires StepsEnabled(r, hash, hd, fsync, steps)
    ensures FlushInvariant(FlushAll(r, hash, hd, fsync, steps), hash, hd, fsync, LayAll(lay, steps))
    decreases |steps|
  {
    hide FlushInvariant, FlushApply, LayApply, Enabled;
    if steps != [] {
      FlushStepKeeps(r, hash, hd, fsync, lay, steps[0]);
      FlushRunKeeps(FlushApply(r, hash, hd, fsync, steps[0]), hash, hd, fsync, LayApply(lay, steps[0]), steps[1..]);
    }
  }

  /** From a new file on: the state of the file system and of the acknowledgements at any point. */
  lemma FlushProtocol(hash: Hash, hd: WalHeader, fsync: bool, steps: seq<FlushStep>)
    requires hd.Storable()
    requires StepsEnabled(FlushRun(NewFile(HeaderBytes(hd)), [], []), hash, hd, fsync, steps)
    ensures var r := FlushAll(FlushRun(NewFile(HeaderBytes(hd)), [], []), hash, hd, fsync, steps);
            && AllFit(hd, r.appended)
            && r.state.file + r.state.InflightBytes() + r.state.buffer
               == HeaderBytes(hd) + RunBytes(hash, hd, r.appended)
            && var n := |LayAll(Lay([], [], []), steps).inFile|;
               && n <= |r.appended|
               && r.state.file == HeaderBytes(hd) + RunBytes(hash, hd, r.appended[..n])
               && (forall i :: 0 <= i < |r.sent| ==> HasId(r.appended[..n], r.sent[i]))
  {
    hide RunBytes, HeaderBytes, Fits;
    var start := FlushRun(NewFile(HeaderBytes(hd)), [], []);
    var lay0 := Lay([], [], []);
    NewFileLaid(hash, hd);
    assert lay0.All() == [];
    assert FlushInvariant(start, hash, hd, fsync, lay0);
    FlushRunKeeps(start, hash, hd, fsync, lay0, steps);
    var r, lay := FlushAll(start, hash, hd, fsync, steps), LayAll(lay0, steps);
    NothingLostOnTheWay(r.state, hash, hd, lay);
    assert r.appended[..|lay.inFile|] == lay.inFile;
  }

  // ----- Closing a file -----

  /** What closing leaves behind and which acknowledgements it sends. */
  datatype Closing = Closing(state: AckState, sent: seq<nat>)

  /** The block on its way ends well or badly, then what is buffered is written out. */
  function CloseFile(s: AckState, inflightLands: bool, fsync: bool): Closing {
    var first := if s.inflight.None? then Closing(s, [])
                 else if inflightLands then Closing(BlockLanded(s, fsync), s.inflight.value.acks)
                 else Closing(BlockFailed(s), []);
    var taken := TakeBlock(first.state);
    if taken.inflight.None? then first
    else Closing(BlockLanded(taken, fsync), first.sent + taken.inflight.value.acks)
  }

  /** A closed file holds every entry, and only its own entries were acknowledged. */
  lemma CloseFileLaid(s: AckState, hash: Hash, hd: WalHeader, lay: Lay, inflightLands: bool, fsync: bool)
    requires Laid(s, hash, hd, lay)
    ensures var c := CloseFile(s, inflightLands, fsync);
            && Laid(c.state, hash, hd, Lay(lay.All(), [], []))
            && AcksInFile(c.sent, Lay(lay.All(), [], []))
            && (c.sent != [] ==> fsync ==> c.state.synced == |c.state.file|)
            && (c.sent == [] ==> c.state == s)
            && (lay.inFlight == [] && lay.inBuffer == [] ==> c.sent == [])
  {
    hide Laid, TakeBlock;
    LaidFlight(s, hash, hd, lay);
    var lay1, s1, sent1 := lay, s, [];
    if s.inflight.Some? {
      if inflightLands {
        BlockLandedLaid(s, hash, hd, lay, fsync);
        LandedAcks([], lay);
        lay1, s1 := Lay(lay.inFile + lay.inFlight, [], lay.inBuffer), BlockLanded(s, fsync);
        sent1 := s.inflight.value.acks;
        assert [] + sent1 == sent1;
      } else {
        BlockFailedLaid(s, hash, hd, lay);
        lay1, s1 := Lay(lay.inFile, [], lay.inFlight + lay.inBuffer), BlockFailed(s);
      }
    }
    assert lay1.All() == lay.All() && AcksInFile(sent1, lay1) && lay1.inFlight == [];
    FlushRest(s1, hash, hd, lay1, fsync, sent1);
  }

  /** Closing acknowledges the last entry, unless all were in the file before. */
  lemma ClosedIsAcked(s: AckState, hash: Hash, hd: WalHeader, lay: Lay, inflightLands: bool, fsync: bool)
    requires Laid(s, hash, hd, lay) && (lay.inFlight != [] || lay.inBuffer != [])
    ensures var sent, all := CloseFile(s, inflightLands, fsync).sent, lay.All();
            sent != [] && sent[|sent| - 1] == all[|all| - 1].id
  {
    hide RunBytes, HeaderBytes, Fits, IdWidth;
    RunBytesEmpty(hash, hd, lay.inBuffer);
    RunBytesEmpty(hash, hd, lay.inFlight);
  }

  lemma FlushRest(s: AckState, hash: Hash, hd: WalHeader, lay: Lay, fsync: bool, sent: seq<nat>)
    requires Laid(s, hash, hd, lay) && lay.inFlight == [] && AcksInFile(sent, lay)
    ensures var taken := TakeBlock(s);
            if taken.inflight.None? then
              taken == s && lay.inBuffer == [] && Lay(lay.All(), [], []) == lay
            else
              && lay.inBuffer != [] && taken.file == s.file
              && Laid(BlockLanded(taken, fsync), hash, hd, Lay(lay.All(), [], []))
              && taken.inflight.value.acks != []
              && AcksInFile(sent + taken.inflight.value.acks, Lay(lay.All(), [], []))
  {
    hide HeaderBytes, RunBytes, Fits, AcksInFile;
    RunBytesEmpty(hash, hd, lay.inBuffer);
    TakeBlockLaid(s, hash, hd, lay);
    if lay.inBuffer == [] {
      assert lay.All() == lay.inFile;
    } else {
      var lay2 := Lay(lay.inFile, lay.inBuffer, []);
      BlockLandedLaid(TakeBlock(s), hash, hd, lay2, fsync);
      SameFileAcks(sent, lay, lay2);
      LandedAcks(sent, lay2);
      assert lay.All() == lay.inFile + lay.inBuffer;
    }
  }

  lemma SameFileAcks(sent: seq<nat>, lay: Lay, other: Lay)
    requires AcksInFile(sent, lay) && lay.inFile == other.inFile
    ensures AcksInFile(sent, other)
  {
  }

  // ----- The writer itself -----

  const MAX_RETRIES: nat := 1000

  /** How one attempt to put a block on disk ends. */
  datatype Attempt = WriteFailed | SyncFailed | Done

  /** How often a block gets into the file: once per attempt whose write succeeded, up to the first that is done. */
  function Copies(attempts: seq<Attempt>): nat {
    if attempts == [] || attempts[0] == Done then if attempts == [] then 0 else 1
    else (if attempts[0] == SyncFailed then 1 else 0) + Copies(attempts[1..])
  }

  function Repeated(b: Bytes, n: nat): Bytes {
    if n == 0 then [] else Repeated(b, n - 1) + b
  }

  predicate Succeeds(attempts: seq<Attempt>) {
    Done in attempts
  }

  /** The first attempt that does not fail to write is done. */
  ghost predicate CleanlyDone(attempts: seq<Attempt>) {
    exists i :: 0 <= i < |attempts| && attempts[i] == Done && forall j :: 0 <= j < i ==> attempts[j] == WriteFailed
  }

  /** A block ends up acknowledged and in the file exactly once just when no failed sync comes first. */
  lemma {:induction false} WrittenOnceExactly(attempts: seq<Attempt>)
    ensures Copies(attempts) == 1 && Succeeds(attempts) <==> CleanlyDone(attempts)
    ensures Succeeds(attempts) ==> Copies(attempts) >= 1
  {
    if attempts != [] {
      var rest := attempts[1..];
      WrittenOnceExactly(rest);
      if CleanlyDone(rest) && attempts[0] == WriteFailed {
        var i :| 0 <= i < |rest| && rest[i] == Done && forall j :: 0 <= j < i ==> rest[j] == WriteFailed;
        assert attempts[i + 1] == Done;
        assert forall j :: 0 <= j < i + 1 ==> attempts[j] == if j == 0 then WriteFailed else rest[j - 1];
      }
      if CleanlyDone(attempts) && attempts[0] != Done {
        var i :| 0 <= i < |attempts| && attempts[i] == Done && forall j :: 0 <= j < i ==> attempts[j] == WriteFailed;
        assert rest[i - 1] == Done && attempts[0] == WriteFailed;
      }
    }
  }

  /**
   * A failed sync before the successful attempt does double the block: it is acknowledged, it is in the
   * file twice, and the entries a scan then finds are no longer numbered one after the other.
   */
  lemma SyncRetryDoubles(attempts: seq<Attempt>, hash: Hash, hd: WalHeader, inFile: seq<Entry>, block: seq<Entry>, first: nat)
    requires |attempts| >= 2 && attempts[0] == SyncFailed && attempts[1] == Done
    requires AllFit(hd, inFile) && AllFit(hd, block) && block != [] && Numbered(inFile + block, first)
    ensures Succeeds(attempts) && !CleanlyDone(attempts) && Copies(attempts) == 2
    ensures var run := RunBytes(hash, hd, inFile) + Repeated(RunBytes(hash, hd, block), Copies(attempts));
            Scan(hash, hd, run) == inFile + block + block && !Numbered(inFile + block + block, first)
  {
    hide RunBytes, Scan, Fits;
    assert attempts[1..][0] == Done;
    WrittenOnceExactly(attempts);
    var b := RunBytes(hash, hd, block);
    assert Repeated(b, 1) == [] + b == b;
    assert Repeated(b, 2) == b + b;
    RunBytesConcat(hash, hd, inFile, block);
    RunBytesConcat(hash, hd, inFile + block, block);
    ConcatAssociates(RunBytes(hash, hd, inFile), b, b);
    var all := inFile + block + block;
    var run := RunBytes(hash, hd, all);
    ScanPrefix(hash, hd, all, |run|);
    WholeRun(hash, hd, all);
    TakeAll(run);
    assert all[..|all|] == all;
    assert all[|inFile| + |block|] == block[0] == (inFile + block)[|inFile|];
  }

  lemma {:induction false} CopiesSplit(attempts: seq<Attempt>, i: nat)
    requires i < |attempts| && Done !in attempts[..i]
    ensures Copies(attempts[..i + 1]) == Copies(attempts[..i]) + (if attempts[i] == WriteFailed then 0 else 1)
    ensures attempts[i] == Done ==> Copies(attempts) == Copies(attempts[..i + 1])
  {
    if i > 0 {
      assert attempts[..i + 1][1..] == attempts[1..][..i] && attempts[..i][1..] == attempts[1..][..i - 1];
      assert attempts[0] == attempts[..i][0];
      CopiesSplit(attempts[1..], i - 1);
    }
  }

  class AckFileWriter {
    var file: Bytes
    var inflight: Option<Block>
    var buffer: Bytes
    var acks: seq<nat>
    var currentSize: nat
    var sent: seq<nat>
    ghost var synced: nat
    const maxFileSize: nat
    const fsync: bool

    ghost function State(): AckState
      reads this
    {
      AckState(file, synced, inflight, buffer, acks, currentSize)
    }

    constructor (header: Bytes, maxFileSize: nat, fsync: bool)
      ensures State() == NewFile(header) && sent == []
      ensures this.maxFileSize == maxFileSize && this.fsync == fsync
    {
      file, inflight, buffer, acks, currentSize := header, None, [], [], |header|;
      sent, synced := [], 0;
      this.maxFileSize, this.fsync := maxFileSize, fsync;
    }

    method CanAdd(size: nat) returns (ok: bool)
      ensures ok <==> State().currentSize + size <= maxFileSize
    {
      ok := currentSize + size <= maxFileSize;
    }

    method Write(id: nat, entry: Bytes)
      modifies this
      ensures State() == Append(old(State()), id, entry) && sent == old(sent)
    {
      buffer := buffer + entry;
      acks := acks + [id];
      currentSize := currentSize + |entry|;
    }

    /** The locked first part of a flush. */
    method StartFlush()
      requires inflight.None?
      modifies this
      ensures State() == TakeBlock(old(State())) && sent == old(sent)
    {
      if buffer == [] {
        return;
      }
      var data, taken := buffer, acks;
      buffer, acks := [], [];
      var toSend := if taken == [] then [] else [taken[|taken| - 1]];
      inflight := Some(Block(data, toSend));
    }

    /** The rest of a flush: retry until an attempt is done, else put the block back. */
    method FinishFlush(attempts: seq<Attempt>)
      requires inflight.Some? && |attempts| == 1000
      requires !fsync ==> SyncFailed !in attempts
      modifies this
      ensures file == old(file) + Repeated(old(inflight).value.bytes, Copies(attempts))
      ensures State() == (if Succeeds(attempts) then BlockLanded(old(State()), fsync) else BlockFailed(old(State())))
                         .(file := file, synced := synced)
      ensures sent == old(sent) + if Succeeds(attempts) then old(inflight).value.acks else []
      ensures SyncFailed !in attempts ==>
                State() == if Succeeds(attempts) then BlockLanded(old(State()), fsync) else BlockFailed(old(State()))
    {
      var block := inflight.value;
      ghost var pre := State();
      var i, successful := 0, false;
      while i < MAX_RETRIES && !successful
        invariant 0 <= i <= MAX_RETRIES
        invariant file == pre.file + Repeated(block.bytes, Copies(attempts[..i]))
        invariant State() == pre.(file := file, synced := synced) && sent == old(sent)
        invariant !successful ==> Done !in attempts[..i] && synced == pre.synced
        invariant successful ==> i > 0 && attempts[i - 1] == Done && Done !in attempts[..i - 1]
        invariant successful ==> Copies(attempts) == Copies(attempts[..i])
        invariant successful ==> synced == if fsync then |file| else pre.synced
      {
        CopiesSplit(attempts, i);
        if attempts[i] != WriteFailed {
          ConcatAssociates(pre.file, Repeated(block.bytes, Copies(attempts[..i])), block.bytes);
          file := file + block.bytes;
        }
        if attempts[i] == Done {
          successful := true;
          if fsync {
            synced := |file|;
          }
        }
        i := i + 1;
      }
      assert attempts[..MAX_RETRIES] == attempts;
      if SyncFailed !in attempts {
        CopiesWithoutSyncFailure(attempts);
        assert Repeated(block.bytes, 1) == [] + block.bytes;
      }
      inflight := None;
      if successful {
        sent := sent + block.acks;
      } else {
        buffer := block.bytes + buffer;
        acks := block.acks + acks;
      }
    }

    /**
     * Close: wait for the flush on its way, which ends well or badly, then flush what is buffered.
     * That last flush is taken to succeed.
     */
    method Close(inflightLands: bool)
      modifies this
      ensures var c := CloseFile(old(State()), inflightLands, fsync);
              State() == c.state && sent == old(sent) + c.sent
    {
      if inflight.Some? {
        EndFlush(inflightLands);
      }
      StartFlush();
      if inflight.Some? {
        EndFlush(true);
      }
    }

    /** A flush that ended, without repeated writes. */
    method EndFlush(lands: bool)
      requires inflight.Some?
      modifies this
      ensures State() == if lands then BlockLanded(old(State()), fsync) else BlockFailed(old(State()))
      ensures sent == old(sent) + if lands then old(inflight).value.acks else []
    {
      var attempts := seq(MAX_RETRIES, _ => if lands then Done else WriteFailed);
      assert lands ==> attempts[0] == Done;
      FinishFlush(attempts);
    }
  }

  lemma {:induction false} CopiesWithoutSyncFailure(attempts: seq<Attempt>)
    requires SyncFailed !in attempts
    ensures Copies(attempts) == if Succeeds(attempts) then 1 else 0
  {
    if attempts != [] {
      CopiesWithoutSyncFailure(attempts[1..]);
    }
  }
}
