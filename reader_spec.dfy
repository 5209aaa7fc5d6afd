/** SequenceFileReader's record-reading state machine as pure transitions over its state:
    hasNext, nextRecord, seek and close, a run of such calls, and the laws they obey. The
    class SequenceFile.SequenceFileReader is proved to follow these transitions. */
module ReaderSpec {
  import opened Outcomes
  import opened Writables
  import opened ConnectData
  import opened TypeMapping
  import opened HadoopStream

  const CLOSED_MESSAGE := "Reader already closed."
  const NO_MORE_RECORDS_MESSAGE := "There are no more records in file: "
  const NEGATIVE_OFFSET_MESSAGE := "Record offset must be greater than 0"
  const SEEK_ERROR_MESSAGE := "Error seeking file "

  /** What a reader fixes when it is built and never changes. */
  datatype Setup = Setup(filePath: Path, schema: StructSchema, keyFieldName: string, valueFieldName: string)

  /** The reader's mutable state: the look-ahead cursor (recordIndex, hasNextIndex), the cached
      hasNext flag, the closed flag, the base class's offset counter, the Hadoop reader's
      position and the two holders reader.next decodes into. */
  datatype ReaderState = ReaderState(
    recordIndex: int,
    hasNextIndex: int,
    hasNext: bool,
    closed: bool,
    offset: int,
    cursor: nat,
    key: Writable,
    value: Writable)

  datatype Step<T> = Step(outcome: Result<T, ReaderError>, state: ReaderState)

  /** The invariant every reachable state keeps: the look-ahead index is the record index or one
      past it, and the holders keep the header's classes. */
  predicate Inv(f: SequenceFileData, s: ReaderState) {
    && s.recordIndex >= -1
    && (s.hasNextIndex == s.recordIndex || s.hasNextIndex == s.recordIndex + 1)
    && s.cursor <= |f.records|
    && ClassOf(s.key) == f.keyClass
    && ClassOf(s.value) == f.valueClass
  }

  /** A look-ahead record is held: hasNext has decoded and nextRecord has not consumed it. */
  predicate Pending(s: ReaderState) {
    s.hasNextIndex == s.recordIndex + 1
  }

  /** The state the constructor leaves: both indices -1, nothing cached, open, the counter at
      Java's default 0, the stream at its first record, empty holders of the header classes. */
  function Fresh(f: SequenceFileData): (s: ReaderState)
    ensures Inv(f, s) && !Pending(s)
  {
    ReaderState(-1, -1, false, false, 0, 0, NewInstance(f.keyClass), NewInstance(f.valueClass))
  }

  function RecordOf(setup: Setup, r: NativeRecord): SequenceRecord {
    SequenceRecord(setup.schema, setup.keyFieldName, r.key, setup.valueFieldName, r.value)
  }

  /** hasNext decodes exactly when no look-ahead is held. */
  predicate Decodes(s: ReaderState) {
    s.hasNextIndex == -1 || s.hasNextIndex == s.recordIndex
  }

  /** The call decodes and reader.next meets a truncated record (EOFException). */
  predicate HitsTruncation(f: SequenceFileData, s: ReaderState) {
    !s.closed && Decodes(s) && ReadNext(f, s.cursor).EofException?
  }

  /** hasNext(): fails on a closed reader without touching anything; otherwise, unless a
      look-ahead is held, advances hasNextIndex and the offset counter and decodes the next
      record into the holders, caching whether there was one. The EOFException path answers
      false and leaves the cached flag as it was. */
  function HasNextStep(f: SequenceFileData, s: ReaderState): (r: Step<bool>)
    ensures s.closed ==> r == Step(Failure(IllegalState(CLOSED_MESSAGE)), s)
    ensures !s.closed && !Decodes(s) ==> r == Step(Success(s.hasNext), s)
    ensures Inv(f, s) ==> Inv(f, r.state)
    ensures Inv(f, s) && !s.closed ==> Pending(r.state)
    ensures r.state.recordIndex == s.recordIndex && r.state.closed == s.closed
    ensures r.state.offset - r.state.hasNextIndex == s.offset - s.hasNextIndex
    ensures r.state.offset == s.offset || r.state.offset == s.offset + 1
    ensures r.outcome.Success? && !HitsTruncation(f, s) ==> r.outcome.value == r.state.hasNext
    ensures r.outcome == Success(true) <==> !s.closed && (if Decodes(s) then s.cursor < |f.records| else s.hasNext)
  {
    if s.closed then Step(Failure(IllegalState(CLOSED_MESSAGE)), s)
    else if Decodes(s) then
      var advanced := s.(hasNextIndex := s.hasNextIndex + 1, offset := s.offset + 1);
      match ReadNext(f, s.cursor)
      case Decoded(rec) =>
        Step(Success(true), advanced.(hasNext := true, cursor := s.cursor + 1, key := rec.key, value := rec.value))
      case EndOfData => Step(Success(false), advanced.(hasNext := false))
      case EofException => Step(Success(false), advanced)
      case IoException => Step(Failure(ConnectException(None)), advanced)
    else Step(Success(s.hasNext), s)
  }

  /** nextRecord(): asks hasNext() itself; a failure of it propagates, a false answer is a
      NoSuchElementException, and a true answer advances recordIndex by one and hands out the
      current key and value with the reader's schema and field names. */
  function NextRecordStep(f: SequenceFileData, setup: Setup, s: ReaderState): (r: Step<SequenceRecord>)
    ensures r.outcome.Success? <==> HasNextStep(f, s).outcome == Success(true)
    ensures HasNextStep(f, s).outcome.Failure? ==> r.outcome == Failure(HasNextStep(f, s).outcome.error)
    ensures HasNextStep(f, s).outcome == Success(false) ==>
              r.outcome == Failure(NoSuchElement(NO_MORE_RECORDS_MESSAGE + setup.filePath.name))
    ensures r.outcome.Failure? ==> r.state == HasNextStep(f, s).state
    ensures r.outcome.Success? ==>
              && r.state == HasNextStep(f, s).state.(recordIndex := s.recordIndex + 1)
              && r.outcome.value == RecordOf(setup, NativeRecord(r.state.key, r.state.value))
    ensures Inv(f, s) ==> Inv(f, r.state)
    ensures Inv(f, s) && r.outcome.Success? ==> !Pending(r.state)
    ensures r.state.closed == s.closed
    ensures r.state.offset - r.state.hasNextIndex == s.offset - s.hasNextIndex
  {
    var probe := HasNextStep(f, s);
    match probe.outcome
    case Failure(e) => Step(Failure(e), probe.state)
    case Success(more) =>
      if !more then Step(Failure(NoSuchElement(NO_MORE_RECORDS_MESSAGE + setup.filePath.name)), probe.state)
      else
        var t := probe.state.(recordIndex := probe.state.recordIndex + 1);
        Step(Success(RecordOf(setup, NativeRecord(t.key, t.value))), t)
  }

  /** seek(offset): a negative offset is an IllegalArgumentException that changes nothing; a
      failing sync is a ConnectException that changes nothing; otherwise the stream is where sync
      landed, both indices are the offset, the cache is cleared and the counter is offset - 1.
      There is no closed check. */
  function SeekStep(f: SequenceFileData, setup: Setup, s: ReaderState, target: int, sync: SyncOutcome): (r: Step<()>)
    ensures target < 0 ==> r == Step(Failure(IllegalArgument(NEGATIVE_OFFSET_MESSAGE)), s)
    ensures r.outcome.Success? <==> target >= 0 && sync.SyncedTo?
    ensures r.outcome.Failure? ==> r.state == s
    ensures target >= 0 && sync.SyncIoException? ==>
              r.outcome == Failure(ConnectException(Some(SEEK_ERROR_MESSAGE + setup.filePath.name)))
    ensures r.outcome.Success? ==>
              && r.state.recordIndex == target && r.state.hasNextIndex == target
              && !r.state.hasNext && r.state.offset == target - 1
              && r.state.cursor == SyncLanding(f, sync.position)
              && r.state.closed == s.closed && r.state.key == s.key && r.state.value == s.value
    ensures Inv(f, s) ==> Inv(f, r.state)
  {
    if target < 0 then Step(Failure(IllegalArgument(NEGATIVE_OFFSET_MESSAGE)), s)
    else match sync
      case SyncIoException => Step(Failure(ConnectException(Some(SEEK_ERROR_MESSAGE + setup.filePath.name))), s)
      case SyncedTo(position) =>
        Step(Success(()), s.(cursor := SyncLanding(f, position), hasNextIndex := target, recordIndex := target,
                             hasNext := false, offset := target - 1))
  }

  /** close(): only the closed flag changes. */
  function CloseStep(s: ReaderState): (t: ReaderState)
    ensures t.closed
    ensures t.(closed := s.closed) == s
  {
    s.(closed := true)
  }

  // ----- runs of calls -----

  datatype Op = HasNextOp | NextRecordOp | SeekOp(target: int, sync: SyncOutcome) | CloseOp

  datatype Answer = Flag(more: bool) | Record(record: SequenceRecord) | Repositioned | Closed

  datatype Trace = Trace(outcomes: seq<Result<Answer, ReaderError>>, last: ReaderState)

  function Perform(f: SequenceFileData, setup: Setup, s: ReaderState, op: Op): Step<Answer> {
    match op
    case HasNextOp =>
      var r := HasNextStep(f, s);
      Step(if r.outcome.Success? then Success(Flag(r.outcome.value)) else Failure(r.outcome.error), r.state)
    case NextRecordOp =>
      var r := NextRecordStep(f, setup, s);
      Step(if r.outcome.Success? then Success(Record(r.outcome.value)) else Failure(r.outcome.error), r.state)
    case SeekOp(target, sync) =>
      var r := SeekStep(f, setup, s, target, sync);
      Step(if r.outcome.Success? then Success(Repositioned) else Failure(r.outcome.error), r.state)
    case CloseOp => Step(Success(Closed), CloseStep(s))
  }

  /** The answers to a sequence of calls made one after the other, and the state they leave. */
  function Run(f: SequenceFileData, setup: Setup, s: ReaderState, ops: seq<Op>): (t: Trace)
    ensures |t.outcomes| == |ops|
    decreases |ops|
  {
    if ops == [] then Trace([], s)
    else
      var first := Perform(f, setup, s, ops[0]);
      var rest := Run(f, setup, first.state, ops[1..]);
      Trace([first.outcome] + rest.outcomes, rest.last)
  }

  function Repeat<T>(x: T, n: nat): (r: seq<T>)
    ensures |r| == n
  {
    if n == 0 then [] else [x] + Repeat(x, n - 1)
  }

  /** Running a + b is running a, then b from where a left off. */
  lemma {:induction false} RunAppend(f: SequenceFileData, setup: Setup, s: ReaderState, a: seq<Op>, b: seq<Op>)
    ensures Run(f, setup, s, a + b)
         == Trace(Run(f, setup, s, a).outcomes + Run(f, setup, Run(f, setup, s, a).last, b).outcomes,
                  Run(f, setup, Run(f, setup, s, a).last, b).last)
    decreases |a|
  {
    if a != [] {
      var first := Perform(f, setup, s, a[0]);
      assert (a + b)[0] == a[0];
      assert (a + b)[1..] == a[1..] + b;
      RunAppend(f, setup, first.state, a[1..], b);
    } else {
      assert a + b == b;
    }
  }

  /** A run of one call is that call. */
  lemma RunOne(f: SequenceFileData, setup: Setup, s: ReaderState, op: Op)
    ensures Run(f, setup, s, [op]) == Trace([Perform(f, setup, s, op).outcome], Perform(f, setup, s, op).state)
  {
    assert [op][1..] == [];
  }

  /** A run of op, then rest. */
  lemma RunCons(f: SequenceFileData, setup: Setup, s: ReaderState, op: Op, rest: seq<Op>)
    ensures var first := Perform(f, setup, s, op);
            Run(f, setup, s, [op] + rest)
              == Trace([first.outcome] + Run(f, setup, first.state, rest).outcomes, Run(f, setup, first.state, rest).last)
  {
    assert ([op] + rest)[0] == op;
    assert ([op] + rest)[1..] == rest;
  }

  // ----- hasNext is idempotent -----

  /** With a look-ahead held, any number of hasNext calls answer the cached flag and change
      nothing: no decode, no offset bump. */
  lemma {:induction false} PendingHasNextIsStable(f: SequenceFileData, setup: Setup, s: ReaderState, n: nat)
    requires Inv(f, s) && !s.closed && Pending(s)
    ensures Run(f, setup, s, Repeat(HasNextOp, n)) == Trace(Repeat(Success(Flag(s.hasNext)), n), s)
    decreases n
  {
    if n > 0 {
      assert !Decodes(s);
      PendingHasNextIsStable(f, setup, s, n - 1);
    }
  }

  /** Repeating hasNext: once a call on an open reader has returned normally, n further calls
      return the same answer and leave the state as it was. (Not on the path where reader.next
      met a truncated record: see TruncationRevivesLastRecord.) */
  lemma HasNextIdempotent(f: SequenceFileData, setup: Setup, s: ReaderState, n: nat)
    requires Inv(f, s) && !s.closed && !HitsTruncation(f, s)
    requires HasNextStep(f, s).outcome.Success?
    ensures var first := HasNextStep(f, s);
            Run(f, setup, first.state, Repeat(HasNextOp, n)) == Trace(Repeat(Success(Flag(first.outcome.value)), n), first.state)
  {
    PendingHasNextIsStable(f, setup, HasNextStep(f, s).state, n);
  }

  // ----- the truncated-record path -----

  /** As written, the EOFException path answers false but keeps the cached flag, which is still
      true from the record just consumed: the next hasNext answers true and nextRecord hands out
      the last complete record a second time. This holds for every file whose last record is
      truncated, read up to its last complete record with nothing pending. */
  lemma TruncationRevivesLastRecord(f: SequenceFileData, setup: Setup, s: ReaderState)
    requires f.end == Truncated && |f.records| > 0
    requires Inv(f, s) && !s.closed && !Pending(s) && s.cursor == |f.records| - 1
    ensures var again := Success(Record(RecordOf(setup, f.records[|f.records| - 1])));
            Run(f, setup, s, [NextRecordOp, HasNextOp, HasNextOp, NextRecordOp]).outcomes
              == [again, Success(Flag(false)), Success(Flag(true)), again]
  {
    var again := Success(Record(RecordOf(setup, f.records[|f.records| - 1])));
    var p1 := Perform(f, setup, s, NextRecordOp);
    assert p1.outcome == again && p1.state.hasNext && !Pending(p1.state) && p1.state.cursor == |f.records|;
    var p2 := Perform(f, setup, p1.state, HasNextOp);
    assert HitsTruncation(f, p1.state);
    assert p2.outcome == Success(Flag(false)) && p2.state.hasNext && Pending(p2.state);
    var p3 := Perform(f, setup, p2.state, HasNextOp);
    assert p3 == Step(Success(Flag(true)), p2.state);
    var p4 := Perform(f, setup, p2.state, NextRecordOp);
    assert p4.outcome == again;
    RunOne(f, setup, p2.state, NextRecordOp);
    RunCons(f, setup, p2.state, HasNextOp, [NextRecordOp]);
    RunCons(f, setup, p1.state, HasNextOp, [HasNextOp, NextRecordOp]);
    RunCons(f, setup, s, NextRecordOp, [HasNextOp, HasNextOp, NextRecordOp]);
    assert [NextRecordOp] + [HasNextOp, HasNextOp, NextRecordOp] == [NextRecordOp, HasNextOp, HasNextOp, NextRecordOp];
  }

  /** hasNext as evidently intended: a truncated record ends the file as a clean end does, so the
      cached flag is cleared along with the answer. */
  function HasNextStepCorrected(f: SequenceFileData, s: ReaderState): (r: Step<bool>)
    ensures r.outcome.Success? ==> r.outcome.value == r.state.hasNext
    ensures r.outcome == HasNextStep(f, s).outcome
    ensures Inv(f, s) ==> Inv(f, r.state)
  {
    var r := HasNextStep(f, s);
    if HitsTruncation(f, s) then Step(r.outcome, r.state.(hasNext := false)) else r
  }

  /** With the correction, a call that returned normally is repeated with the same answer and
      no change of state on every path, the truncated one included. */
  lemma CorrectedHasNextIdempotent(f: SequenceFileData, s: ReaderState)
    requires Inv(f, s) && !s.closed
    requires HasNextStepCorrected(f, s).outcome.Success?
    ensures var first := HasNextStepCorrected(f, s);
            HasNextStepCorrected(f, first.state) == first
  {
    var first := HasNextStepCorrected(f, s);
    assert Pending(first.state) && !Decodes(first.state);
  }

  // ----- close poisons the reader -----

  /** On a closed reader every hasNext and every nextRecord fails with IllegalStateException,
      whatever else is called in between, and the reader stays closed. */
  lemma {:induction false} ClosedReaderRefuses(f: SequenceFileData, setup: Setup, s: ReaderState, ops: seq<Op>)
    requires s.closed
    ensures Run(f, setup, s, ops).last.closed
    ensures forall i :: 0 <= i < |ops| && (ops[i].HasNextOp? || ops[i].NextRecordOp?) ==>
              Run(f, setup, s, ops).outcomes[i] == Failure(IllegalState(CLOSED_MESSAGE))
    decreases |ops|
  {
    if ops != [] {
      var first := Perform(f, setup, s, ops[0]);
      ClosedReaderRefuses(f, setup, first.state, ops[1..]);
      var t := Run(f, setup, s, ops);
      forall i | 0 < i < |ops| && (ops[i].HasNextOp? || ops[i].NextRecordOp?)
        ensures t.outcomes[i] == Failure(IllegalState(CLOSED_MESSAGE))
      {
        assert ops[1..][i - 1] == ops[i];
      }
    }
  }

  /** After close(), from any state, every later hasNext and nextRecord fails. */
  lemma CloseIsFinal(f: SequenceFileData, setup: Setup, s: ReaderState, ops: seq<Op>)
    ensures forall i :: 0 < i <= |ops| && (ops[i - 1].HasNextOp? || ops[i - 1].NextRecordOp?) ==>
              Run(f, setup, s, [CloseOp] + ops).outcomes[i] == Failure(IllegalState(CLOSED_MESSAGE))
  {
    assert ([CloseOp] + ops)[1..] == ops;
    ClosedReaderRefuses(f, setup, CloseStep(s), ops);
  }

  // ----- sequential reading -----

  /** With no look-ahead held, n nextRecord calls that stay within the file hand out the next n
      records in file order; each advances recordIndex and the offset counter by one. */
  lemma {:induction false} ReadsInOrder(f: SequenceFileData, setup: Setup, s: ReaderState, n: nat)
    requires Inv(f, s) && !s.closed && !Pending(s)
    requires s.cursor + n <= |f.records|
    ensures var t := Run(f, setup, s, Repeat(NextRecordOp, n));
            && (forall i :: 0 <= i < n ==> t.outcomes[i] == Success(Record(RecordOf(setup, f.records[s.cursor + i]))))
            && Inv(f, t.last) && !t.last.closed && !Pending(t.last)
            && t.last.cursor == s.cursor + n
            && t.last.recordIndex == s.recordIndex + n
            && t.last.offset == s.offset + n
    decreases n
  {
    if n > 0 {
      var first := Perform(f, setup, s, NextRecordOp);
      ReadsInOrder(f, setup, first.state, n - 1);
      var t := Run(f, setup, s, Repeat(NextRecordOp, n));
      var rest := Run(f, setup, first.state, Repeat(NextRecordOp, n - 1));
      assert t.outcomes == [first.outcome] + rest.outcomes;
      forall i | 0 < i < n
        ensures t.outcomes[i] == Success(Record(RecordOf(setup, f.records[s.cursor + i])))
      {
        assert t.outcomes[i] == rest.outcomes[i - 1];
      }
    }
  }

  /** A whole file that ends cleanly, read from a fresh reader: its K records in order, then
      hasNext answers false. The counter reads K after the last record and K + 1 once hasNext
      has found the end (it counts the attempted decode). */
  lemma WholeFileInOrder(f: SequenceFileData, setup: Setup)
    requires f.end == CleanEnd
    ensures var k := |f.records|;
            var t := Run(f, setup, Fresh(f), Repeat(NextRecordOp, k) + [HasNextOp]);
            && (forall i :: 0 <= i < k ==> t.outcomes[i] == Success(Record(RecordOf(setup, f.records[i]))))
            && t.outcomes[k] == Success(Flag(false))
            && Run(f, setup, Fresh(f), Repeat(NextRecordOp, k)).last.offset == k
            && t.last.offset == k + 1
  {
    var k := |f.records|;
    var s := Fresh(f);
    var readOps := Repeat(NextRecordOp, k);
    ReadsInOrder(f, setup, s, k);
    var mid := Run(f, setup, s, readOps);
    RunOne(f, setup, mid.last, HasNextOp);
    var probe := HasNextStep(f, mid.last);
    assert ReadNext(f, mid.last.cursor).EndOfData?;
    assert probe.outcome == Success(false) && probe.state.offset == k + 1;
    var tail := Run(f, setup, mid.last, [HasNextOp]);
    assert tail.outcomes == [Success(Flag(false))] && tail.last.offset == k + 1;
    RunAppend(f, setup, s, readOps, [HasNextOp]);
    var t := Run(f, setup, s, readOps + [HasNextOp]);
    assert t.outcomes == mid.outcomes + tail.outcomes;
    assert t.outcomes[k] == Success(Flag(false));
    forall i | 0 <= i < k
      ensures t.outcomes[i] == Success(Record(RecordOf(setup, f.records[i])))
    {
      assert t.outcomes[i] == mid.outcomes[i];
    }
  }

  // ----- seek -----

  /** seek(n) then nextRecord: the record handed out is the one where sync landed (not
      necessarily record n), the counter reads n and recordIndex n + 1. */
  lemma SeekThenNextRecord(f: SequenceFileData, setup: Setup, s: ReaderState, target: int, position: nat)
    requires Inv(f, s) && !s.closed && target >= 0
    requires SyncLanding(f, position) < |f.records|
    ensures var t := Run(f, setup, s, [SeekOp(target, SyncedTo(position)), NextRecordOp]);
            && t.outcomes == [Success(Repositioned), Success(Record(RecordOf(setup, f.records[SyncLanding(f, position)])))]
            && t.last.offset == target
            && t.last.recordIndex == target + 1
  {
    var ops := [SeekOp(target, SyncedTo(position)), NextRecordOp];
    var afterSeek := Perform(f, setup, s, ops[0]).state;
    assert ops[1..] == [NextRecordOp];
    RunOne(f, setup, afterSeek, NextRecordOp);
    assert Decodes(afterSeek);
    var probe := HasNextStep(f, afterSeek);
    assert probe.state.offset == target && probe.outcome == Success(true);
  }

  /** The offset counter stays a fixed distance from hasNextIndex across every call but a
      successful seek: one ahead on a fresh reader, one behind after seek. */
  lemma {:induction false} OffsetTracksLookAhead(f: SequenceFileData, setup: Setup, s: ReaderState, ops: seq<Op>)
    requires forall i :: 0 <= i < |ops| ==> !ops[i].SeekOp?
    ensures Run(f, setup, s, ops).last.offset - Run(f, setup, s, ops).last.hasNextIndex == s.offset - s.hasNextIndex
    decreases |ops|
  {
    if ops != [] {
      var first := Perform(f, setup, s, ops[0]);
      assert forall i :: 0 <= i < |ops[1..]| ==> ops[1..][i] == ops[i + 1];
      OffsetTracksLookAhead(f, setup, first.state, ops[1..]);
    }
  }

  /** Fresh: offset is hasNextIndex + 1. After a successful seek: hasNextIndex - 1. */
  lemma OffsetShiftFreshAndAfterSeek(f: SequenceFileData, setup: Setup, s: ReaderState, target: int, position: nat)
    requires target >= 0
    ensures Fresh(f).offset - Fresh(f).hasNextIndex == 1
    ensures var t := SeekStep(f, setup, s, target, SyncedTo(position)).state;
            t.offset - t.hasNextIndex == -1
  {
  }
}
