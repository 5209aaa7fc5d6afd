/** The Hadoop collaborators, abstracted: a file system mapping paths to container files, a
    container file as its header classes, its records and how it ends, and the outcomes of
    SequenceFile.Reader's next and sync. */
module HadoopStream {
  import opened Writables

  datatype Path = Path(name: string)

  datatype NativeRecord = NativeRecord(key: Writable, value: Writable)

  /** What SequenceFile.Reader.next does once every record has been read: report a clean end
      (return false), hit a truncated record (EOFException), or fail (another IOException). */
  datatype StreamEnd = CleanEnd | Truncated | Unreadable

  datatype RawSequenceFile = RawSequenceFile(
    keyClass: WritableClass,
    valueClass: WritableClass,
    records: seq<NativeRecord>,
    end: StreamEnd)

  /** Every record's key and value are of the classes the header declares. */
  predicate WellTyped(f: RawSequenceFile) {
    forall i :: 0 <= i < |f.records| ==>
      ClassOf(f.records[i].key) == f.keyClass && ClassOf(f.records[i].value) == f.valueClass
  }

  type SequenceFileData = f: RawSequenceFile | WellTyped(f)
    witness RawSequenceFile(IntClass, IntClass, [], CleanEnd)

  datatype FileSystem = FileSystem(files: map<Path, SequenceFileData>)

  datatype ReadOutcome = Decoded(record: NativeRecord) | EndOfData | EofException | IoException

  /** reader.next(key, value) with the reader positioned before record `cursor`. */
  function ReadNext(f: SequenceFileData, cursor: nat): (r: ReadOutcome)
    ensures r.Decoded? <==> cursor < |f.records|
    ensures r.Decoded? ==> r.record == f.records[cursor]
    ensures r.EndOfData? <==> cursor >= |f.records| && f.end == CleanEnd
  {
    if cursor < |f.records| then Decoded(f.records[cursor])
    else match f.end
      case CleanEnd => EndOfData
      case Truncated => EofException
      case Unreadable => IoException
  }

  /** reader.sync(position): it scans for a sync marker from a byte position and lands on some
      record boundary, or fails with an IOException. Where it lands is not modelled: it is the
      `position` the outcome names, clamped to the end of the file. */
  datatype SyncOutcome = SyncedTo(position: nat) | SyncIoException

  function SyncLanding(f: SequenceFileData, position: nat): (c: nat)
    ensures c <= |f.records|
    ensures position <= |f.records| ==> c == position
  {
    if position <= |f.records| then position else |f.records|
  }
}
