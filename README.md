# kafka-connect-fs SequenceFileReader, modelled in Dafny

This project models the reader that kafka-connect-fs uses for Hadoop SequenceFiles, together with
the parts of its base class that it depends on. A SequenceFile is a container of typed key/value
records. The reader works through it one record at a time and turns each record into a Kafka
Connect `Struct` with two fields: the key and the value.

- `writables.dfy` (module `Writables`) defines the Hadoop `Writable` holders as a closed variant
  type. There is one variant for each of the eight classes the type mapping recognises, and one
  fallback variant for every other class. This fallback keeps only what `toString()` renders.
- `connect_data.dfy` (module `ConnectData`) holds the part of Kafka Connect's data model the
  reader produces: schema types, boxed values, `Fits` (the Java class that Connect expects for each
  type), and structs as an ordered sequence of named fields.
- `type_mapping.dfy` (module `TypeMapping`) models `getSchema`, `SeqToStruct.toSchemaValue`,
  `SeqToStruct.apply` and the `SequenceRecord` carrier.
- `file_reader_base.dfy` (module `FileReaderBase`) models `AbstractFileReader`. It covers the
  null-argument check, the filter that keeps the `"file.reader"` configuration keys, and `next()`
  as the adapter applied to `nextRecord()`. The `filePath` the base class keeps is the `const`
  field `filePath` of the reader class, which is what `getFilePath()` returns. Being a `const`, it
  is never reassigned.
- `hadoop_stream.dfy` (module `HadoopStream`) models the Hadoop collaborators abstractly:
  - A file system maps paths to container files.
  - A container file is its header's key and value classes, its records, and how it ends:
    cleanly, with a truncated record (`EOFException`), or with an I/O failure.
  - `reader.next` reads the record at a cursor.
  - `reader.sync` is represented by the outcome it has: a landing position, or an I/O failure.
- `reader_spec.dfy` (module `ReaderSpec`) gives the reader's state machine as pure transitions over
  its state. The state is:
  - `recordIndex` and `hasNextIndex`;
  - the cached `hasNext` flag and the `closed` flag;
  - the base offset counter;
  - the stream position and the two holders.

  It also defines runs of calls, and proves the laws these calls obey.
- `sequence_file_reader.dfy` (module `SequenceFile`) contains `configure`, construction
  (`Open`), and the class `SequenceFileReader`. The class has the Java fields. Its methods
  `HasNext`, `NextRecord`, `Next`, `Seek`, `Close`, `IncrementOffset` and `SetOffset` update
  those fields in place. Each method is proved to follow the matching transition of `ReaderSpec`.

Java exceptions become `Failure` values of `Outcomes.ReaderError`, each keeping the message the
source gives it. A Java null becomes `None`, or `Null` for configuration values.

Behaviour of the code worth noting:
- A null value under the `"file.reader"` prefix is not dropped. `Collectors.toMap` rejects it
  with a `NullPointerException`, so construction fails.
- `nextRecord()` calls `hasNext()` itself, so no earlier readiness check is needed.
- `seek` has no closed check. If `reader.sync` returns normally on the closed Hadoop reader, seek resets the indices and the reader stays closed; if it throws, seek fails with a ConnectException.
- `seek` can move the offset counter backwards.
- `seek` passes the record offset to `reader.sync`, which expects a byte position. The model
  therefore says nothing about which record `seek` lands on. `SeekThenNextRecord` states that
  the record handed out is the one where sync landed.
- After the last record, `hasNext` still advances the counter for the decode it attempts. A file of
  K records therefore leaves the counter at K + 1 (`WholeFileInOrder`).
- The counter runs one ahead of `hasNextIndex` on a fresh reader, but one behind after a `seek`
  (`OffsetTracksLookAhead`, `OffsetShiftFreshAndAfterSeek`). So reading record i after
  `seek(i)` reports offset i, while reading it sequentially reports i + 1. This assumes the
  counter starts at Java's default of 0.

## Model

| member | source | states |
|---|---|---|
| `TypeMapping.GetSchema` | src/main/java/com/github/mmolimar/kafka/connect/fs/file/reader/SequenceFileReader.java:63-82 | Byte/Short/Int/Long/Float/Double/Bytes/BooleanWritable map to INT8/INT16/INT32/INT64/FLOAT32/FLOAT64/BYTES/BOOLEAN, each in both directions. STRING is returned exactly for every other class. |
| `TypeMapping.ToSchemaValue` | src/main/java/com/github/mmolimar/kafka/connect/fs/file/reader/SequenceFileReader.java:140-159 | The value always fits the type that `GetSchema` assigns to the same holder. It carries the wrapped primitive, the holder's whole backing buffer for bytes, not just its first `size` bytes (as `getBytes()` does), and the `toString()` rendering for any other class. |
| `TypeMapping.SchemaDependsOnlyOnClass` | src/main/java/com/github/mmolimar/kafka/connect/fs/file/reader/SequenceFileReader.java:46-50 | The type of any holder equals the type fixed from the empty holder of its class, and the fallback class always gets STRING. |
| `TypeMapping.Apply` | src/main/java/com/github/mmolimar/kafka/connect/fs/file/reader/SequenceFileReader.java:134-138 | The struct has the record's schema and exactly two fields: the key field first, then the value field. Each holds the mapped value. |
| `TypeMapping.ApplyConforms` | src/main/java/com/github/mmolimar/kafka/connect/fs/file/reader/SequenceFileReader.java:134-138 | Take a record whose schema was built from the header classes and whose key and value are of those classes. Its struct conforms to its schema: names in order, and each value of its field's type. |
| `Writables.NewInstance` | src/main/java/com/github/mmolimar/kafka/connect/fs/file/reader/SequenceFileReader.java:46-47 | The holder instantiated for a header class is of that class. |
| `FileReaderBase.CheckArguments` | src/main/java/com/github/mmolimar/kafka/connect/fs/file/reader/AbstractFileReader.java:18-20 | A missing file system or path, and only that, gives IllegalArgumentException("fileSystem and filePath are required"). |
| `FileReaderBase.FilterReaderConfig` | src/main/java/com/github/mmolimar/kafka/connect/fs/file/reader/AbstractFileReader.java:24-26 | The result has exactly the keys starting with "file.reader", with their values unchanged. It fails with NullPointerException exactly when one of those keys holds null. |
| `FileReaderBase.FilterIdempotent` | src/main/java/com/github/mmolimar/kafka/connect/fs/file/reader/AbstractFileReader.java:24-26 | Filtering an already filtered configuration returns it unchanged. |
| `FileReaderBase.NamespacedKeySurvives` | src/main/java/com/github/mmolimar/kafka/connect/fs/file/reader/AbstractFileReader.java:24-26 | A key made of a namespace prefix plus any suffix passes the filter with its value. |
| `FileReaderBase.AdaptNext` | src/main/java/com/github/mmolimar/kafka/connect/fs/file/reader/AbstractFileReader.java:37-39 | next() succeeds exactly when nextRecord() does, returns the adapter applied to that record, and passes on nextRecord's failure unchanged. |
| `HadoopStream.ReadNext` | src/main/java/com/github/mmolimar/kafka/connect/fs/file/reader/SequenceFileReader.java:91 | A record is decoded exactly when the cursor is before the end, and it is the record at the cursor. A clean end answers false. |
| `HadoopStream.SyncLanding` | src/main/java/com/github/mmolimar/kafka/connect/fs/file/reader/SequenceFileReader.java:116 | sync leaves the reader at a record boundary within the file. |
| `ReaderSpec.Fresh` | src/main/java/com/github/mmolimar/kafka/connect/fs/file/reader/SequenceFileReader.java:52-54 | A fresh reader satisfies the reader invariant and holds no look-ahead. |
| `ReaderSpec.HasNextStep` | src/main/java/com/github/mmolimar/kafka/connect/fs/file/reader/SequenceFileReader.java:85-99 | On a closed reader: IllegalStateException, nothing changed. With a look-ahead held: the cached flag, nothing changed. Otherwise it decodes. The invariant `hasNextIndex` ∈ {`recordIndex`, `recordIndex`+1} is kept, a look-ahead is held afterwards, the offset moves by at most one, and `recordIndex` and `closed` never change. The answer is true exactly when a record is available. |
| `ReaderSpec.NextRecordStep` | src/main/java/com/github/mmolimar/kafka/connect/fs/file/reader/SequenceFileReader.java:102-108 | Succeeds exactly when hasNext() answers true, and then the state is hasNext's with `recordIndex` one higher and nothing else changed, and the record carries the schema, field names, key and value. A false answer is NoSuchElementException naming the file. A hasNext failure propagates, and a failure leaves hasNext's state. The invariant is kept. |
| `ReaderSpec.SeekStep` | src/main/java/com/github/mmolimar/kafka/connect/fs/file/reader/SequenceFileReader.java:111-123 | A negative offset is IllegalArgumentException with no change. A failing sync is a ConnectException naming the file, with no change. Otherwise both indices equal the offset, the cache is cleared, the counter is offset - 1 and the stream is where sync landed. `closed`, `key` and `value` are untouched. |
| `ReaderSpec.CloseStep` | src/main/java/com/github/mmolimar/kafka/connect/fs/file/reader/SequenceFileReader.java:126-129 | close sets `closed` and changes nothing else. |
| `ReaderSpec.PendingHasNextIsStable` | src/main/java/com/github/mmolimar/kafka/connect/fs/file/reader/SequenceFileReader.java:88-93 | While a look-ahead is held, n hasNext calls answer the cached flag n times and change nothing: no decode, no offset bump. |
| `ReaderSpec.HasNextIdempotent` | src/main/java/com/github/mmolimar/kafka/connect/fs/file/reader/SequenceFileReader.java:88-93 | After a normal return from hasNext that did not meet a truncated record, any number of repeats give the same answer and leave the state unchanged. |
| `ReaderSpec.TruncationRevivesLastRecord` | src/main/java/com/github/mmolimar/kafka/connect/fs/file/reader/SequenceFileReader.java:94-95 | Take a file whose last record is truncated. After its last complete record is read: hasNext answers false, then true, and nextRecord hands out that record again. |
| `ReaderSpec.HasNextStepCorrected` | src/main/java/com/github/mmolimar/kafka/connect/fs/file/reader/SequenceFileReader.java:94-95 | In the corrected hasNext, every normal answer equals the cached flag. The answers match the code's, and the invariant is kept. |
| `ReaderSpec.CorrectedHasNextIdempotent` | src/main/java/com/github/mmolimar/kafka/connect/fs/file/reader/SequenceFileReader.java:88-95 | With the correction, repeating a normally returning hasNext changes nothing and gives the same answer on every path. |
| `ReaderSpec.ClosedReaderRefuses` | src/main/java/com/github/mmolimar/kafka/connect/fs/file/reader/SequenceFileReader.java:86 | From a closed state, every hasNext and nextRecord in any later run of calls fails with IllegalStateException, and the reader stays closed. |
| `ReaderSpec.CloseIsFinal` | src/main/java/com/github/mmolimar/kafka/connect/fs/file/reader/SequenceFileReader.java:126-128 | After close(), from any state, every later hasNext and nextRecord fails with IllegalStateException. |
| `ReaderSpec.ReadsInOrder` | src/main/java/com/github/mmolimar/kafka/connect/fs/file/reader/SequenceFileReader.java:88-107 | With no look-ahead held, n nextRecord calls within the file return the next n records in file order. Each advances `recordIndex` and the counter by one, and no look-ahead is held afterwards. |
| `ReaderSpec.WholeFileInOrder` | src/main/java/com/github/mmolimar/kafka/connect/fs/file/reader/SequenceFileReader.java:85-108 | A fresh reader over a cleanly ending file of K records returns the K records in order, then hasNext answers false. The counter reads K after the last record and K + 1 after the end is found. |
| `ReaderSpec.SeekThenNextRecord` | src/main/java/com/github/mmolimar/kafka/connect/fs/file/reader/SequenceFileReader.java:111-119 | After seek(n) and then nextRecord, the record returned is the one where sync landed. The counter reads n and `recordIndex` reads n + 1. |
| `ReaderSpec.OffsetTracksLookAhead` | src/main/java/com/github/mmolimar/kafka/connect/fs/file/reader/SequenceFileReader.java:89-90 | Over any run of calls without seek, the offset counter keeps a fixed distance from `hasNextIndex`. |
| `ReaderSpec.OffsetShiftFreshAndAfterSeek` | src/main/java/com/github/mmolimar/kafka/connect/fs/file/reader/SequenceFileReader.java:117-119 | That distance is +1 on a fresh reader and -1 after a successful seek. |
| `SequenceFile.Configure` | src/main/java/com/github/mmolimar/kafka/connect/fs/file/reader/SequenceFileReader.java:58-61 | Each field name is the configured value when its key is present, and "key" or "value" otherwise. |
| `SequenceFile.ConfiguredFieldNames` | src/main/java/com/github/mmolimar/kafka/connect/fs/file/reader/SequenceFileReader.java:25-30 | Suppose the task prefix lies in the "file.reader" namespace. Then field names set in the configuration reach configure, and absent ones default. |
| `SequenceFile.FieldNamesOutsideNamespaceIgnored` | src/main/java/com/github/mmolimar/kafka/connect/fs/file/reader/SequenceFileReader.java:25-30 | Suppose the field-name keys fall outside the "file.reader" namespace. Then both names are always the defaults. |
| `SequenceFile.OpenFailure` | src/main/java/com/github/mmolimar/kafka/connect/fs/file/reader/AbstractFileReader.java:17-27 | The errors come in order. First, null arguments give IllegalArgumentException before any filtering. Next, a null reader option gives NullPointerException before configure. Last, a path that cannot be opened gives IOException. Construction succeeds exactly when none applies. |
| `SequenceFile.Open` | src/main/java/com/github/mmolimar/kafka/connect/fs/file/reader/SequenceFileReader.java:40-55 | Construction fails exactly as `OpenFailure` says. On success, the new reader is valid and fresh. It holds the given path and that path's file, and its field names are configure's result on the filtered configuration. |
| `SequenceFile.SequenceFileReader.constructor` | src/main/java/com/github/mmolimar/kafka/connect/fs/file/reader/SequenceFileReader.java:48-54 | The schema is the two fields from the header classes' types. Both indices are -1, nothing is cached, the reader is open and the counter is 0. |
| `SequenceFile.SequenceFileReader.IncrementOffset` | src/main/java/com/github/mmolimar/kafka/connect/fs/file/reader/SequenceFileReader.java:90 | The counter grows by one. |
| `SequenceFile.SequenceFileReader.SetOffset` | src/main/java/com/github/mmolimar/kafka/connect/fs/file/reader/SequenceFileReader.java:119 | The counter takes the given value. |
| `SequenceFile.SequenceFileReader.ReaderNext` | src/main/java/com/github/mmolimar/kafka/connect/fs/file/reader/SequenceFileReader.java:91 | The holders are overwritten in place with the decoded record and the stream advances. Otherwise nothing changes. |
| `SequenceFile.SequenceFileReader.HasNext` | src/main/java/com/github/mmolimar/kafka/connect/fs/file/reader/SequenceFileReader.java:85-99 | The fields change, and the answer is given, as `HasNextStep` prescribes. |
| `SequenceFile.SequenceFileReader.NextRecord` | src/main/java/com/github/mmolimar/kafka/connect/fs/file/reader/SequenceFileReader.java:102-108 | The fields change, and the answer is given, as `NextRecordStep` prescribes. |
| `SequenceFile.SequenceFileReader.Next` | src/main/java/com/github/mmolimar/kafka/connect/fs/file/reader/AbstractFileReader.java:37-39 | The result is the adapter applied to nextRecord's outcome. Every struct produced has the reader's schema and conforms to it. |
| `SequenceFile.SequenceFileReader.Seek` | src/main/java/com/github/mmolimar/kafka/connect/fs/file/reader/SequenceFileReader.java:111-123 | The fields change, and the answer is given, as `SeekStep` prescribes. |
| `SequenceFile.SequenceFileReader.Close` | src/main/java/com/github/mmolimar/kafka/connect/fs/file/reader/SequenceFileReader.java:126-129 | `closed` is set and nothing else changes. |

## Findings

| source | as written | input that shows it | evidently intended | confidence | as-written member | corrected member |
|---|---|---|---|---|---|---|
| src/main/java/com/github/mmolimar/kafka/connect/fs/file/reader/SequenceFileReader.java:94-95 | On `EOFException`, `hasNext()` returns false but leaves the cached `hasNext` field as it was. That field is still true from the record just consumed, and `hasNextIndex` has already moved one past `recordIndex`. The next `hasNext()` therefore returns the cached true without decoding, and `nextRecord()` returns the last record a second time. | A file with one complete record followed by a truncated one. The calls are nextRecord, hasNext, hasNext, nextRecord. They return record 0, false, true, and record 0 again. | A truncated record ends the file as a clean end does: the cache is cleared, and later calls answer false. `ReaderSpec.CorrectedHasNextIdempotent` proves that repeating hasNext then changes nothing on every path. | medium, not executed | `ReaderSpec.TruncationRevivesLastRecord` | `ReaderSpec.HasNextStepCorrected` |

The reader class keeps the behaviour as written. The corrected transition and its idempotence
proof sit beside it.

## Left out

- Hadoop I/O is abstract: a file is its header classes, its records and how it ends. Left out are
  byte-level decoding, compression, `SequenceFile.Reader` construction, and the buffer size read
  from `fs.getConf()` (src/main/java/com/github/mmolimar/kafka/connect/fs/file/reader/SequenceFileReader.java:43-45).
- What `reader.sync` does with its byte-position argument is not modelled. Its outcome (landing
  position, or IOException) is a parameter of `Seek`, and nothing says seek lands on the
  requested record.
- After a failed decode (EOFException or IOException), the holders and the stream position are
  kept as they were, and after a failed sync the position is too. Hadoop may have partially
  overwritten or moved them.
- `ReflectionUtils.newInstance` is replaced by the header's class tag. The rendering of an empty
  instance of an unrecognised class is not modelled: it is "". Subclasses of the eight Writable
  classes are not distinguished.
- `SchemaBuilder` and `Struct` internals are left out, including the duplicate-field check when
  the key and value field names coincide. A struct is the schema plus two (name, value) fields.
- Leftover bytes of a reused BytesWritable buffer are not modelled. Each decoded record's buffer
  is taken from the file as is, so a short record read after a longer one does not carry the
  longer one's stale tail, as it can in the source. Nothing relates a buffer's length to `size`.
- A null `config` map (`config.entrySet()` throws NullPointerException) and a null key in it
  (`entry.getKey().startsWith(...)` throws NullPointerException) are not modelled: the
  configuration is a map of non-null string keys.
- Float and double payloads are opaque bit patterns. No floating-point arithmetic is done.
- Java exceptions are `ReaderError` values. Wrapped IOException causes are not kept.
- `SequenceFile.SequenceFileReader.Close` has no error outcome. `reader.close()` can throw an
  IOException, but only after `closed` is set, so the state is the same either way.
- `SequenceFile.SequenceFileReader.NextRecord`: the returned record is a snapshot. In the source
  it aliases the reader's mutable holders, so applying it after a later `hasNext()` would see the
  newer contents. `next()` applies it at once, so `next()` is unaffected.
- `recordIndex`, `hasNextIndex` and the offset counter are unbounded integers. Java's 64-bit
  `long` wrap-around is not modelled, since it needs about 2^63 records or a seek to
  `Long.MAX_VALUE` followed by hasNext.
- `FsSourceTaskConfig` is not part of this model. Its `FILE_READER_PREFIX`, on which the
  field-name keys are built, is a parameter (`taskPrefix`).
- Configuration values are strings or null. A non-string value reaching `configure` would fail
  with a ClassCastException, and that is not modelled.
- The initial value of the offset counter is not shown in `AbstractFileReader`. The model uses
  Java's default for a `long` field, 0.
- Logging, task orchestration and threads are left out. The reader is single-threaded.
