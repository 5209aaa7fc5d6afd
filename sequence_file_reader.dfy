/** SequenceFileReader: opening a container file, configure, and the reader object whose
    hasNext, nextRecord, next, seek and close update its fields in place. */
module SequenceFile {
  import opened Outcomes
  import opened Writables
  import opened ConnectData
  import opened TypeMapping
  import opened HadoopStream
  import opened FileReaderBase
  import opened ReaderSpec

  const FIELD_NAME_KEY_DEFAULT := "key"
  const FIELD_NAME_VALUE_DEFAULT := "value"

  /** The configuration keys for the two field names, under the task's reader prefix
      (FsSourceTaskConfig.FILE_READER_PREFIX, which is not part of this model). */
  function FieldNameKeyConf(taskPrefix: string): string {
    taskPrefix + "sequence.field_name.key"
  }

  function FieldNameValueConf(taskPrefix: string): string {
    taskPrefix + "sequence.field_name.value"
  }

  datatype FieldNames = FieldNames(keyFieldName: string, valueFieldName: string)

  /** configure: each field name is the configured one when its key is present, the default
      otherwise. */
  function Configure(taskPrefix: string, readerConf: map<string, ConfigValue>): (names: FieldNames)
    requires NoNulls(readerConf)
    ensures FieldNameKeyConf(taskPrefix) in readerConf ==>
              names.keyFieldName == readerConf[FieldNameKeyConf(taskPrefix)].text
    ensures FieldNameKeyConf(taskPrefix) !in readerConf ==> names.keyFieldName == FIELD_NAME_KEY_DEFAULT
    ensures FieldNameValueConf(taskPrefix) in readerConf ==>
              names.valueFieldName == readerConf[FieldNameValueConf(taskPrefix)].text
    ensures FieldNameValueConf(taskPrefix) !in readerConf ==> names.valueFieldName == FIELD_NAME_VALUE_DEFAULT
  {
    var keyName := if FieldNameKeyConf(taskPrefix) in readerConf
                   then readerConf[FieldNameKeyConf(taskPrefix)].text else FIELD_NAME_KEY_DEFAULT;
    var valueName := if FieldNameValueConf(taskPrefix) in readerConf
                     then readerConf[FieldNameValueConf(taskPrefix)].text else FIELD_NAME_VALUE_DEFAULT;
    FieldNames(keyName, valueName)
  }

  /** When the task prefix lies in the "file.reader" namespace, the field names a caller sets
      reach configure through the filter; absent ones default to "key" and "value". */
  lemma ConfiguredFieldNames(taskPrefix: string, config: map<string, ConfigValue>)
    requires InReaderNamespace(taskPrefix)
    requires FilterReaderConfig(config).Success?
    ensures var names := Configure(taskPrefix, FilterReaderConfig(config).value);
            && (FieldNameKeyConf(taskPrefix) in config ==>
                  config[FieldNameKeyConf(taskPrefix)] == Text(names.keyFieldName))
            && (FieldNameKeyConf(taskPrefix) !in config ==> names.keyFieldName == FIELD_NAME_KEY_DEFAULT)
            && (FieldNameValueConf(taskPrefix) in config ==>
                  config[FieldNameValueConf(taskPrefix)] == Text(names.valueFieldName))
            && (FieldNameValueConf(taskPrefix) !in config ==> names.valueFieldName == FIELD_NAME_VALUE_DEFAULT)
  {
    if FieldNameKeyConf(taskPrefix) in config {
      NamespacedKeySurvives(config, taskPrefix, "sequence.field_name.key");
    }
    if FieldNameValueConf(taskPrefix) in config {
      NamespacedKeySurvives(config, taskPrefix, "sequence.field_name.value");
    }
  }

  /** When the field-name keys fall outside the "file.reader" namespace, the filter drops them
      and both names are always the defaults, whatever the configuration says. */
  lemma FieldNamesOutsideNamespaceIgnored(taskPrefix: string, config: map<string, ConfigValue>)
    requires !InReaderNamespace(FieldNameKeyConf(taskPrefix)) && !InReaderNamespace(FieldNameValueConf(taskPrefix))
    requires FilterReaderConfig(config).Success?
    ensures Configure(taskPrefix, FilterReaderConfig(config).value) == FieldNames(FIELD_NAME_KEY_DEFAULT, FIELD_NAME_VALUE_DEFAULT)
  {
  }

  /** Why construction fails, in the order the constructors check: null arguments first, then a
      null reader option (the filter runs before configure), then a path the file system cannot
      open (after configure has run). */
  function OpenFailure(fs: Option<FileSystem>, filePath: Option<Path>, config: map<string, ConfigValue>): (e: Option<ReaderError>)
    ensures fs.None? || filePath.None? ==> e == Some(IllegalArgument(REQUIRED_ARGUMENTS_MESSAGE))
    ensures e == Some(NullPointer) <==> fs.Some? && filePath.Some? && FilterReaderConfig(config).Failure?
    ensures e == Some(IOException) <==>
              fs.Some? && filePath.Some? && FilterReaderConfig(config).Success? && filePath.value !in fs.value.files
    ensures e.None? <==>
              fs.Some? && filePath.Some? && FilterReaderConfig(config).Success? && filePath.value in fs.value.files
  {
    if CheckArguments(fs, filePath).Some? then CheckArguments(fs, filePath)
    else if FilterReaderConfig(config).Failure? then Some(FilterReaderConfig(config).error)
    else if filePath.value !in fs.value.files then Some(IOException)
    else None
  }

  /** new SequenceFileReader(fs, filePath, config): the base constructor's checks and config
      scoping, then the container file opened, the holders and the schema fixed. */
  method Open(fs: Option<FileSystem>, filePath: Option<Path>, config: map<string, ConfigValue>, taskPrefix: string)
    returns (r: Result<SequenceFileReader, ReaderError>)
    ensures r.Failure? <==> OpenFailure(fs, filePath, config).Some?
    ensures r.Failure? ==> Some(r.error) == OpenFailure(fs, filePath, config)
    ensures r.Success? ==>
              && fresh(r.value) && r.value.Valid()
              && r.value.filePath == filePath.value
              && r.value.file == fs.value.files[filePath.value]
              && FieldNames(r.value.keyFieldName, r.value.valueFieldName)
                 == Configure(taskPrefix, FilterReaderConfig(config).value)
              && r.value.State() == Fresh(r.value.file)
  {
    var invalid := CheckArguments(fs, filePath);
    if invalid.Some? {
      return Failure(invalid.value);
    }
    var readerConf := FilterReaderConfig(config);
    if readerConf.Failure? {
      return Failure(readerConf.error);
    }
    var names := Configure(taskPrefix, readerConf.value);
    if filePath.value !in fs.value.files {
      return Failure(IOException);
    }
    var reader := new SequenceFileReader(filePath.value, fs.value.files[filePath.value], names);
    return Success(reader);
  }

  class SequenceFileReader {
    // fixed at construction; filePath is what getFilePath() returns
    const filePath: Path
    const file: SequenceFileData
    const keyFieldName: string
    const valueFieldName: string
    const schema: StructSchema

    // AbstractFileReader's offset counter
    var offset: int
    // the Hadoop reader's position and the holders it decodes into
    var cursor: nat
    var key: Writable
    var value: Writable
    // the look-ahead cursor and the cache
    var recordIndex: int
    var hasNextIndex: int
    var hasNext: bool
    var closed: bool

    function Fixed(): Setup {
      Setup(filePath, schema, keyFieldName, valueFieldName)
    }

    function State(): ReaderState
      reads this
    {
      ReaderState(recordIndex, hasNextIndex, hasNext, closed, offset, cursor, key, value)
    }

    ghost predicate Valid()
      reads this
    {
      && Inv(file, State())
      && schema == KeyValueSchema(keyFieldName, SchemaOfClass(file.keyClass),
                                  valueFieldName, SchemaOfClass(file.valueClass))
    }

    /** The field initialisation of the constructor, once the file is open and the field names
        are configured: empty holders of the header classes, the schema from their types, both
        indices -1, nothing cached, open. */
    constructor (filePath: Path, file: SequenceFileData, names: FieldNames)
      ensures Valid()
      ensures this.filePath == filePath && this.file == file
      ensures keyFieldName == names.keyFieldName && valueFieldName == names.valueFieldName
      ensures State() == Fresh(file)
    {
      var emptyKey := NewInstance(file.keyClass);
      var emptyValue := NewInstance(file.valueClass);
      this.filePath := filePath;
      this.file := file;
      keyFieldName := names.keyFieldName;
      valueFieldName := names.valueFieldName;
      key := emptyKey;
      value := emptyValue;
      schema := KeyValueSchema(names.keyFieldName, GetSchema(emptyKey), names.valueFieldName, GetSchema(emptyValue));
      offset := 0;
      cursor := 0;
      recordIndex := -1;
      hasNextIndex := -1;
      hasNext := false;
      closed := false;
    }

    method IncrementOffset()
      modifies this`offset
      ensures offset == old(offset) + 1
    {
      offset := offset + 1;
    }

    method SetOffset(newOffset: int)
      modifies this`offset
      ensures offset == newOffset
    {
      offset := newOffset;
    }

    /** reader.next(key, value): decodes the record at the cursor into the holders. */
    method ReaderNext() returns (r: ReadOutcome)
      modifies this`cursor, this`key, this`value
      ensures r == HadoopStream.ReadNext(file, old(cursor))
      ensures r.Decoded? ==> cursor == old(cursor) + 1 && key == r.record.key && value == r.record.value
      ensures !r.Decoded? ==> cursor == old(cursor) && key == old(key) && value == old(value)
    {
      r := HadoopStream.ReadNext(file, cursor);
      if r.Decoded? {
        cursor := cursor + 1;
        key := r.record.key;
        value := r.record.value;
      }
    }

    method HasNext() returns (r: Result<bool, ReaderError>)
      requires Valid()
      modifies this
      ensures Valid()
      ensures Step(r, State()) == HasNextStep(file, old(State()))
    {
      if closed {
        return Failure(IllegalState(CLOSED_MESSAGE));
      }
      if hasNextIndex == -1 || hasNextIndex == recordIndex {
        hasNextIndex := hasNextIndex + 1;
        IncrementOffset();
        var read := ReaderNext();
        match read
        case Decoded(_) =>
          hasNext := true;
        case EndOfData =>
          hasNext := false;
        case EofException =>
          return Success(false);
        case IoException =>
          return Failure(ConnectException(None));
      }
      return Success(hasNext);
    }

    method NextRecord() returns (r: Result<SequenceRecord, ReaderError>)
      requires Valid()
      modifies this
      ensures Valid()
      ensures Step(r, State()) == NextRecordStep(file, Fixed(), old(State()))
    {
      var more := HasNext();
      if more.Failure? {
        return Failure(more.error);
      }
      if !more.value {
        return Failure(NoSuchElement(NO_MORE_RECORDS_MESSAGE + filePath.name));
      }
      recordIndex := recordIndex + 1;
      return Success(RecordOf(Fixed(), NativeRecord(key, value)));
    }

    /** next(): the adapter applied to nextRecord(). Every struct it produces conforms to the
        reader's schema. */
    method Next() returns (r: Result<Struct, ReaderError>)
      requires Valid()
      modifies this
      ensures Valid()
      ensures var st := NextRecordStep(file, Fixed(), old(State()));
              r == AdaptNext(st.outcome, Apply) && State() == st.state
      ensures r.Success? ==> r.value.schema == schema && Conforms(r.value)
    {
      var record := NextRecord();
      r := AdaptNext(record, Apply);
      if record.Success? {
        ApplyConforms(record.value, file.keyClass, file.valueClass);
      }
    }

    /** seek(offset); `sync` is what reader.sync(offset) does. */
    method Seek(target: int, sync: SyncOutcome) returns (r: Result<(), ReaderError>)
      requires Valid()
      modifies this
      ensures Valid()
      ensures Step(r, State()) == SeekStep(file, Fixed(), old(State()), target, sync)
    {
      if target < 0 {
        return Failure(IllegalArgument(NEGATIVE_OFFSET_MESSAGE));
      }
      match sync
      case SyncIoException =>
        return Failure(ConnectException(Some(SEEK_ERROR_MESSAGE + filePath.name)));
      case SyncedTo(position) =>
        cursor := SyncLanding(file, position);
        hasNextIndex := target;
        recordIndex := target;
        hasNext := false;
        SetOffset(target - 1);
        return Success(());
    }

    method Close()
      requires Valid()
      modifies this
      ensures Valid()
      ensures State() == CloseStep(old(State()))
    {
      closed := true;
    }
  }
}
