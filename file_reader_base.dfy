/** AbstractFileReader: the argument check, the scoping of the configuration to the reader
    namespace, and next() as the adapter applied to nextRecord(). The offset counter it owns
    lives on the concrete reader class (SequenceFile.SequenceFileReader). */
module FileReaderBase {
  import opened Outcomes
  import opened ConnectData

  const FILE_READER_PREFIX_CONF := "file.reader"
  const REQUIRED_ARGUMENTS_MESSAGE := "fileSystem and filePath are required"

  /** A configuration value: Java's null, or a value (every value the model reads is a string). */
  datatype ConfigValue = Null | Text(text: string)

  predicate InReaderNamespace(key: string) {
    FILE_READER_PREFIX_CONF <= key
  }

  predicate NoNulls(conf: map<string, ConfigValue>) {
    forall k :: k in conf ==> conf[k].Text?
  }

  /** The constructor's null check: a missing file system or path is an IllegalArgumentException. */
  function CheckArguments<F, P>(fs: Option<F>, filePath: Option<P>): (r: Option<ReaderError>)
    ensures r.Some? <==> fs.None? || filePath.None?
    ensures r.Some? ==> r.value == IllegalArgument(REQUIRED_ARGUMENTS_MESSAGE)
  {
    if fs.None? || filePath.None? then Some(IllegalArgument(REQUIRED_ARGUMENTS_MESSAGE)) else None
  }

  /** The stream filter/collect that builds the map handed to configure: the entries whose key
      starts with "file.reader", values unchanged. Collectors.toMap refuses a null value, so a
      null in the namespace is a NullPointerException; nulls outside it are never looked at. */
  function FilterReaderConfig(config: map<string, ConfigValue>): (r: Result<map<string, ConfigValue>, ReaderError>)
    ensures r.Failure? <==> exists k :: k in config && InReaderNamespace(k) && config[k].Null?
    ensures r.Failure? ==> r.error == NullPointer
    ensures r.Success? ==> forall k :: k in r.value <==> k in config && InReaderNamespace(k)
    ensures r.Success? ==> forall k :: k in r.value ==> r.value[k] == config[k]
    ensures r.Success? ==> NoNulls(r.value)
  {
    if exists k :: k in config && InReaderNamespace(k) && config[k].Null? then Failure(NullPointer)
    else Success(map k | k in config && InReaderNamespace(k) :: config[k])
  }

  /** Filtering an already filtered configuration changes nothing. */
  lemma FilterIdempotent(config: map<string, ConfigValue>)
    requires FilterReaderConfig(config).Success?
    ensures FilterReaderConfig(FilterReaderConfig(config).value) == FilterReaderConfig(config)
  {
    var once := FilterReaderConfig(config).value;
    var twice := FilterReaderConfig(once);
    assert twice.Success?;
    forall k | k in once
      ensures k in twice.value && twice.value[k] == once[k]
    {
    }
    assert twice.value == once;
  }

  /** A key of the form namespace-prefix + suffix survives the filter with its value. */
  lemma NamespacedKeySurvives(config: map<string, ConfigValue>, prefix: string, suffix: string)
    requires InReaderNamespace(prefix)
    requires prefix + suffix in config
    requires FilterReaderConfig(config).Success?
    ensures prefix + suffix in FilterReaderConfig(config).value
    ensures FilterReaderConfig(config).value[prefix + suffix] == config[prefix + suffix]
  {
    var key := prefix + suffix;
    assert key[..|FILE_READER_PREFIX_CONF|] == prefix[..|FILE_READER_PREFIX_CONF|];
    assert InReaderNamespace(key);
  }

  /** next(): the adapter applied to nextRecord(); a failure of nextRecord propagates unchanged. */
  function AdaptNext<T>(record: Result<T, ReaderError>, adapter: T -> Struct): (r: Result<Struct, ReaderError>)
    ensures r.Success? <==> record.Success?
    ensures record.Failure? ==> r == Failure(record.error)
    ensures record.Success? ==> r == Success(adapter(record.value))
  {
    match record
    case Success(rec) => Success(adapter(rec))
    case Failure(e) => Failure(e)
  }
}
