/** SequenceFileReader's native-to-Connect mapping: getSchema, the SeqToStruct adapter and the
    SequenceRecord carrier it consumes. */
module TypeMapping {
  import opened Writables
  import opened ConnectData

  /** getSchema: the Connect type of a holder, by an instanceof chain over eight Writable
      classes, with STRING for every other class. */
  function GetSchema(w: Writable): (t: SchemaType)
    ensures t == INT8 <==> w.ByteWritable?
    ensures t == INT16 <==> w.ShortWritable?
    ensures t == INT32 <==> w.IntWritable?
    ensures t == INT64 <==> w.LongWritable?
    ensures t == FLOAT32 <==> w.FloatWritable?
    ensures t == FLOAT64 <==> w.DoubleWritable?
    ensures t == BYTES <==> w.BytesWritable?
    ensures t == BOOLEAN <==> w.BooleanWritable?
    ensures t == STRING <==> ClassOf(w).OtherClass?
  {
    if w.ByteWritable? then INT8
    else if w.ShortWritable? then INT16
    else if w.IntWritable? then INT32
    else if w.LongWritable? then INT64
    else if w.FloatWritable? then FLOAT32
    else if w.DoubleWritable? then FLOAT64
    else if w.BytesWritable? then BYTES
    else if w.BooleanWritable? then BOOLEAN
    else STRING
  }

  /** SeqToStruct.toSchemaValue: the wrapped primitive for the eight recognised classes
      (getBytes() hands out the holder's whole backing buffer, not its first `size` bytes), toString() for every other class. */
  function ToSchemaValue(w: Writable): (r: Value)
    ensures Fits(r, GetSchema(w))
    ensures w.ByteWritable? ==> r.b == w.b
    ensures w.ShortWritable? ==> r.s == w.s
    ensures w.IntWritable? ==> r.i == w.i
    ensures w.LongWritable? ==> r.l == w.l
    ensures w.FloatWritable? ==> r.floatBits == w.floatBits
    ensures w.DoubleWritable? ==> r.doubleBits == w.doubleBits
    ensures w.BytesWritable? ==> r.bytes == w.backing
    ensures w.BooleanWritable? ==> r.flag == w.flag
    ensures w.OtherWritable? ==> r.text == w.rendering
  {
    match w
    case ByteWritable(b) => ByteValue(b)
    case ShortWritable(s) => ShortValue(s)
    case IntWritable(i) => IntegerValue(i)
    case LongWritable(l) => LongValue(l)
    case FloatWritable(bits) => FloatValue(bits)
    case DoubleWritable(bits) => DoubleValue(bits)
    case BytesWritable(backing, _) => ByteArrayValue(backing)
    case BooleanWritable(flag) => BooleanValue(flag)
    case OtherWritable(_, rendering) => StringValue(rendering)
  }

  /** The schema a reader fixes from the empty holder of a header class. */
  function SchemaOfClass(c: WritableClass): SchemaType {
    GetSchema(NewInstance(c))
  }

  /** The type getSchema assigns depends on the holder's class only, so the schema fixed from
      the empty holder is the type of every record decoded into that holder. */
  lemma SchemaDependsOnlyOnClass(w: Writable)
    ensures GetSchema(w) == SchemaOfClass(ClassOf(w))
    ensures ClassOf(w).OtherClass? ==> SchemaOfClass(ClassOf(w)) == STRING
  {
  }

  /** What nextRecord hands to the adapter: the reader's schema, its two field names and the
      current key and value. (In the source the record aliases the reader's mutable holders;
      here it is a snapshot.) */
  datatype SequenceRecord = SequenceRecord(
    schema: StructSchema,
    keyFieldName: string,
    key: Writable,
    valueFieldName: string,
    value: Writable)

  /** SeqToStruct.apply: a struct over the record's schema with the key field, then the value
      field, each holding the mapped value. */
  function Apply(rec: SequenceRecord): (s: Struct)
    ensures s.schema == rec.schema && |s.fields| == 2
    ensures s.fields[0] == FieldValue(rec.keyFieldName, ToSchemaValue(rec.key))
    ensures s.fields[1] == FieldValue(rec.valueFieldName, ToSchemaValue(rec.value))
  {
    Struct(rec.schema, [FieldValue(rec.keyFieldName, ToSchemaValue(rec.key)),
                        FieldValue(rec.valueFieldName, ToSchemaValue(rec.value))])
  }

  /** A record whose schema was built from the header classes, and whose key and value are of
      those classes, becomes a struct that conforms to its schema: value and type always agree,
      so Struct.put never rejects a value. */
  lemma ApplyConforms(rec: SequenceRecord, keyClass: WritableClass, valueClass: WritableClass)
    requires rec.schema == KeyValueSchema(rec.keyFieldName, SchemaOfClass(keyClass),
                                          rec.valueFieldName, SchemaOfClass(valueClass))
    requires ClassOf(rec.key) == keyClass && ClassOf(rec.value) == valueClass
    ensures Conforms(Apply(rec))
  {
    SchemaDependsOnlyOnClass(rec.key);
    SchemaDependsOnlyOnClass(rec.value);
  }
}
