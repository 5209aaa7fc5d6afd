/** The part of Kafka Connect's data model the reader produces: schema types, boxed values,
    and structs as an ordered sequence of named fields. */
module ConnectData {
  import opened Writables

  datatype SchemaType = INT8 | INT16 | INT32 | INT64 | FLOAT32 | FLOAT64 | BYTES | BOOLEAN | STRING

  /** A Java value as Connect receives it, tagged by its boxed class. */
  datatype Value =
    | ByteValue(b: Int8)
    | ShortValue(s: Int16)
    | IntegerValue(i: Int32)
    | LongValue(l: Int64)
    | FloatValue(floatBits: bv32)
    | DoubleValue(doubleBits: bv64)
    | ByteArrayValue(bytes: seq<Byte>)
    | BooleanValue(flag: bool)
    | StringValue(text: string)

  /** The Java class Connect expects for each schema type. */
  predicate Fits(v: Value, t: SchemaType) {
    match t
    case INT8 => v.ByteValue?
    case INT16 => v.ShortValue?
    case INT32 => v.IntegerValue?
    case INT64 => v.LongValue?
    case FLOAT32 => v.FloatValue?
    case FLOAT64 => v.DoubleValue?
    case BYTES => v.ByteArrayValue?
    case BOOLEAN => v.BooleanValue?
    case STRING => v.StringValue?
  }

  datatype Field = Field(name: string, schema: SchemaType)

  datatype StructSchema = StructSchema(fields: seq<Field>)

  datatype FieldValue = FieldValue(name: string, value: Value)

  datatype Struct = Struct(schema: StructSchema, fields: seq<FieldValue>)

  /** A struct whose fields are those of its schema, in order, each holding a value of the
      field's type. */
  predicate Conforms(s: Struct) {
    && |s.fields| == |s.schema.fields|
    && forall i :: 0 <= i < |s.fields| ==>
         s.fields[i].name == s.schema.fields[i].name && Fits(s.fields[i].value, s.schema.fields[i].schema)
  }

  /** SchemaBuilder.struct().field(keyName, keyType).field(valueName, valueType).build() */
  function KeyValueSchema(keyName: string, keyType: SchemaType, valueName: string, valueType: SchemaType): StructSchema {
    StructSchema([Field(keyName, keyType), Field(valueName, valueType)])
  }
}
