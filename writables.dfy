/** Hadoop's Writable holders, as a closed variant type: the eight primitive kinds the type
    mapping recognises, and every other Writable class as one fallback variant. */
module Writables {

  type Int8 = x: int | -0x80 <= x < 0x80
  type Int16 = x: int | -0x8000 <= x < 0x8000
  type Int32 = x: int | -0x8000_0000 <= x < 0x8000_0000
  type Int64 = x: int | -0x8000_0000_0000_0000 <= x < 0x8000_0000_0000_0000
  type Byte = bv8

  /** The class of a Writable, as a container header names it. */
  datatype WritableClass =
    | ByteClass | ShortClass | IntClass | LongClass
    | FloatClass | DoubleClass | BytesClass | BooleanClass
    | OtherClass(name: string)

  /** A Writable instance. Float and double payloads are kept as their IEEE 754 bit patterns
      and never interpreted. A BytesWritable has a backing buffer and a length `size`; each
      decoded record brings its own buffer (what Hadoop leaves past `size` in a reused
      holder is not modelled). An
      OtherWritable keeps only what its toString() renders. */
  datatype Writable =
    | ByteWritable(b: Int8)
    | ShortWritable(s: Int16)
    | IntWritable(i: Int32)
    | LongWritable(l: Int64)
    | FloatWritable(floatBits: bv32)
    | DoubleWritable(doubleBits: bv64)
    | BytesWritable(backing: seq<Byte>, size: nat)
    | BooleanWritable(flag: bool)
    | OtherWritable(className: string, rendering: string)

  function ClassOf(w: Writable): WritableClass {
    match w
    case ByteWritable(_) => ByteClass
    case ShortWritable(_) => ShortClass
    case IntWritable(_) => IntClass
    case LongWritable(_) => LongClass
    case FloatWritable(_) => FloatClass
    case DoubleWritable(_) => DoubleClass
    case BytesWritable(_, _) => BytesClass
    case BooleanWritable(_) => BooleanClass
    case OtherWritable(name, _) => OtherClass(name)
  }

  /** The empty holder that reflective instantiation of a class yields (Java's zero values;
      what an arbitrary other class renders when empty is not modelled, so it renders ""). */
  function NewInstance(c: WritableClass): (w: Writable)
    ensures ClassOf(w) == c
  {
    match c
    case ByteClass => ByteWritable(0)
    case ShortClass => ShortWritable(0)
    case IntClass => IntWritable(0)
    case LongClass => LongWritable(0)
    case FloatClass => FloatWritable(0)
    case DoubleClass => DoubleWritable(0)
    case BytesClass => BytesWritable([], 0)
    case BooleanClass => BooleanWritable(false)
    case OtherClass(name) => OtherWritable(name, "")
  }
}
