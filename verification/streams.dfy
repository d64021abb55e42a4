/** The part of the engine's binary streams a component's (de)serialisation uses: values are
    appended by a writer and read back in order by a reader. A value is kept as a typed token
    rather than as its bytes. */
module Streams {

  datatype StreamValue = BoolValue(b: bool) | FloatValue(f: real)

  /** ezStreamWriter: everything written so far, in order. */
  class StreamWriter {
    var data: seq<StreamValue>

    constructor ()
      ensures data == []
    {
      data := [];
    }

    /** operator<<(bool) */
    method WriteBool(b: bool)
      modifies this
      ensures data == old(data) + [BoolValue(b)]
    {
      data := data + [BoolValue(b)];
    }

    /** operator<<(float) */
    method WriteFloat(f: real)
      modifies this
      ensures data == old(data) + [FloatValue(f)]
    {
      data := data + [FloatValue(f)];
    }
  }

  /** ezStreamReader: the values of a stream and how many of them have been read. */
  class StreamReader {
    const data: seq<StreamValue>
    var position: nat

    ghost predicate Valid()
      reads this
    {
      position <= |data|
    }

    /** What is left to read. */
    ghost function Remaining(): seq<StreamValue>
      reads this
      requires Valid()
    {
      data[position..]
    }

    constructor (d: seq<StreamValue>)
      ensures data == d && position == 0 && Valid()
    {
      data := d;
      position := 0;
    }

    /** operator>>(bool): the next value, which the writer wrote as a bool. */
    method ReadBool() returns (b: bool)
      requires Valid() && position < |data| && data[position].BoolValue?
      modifies this`position
      ensures Valid() && position == old(position) + 1
      ensures BoolValue(b) == data[old(position)]
    {
      b := data[position].b;
      position := position + 1;
    }

    /** operator>>(float): the next value, which the writer wrote as a float. */
    method ReadFloat() returns (f: real)
      requires Valid() && position < |data| && data[position].FloatValue?
      modifies this`position
      ensures Valid() && position == old(position) + 1
      ensures FloatValue(f) == data[old(position)]
    {
      f := data[position].f;
      position := position + 1;
    }
  }
}
