/** A row of `core`: an ordered list of values, extended in place. */
module Rows {

  /** `core`'s `Value`: a single string (the only kind of value it supports). */
  datatype Value = Value(value: string)

  class Row {
    var values: seq<Value>

    /** `Row::new`: the row holds exactly the given values. */
    constructor (values: seq<Value>)
      ensures this.values == values
    {
      this.values := values;
    }

    /** `Row::add_value`: the value goes last; every value already stored keeps
        its position and contents. `Value` is the only type convertible into a
        `Value`, so the conversion is the identity. */
    method AddValue(value: Value)
      modifies this
      ensures values == old(values) + [value]
      ensures |values| == |old(values)| + 1 && values[|values| - 1] == value
      ensures forall i :: 0 <= i < |old(values)| ==> values[i] == old(values)[i]
    {
      values := values + [value];
    }
  }
}
