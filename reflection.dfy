/** The `Message`/`Reflection` capability main.go reads from and writes into, modelled as a
    message whose reflection is a map from field number to value. `Put` replaces the value
    under a field number, as the test helper's reflection does. */
module Reflection {
  import opened Wire

  class Message {
    var fields: map<int64, Value>

    constructor (init: map<int64, Value>)
      ensures fields == init
    {
      fields := init;
    }

    /** Put: stores `v` under field `i`, replacing whatever was there, and reports success. */
    method Put(i: int64, v: Value) returns (ok: bool)
      modifies this
      ensures fields == old(fields)[i := v]
      ensures ok
    {
      fields := fields[i := v];
      ok := true;
    }

    /** GetDescriptors: every field number with its value, agreeing with GetValue on each. */
    function GetDescriptors(): (d: map<int64, Value>)
      reads this
      ensures d.Keys == fields.Keys
      ensures forall i :: i in d ==> d[i] == GetValue(i)
    {
      fields
    }

    /** GetValue: the value under `i`. A missing field reads as Go's nil interface, which has
        neither of the two types the codec accepts. */
    function GetValue(i: int64): (v: Value)
      reads this
      ensures i in fields ==> v == fields[i]
      ensures i !in fields ==> v.Unsupported?
    {
      if i in fields then fields[i] else Unsupported
    }
  }
}
