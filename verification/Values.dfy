/** Cell values and rows. Floats are carried as their 32-bit patterns, text as its UTF-8 bytes. */
module Values {
  import opened Common

  datatype Value = Int(i: int) | Text(utf8: seq<byte>) | Vector(floats: seq<nat>) | Float(float: nat) | Bool(b: bool) | Null

  type Row = seq<Value>

  /** The value in a slot; a schema only names slots that its rows have. */
  function At(row: Row, slot: nat): Value {
    if slot < |row| then row[slot] else Null
  }

  /** The values of the given slots. */
  function Proj(row: Row, slots: seq<nat>): (key: Row)
    ensures |key| == |slots| && forall i :: 0 <= i < |slots| ==> key[i] == At(row, slots[i])
  {
    if slots == [] then [] else [At(row, slots[0])] + Proj(row, slots[1..])
  }
}
