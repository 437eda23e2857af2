/** lib/as_vector/as_vector.h: materialises a range into a vector. */
module AsVector {

  /** `AsVectorImpl`: `push_back` of every element the range-for visits. */
  method AsVectorImpl<T>(range: seq<T>) returns (result: seq<T>)
    ensures |result| == |range|
    ensures forall i :: 0 <= i < |range| ==> result[i] == range[i]
  {
    result := [];
    for i := 0 to |range|
      invariant |result| == i
      invariant forall j :: 0 <= j < i ==> result[j] == range[j]
    {
      result := result + [range[i]];
    }
  }

  /** `AsVector()`: a tag; `range | AsVector()` calls `AsVectorImpl`. */
  datatype AsVectorOperation = AsVectorOperation

  /** `range | AsVector()` */
  method Apply<T>(range: seq<T>, op: AsVectorOperation) returns (result: seq<T>)
    ensures result == range
  {
    result := AsVectorImpl(range);
  }
}
