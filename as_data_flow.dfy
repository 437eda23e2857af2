/** lib/as_data_flow/as_data_flow.h: a view over a container, made of the container's
    begin and end iterators, taken once at construction. The container is an array and the
    iterators are positions into it. */
module AsDataFlow {
  import AsVector

  /** `AsDataFlowRange`: the container the iterators point into and the two positions.
      The const and non-const pairs are taken from the same container at the same time and
      are equal, so each pair is kept once. */
  datatype AsDataFlowRange<T> = AsDataFlowRange(cont: array<T>, beginIt: nat, endIt: nat)
  {
    /** The positions are inside the container. */
    predicate Bounded()
    {
      beginIt <= endIt <= cont.Length
    }

    /** What iterating `[begin, end)` yields: the container's elements in its own order. */
    function Elements(): seq<T>
      reads cont
      requires Bounded()
    {
      cont[beginIt..endIt]
    }
  }

  /** `AsDataFlow(cont)`: the bounds are the whole container, fixed from now on. */
  function MakeAsDataFlow<T>(cont: array<T>): (flow: AsDataFlowRange<T>)
    ensures flow.cont == cont && flow.Bounded()
    ensures flow.beginIt == 0 && flow.endIt == cont.Length
  {
    AsDataFlowRange(cont, 0, cont.Length)
  }

  /** A flow yields every element of its container, in order; an empty container gives an
      empty flow. */
  lemma FlowYieldsContainer<T>(cont: array<T>)
    ensures MakeAsDataFlow(cont).Elements() == cont[..]
    ensures cont.Length == 0 ==> MakeAsDataFlow(cont).Elements() == []
  {
  }

  /** The range-for over a flow: the element at every position from begin to end. */
  method Iterate<T>(flow: AsDataFlowRange<T>) returns (out: seq<T>)
    requires flow.Bounded()
    ensures out == flow.Elements()
  {
    out := [];
    var it := flow.beginIt;
    while it != flow.endIt
      invariant flow.beginIt <= it <= flow.endIt
      invariant out == flow.cont[flow.beginIt..it]
      decreases flow.endIt - it
    {
      out := out + [flow.cont[it]];
      it := it + 1;
    }
  }

  /** `AsDataFlow(input) | AsVector()` copies: writing any value at any index of the
      container afterwards leaves the vector as it was. */
  method CopyIsIndependent(input: array<int>, index: nat, value: int) returns (result: seq<int>)
    requires index < input.Length
    modifies input
    ensures result == old(input[..])
    ensures input[..] == old(input[..])[index := value]
  {
    var flow := MakeAsDataFlow(input);
    var elements := Iterate(flow);
    result := AsVector.AsVectorImpl(elements);
    input[index] := value;
  }
}
