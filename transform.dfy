/** lib/transform/transform.h: a lazy view that applies a function to every upstream item. */
module Transform {

  /** `f` applied to every item of `s`, one output per input, in order. */
  function Mapped<T, U>(s: seq<T>, f: T -> U): (r: seq<U>)
    ensures |r| == |s|
    ensures forall i :: 0 <= i < |s| ==> r[i] == f(s[i])
  {
    if s == [] then [] else [f(s[0])] + Mapped(s[1..], f)
  }

  /** Mapping distributes over concatenation. */
  lemma {:induction false} MappedAppend<T, U>(a: seq<T>, b: seq<T>, f: T -> U)
    ensures Mapped(a + b, f) == Mapped(a, f) + Mapped(b, f)
  {
    var l, r := Mapped(a + b, f), Mapped(a, f) + Mapped(b, f);
    assert |l| == |r|;
    forall i | 0 <= i < |l| ensures l[i] == r[i] {
      if i < |a| {
        assert (a + b)[i] == a[i];
      } else {
        assert (a + b)[i] == b[i - |a|];
      }
    }
  }

  /** `TransformIterator`: `current` is the upstream position `current_`, `func` is `func_`.
      The iterator never skips, so the end of the upstream is the only bound. */
  class TransformIterator<T, U> {
    const items: seq<T>
    const func: T -> U
    var current: nat

    ghost predicate Valid()
      reads this
    {
      current <= |items|
    }

    ghost function Rest(): seq<U>
      reads this
      requires Valid()
    {
      Mapped(items[current..], func)
    }

    constructor (items: seq<T>, current: nat, func: T -> U)
      requires current <= |items|
      ensures Valid() && this.items == items && this.func == func && this.current == current
    {
      this.items := items;
      this.func := func;
      this.current := current;
    }

    /** `operator*`: the function applied to the current upstream item. */
    method Deref() returns (y: U)
      requires Valid() && current < |items|
      ensures y == func(items[current])
      ensures Rest() != [] && y == Rest()[0]
    {
      y := func(items[current]);
    }

    /** `operator++` */
    method Next()
      requires Valid() && current < |items|
      modifies this`current
      ensures Valid() && current == old(current) + 1
      ensures old(Rest()) != [] && Rest() == old(Rest())[1..]
    {
      assert items[current..][1..] == items[current + 1..];
      current := current + 1;
    }

    /** `operator!=`: unequal exactly when the underlying positions differ. */
    method NotEqual(other: TransformIterator<T, U>) returns (ne: bool)
      ensures ne <==> current != other.current
    {
      ne := current != other.current;
    }
  }

  /** `TransformRange`: the upstream range and the function. */
  class TransformRange<T, U> {
    const range: seq<T>
    const func: T -> U

    constructor (range: seq<T>, func: T -> U)
      ensures this.range == range && this.func == func
    {
      this.range := range;
      this.func := func;
    }

    method Begin() returns (it: TransformIterator<T, U>)
      ensures fresh(it) && it.Valid() && it.items == range && it.func == func && it.current == 0
    {
      it := new TransformIterator(range, 0, func);
    }

    method End() returns (it: TransformIterator<T, U>)
      ensures fresh(it) && it.Valid() && it.items == range && it.current == |range|
    {
      it := new TransformIterator(range, |range|, func);
    }
  }

  /** `range | Transform(func) | AsVector()`: one output per upstream item, the i-th being
      `func` of the i-th upstream item. */
  method Collect<T, U>(range: seq<T>, func: T -> U) returns (out: seq<U>)
    ensures |out| == |range|
    ensures forall i :: 0 <= i < |range| ==> out[i] == func(range[i])
  {
    var r := new TransformRange(range, func);
    var it := r.Begin();
    var e := r.End();
    out := [];
    var ne := it.NotEqual(e);
    while ne
      invariant it.Valid() && it.items == range && it.func == func
      invariant e.current == |range| && it != e
      invariant ne <==> it.current < |range|
      invariant |out| == it.current
      invariant forall i :: 0 <= i < |out| ==> out[i] == func(range[i])
      decreases |range| - it.current
    {
      var y := it.Deref();
      out := out + [y];
      it.Next();
      ne := it.NotEqual(e);
    }
  }
}
