/** lib/drop_nullopt/drop_nullopt.h: a lazy view over optional items that yields the
    present values, unwrapped, and silently skips the absent ones. */
module DropNullopt {
  import opened Common
  import Filter

  /** The present values of `s`, unwrapped, in upstream order. */
  function Present<T>(s: seq<Option<T>>): (r: seq<T>)
    ensures |r| <= |s|
  {
    if s == [] then []
    else (if s[0].Some? then [s[0].value] else []) + Present(s[1..])
  }

  /** Every output value was present upstream. */
  lemma {:induction false} PresentSound<T>(s: seq<Option<T>>, x: T)
    requires x in Present(s)
    ensures Some(x) in s
  {
    if s[0].Some? && x == s[0].value {
    } else {
      PresentSound(s[1..], x);
    }
  }

  /** Every present value reaches the output. */
  lemma {:induction false} PresentComplete<T>(s: seq<Option<T>>, i: nat)
    requires i < |s| && s[i].Some?
    ensures s[i].value in Present(s)
  {
    if i > 0 {
      PresentComplete(s[1..], i - 1);
    }
  }

  /** Number of present items. */
  function CountPresent<T>(s: seq<Option<T>>): nat
  {
    if s == [] then 0 else (if s[0].Some? then 1 else 0) + CountPresent(s[1..])
  }

  /** One output per present item. */
  lemma {:induction false} PresentLength<T>(s: seq<Option<T>>)
    ensures |Present(s)| == CountPresent(s)
  {
    if s != [] {
      PresentLength(s[1..]);
    }
  }

  lemma {:induction false} PresentAppend<T>(a: seq<Option<T>>, b: seq<Option<T>>)
    ensures Present(a + b) == Present(a) + Present(b)
  {
    if a == [] {
      assert a + b == b;
    } else {
      var ab := a + b;
      assert ab[0] == a[0];
      assert ab[1..] == a[1..] + b;
      PresentAppend(a[1..], b);
      var head := if a[0].Some? then [a[0].value] else [];
      assert Present(ab) == head + Present(a[1..] + b);
      assert Present(a) == head + Present(a[1..]);
    }
  }

  /** An input with no absent item is passed through, unwrapped, element by element. */
  lemma {:induction false} PresentAllSome<T>(s: seq<Option<T>>)
    requires forall i :: 0 <= i < |s| ==> s[i].Some?
    ensures |Present(s)| == |s|
    ensures forall i :: 0 <= i < |s| ==> Present(s)[i] == s[i].value
  {
    if s != [] {
      PresentAllSome(s[1..]);
    }
  }

  /** An all-absent input, whatever its length and however the absent items are
      arranged, yields nothing. */
  lemma {:induction false} PresentAllNone<T>(s: seq<Option<T>>)
    requires forall i :: 0 <= i < |s| ==> s[i].None?
    ensures Present(s) == []
  {
    if s != [] {
      PresentAllNone(s[1..]);
    }
  }

  /** `DropNullopt() | Filter(p)`: the predicate sees the unwrapped values, and the result
      is the same as first keeping the present items that satisfy `p` and then unwrapping. */
  lemma {:induction false} FilterAfterDrop<T>(s: seq<Option<T>>, p: T -> bool)
    ensures Filter.Filtered(Present(s), p) == Present(Filter.Filtered(s, (o: Option<T>) => o.Some? && p(o.value)))
  {
    if s != [] {
      FilterAfterDrop(s[1..], p);
      var q := (o: Option<T>) => o.Some? && p(o.value);
      var head := if s[0].Some? then [s[0].value] else [];
      Filter.FilteredAppend(head, Present(s[1..]), p);
      assert Filter.Filtered(s, q) == (if q(s[0]) then [s[0]] else []) + Filter.Filtered(s[1..], q);
      PresentAppend(if q(s[0]) then [s[0]] else [], Filter.Filtered(s[1..], q));
      if s[0].Some? {
        assert Filter.Filtered(head, p) == (if p(s[0].value) then [s[0].value] else []) + Filter.Filtered(head[1..], p);
      }
    }
  }

  /** `DropNulloptIterator`: `current` is the upstream position `current_`. */
  class DropNulloptIterator<T> {
    const items: seq<Option<T>>
    const end: nat
    var current: nat

    /** After `skipNullopt` the iterator rests on a present item or at the end. */
    ghost predicate Valid()
      reads this
    {
      end == |items| && current <= end && (current < end ==> items[current].Some?)
    }

    ghost function Rest(): seq<T>
      reads this
      requires Valid()
    {
      Present(items[current..])
    }

    constructor (items: seq<Option<T>>, current: nat)
      requires current <= |items|
      ensures Valid() && this.items == items
      ensures Rest() == Present(items[current..])
    {
      this.items := items;
      this.end := |items|;
      this.current := current;
      new;
      SkipNullopt();
    }

    /** `skipNullopt` */
    method SkipNullopt()
      requires end == |items| && current <= end
      modifies this`current
      ensures Valid() && current >= old(current)
      ensures Present(items[current..]) == Present(items[old(current)..])
    {
      while current != end && items[current].None?
        invariant old(current) <= current <= end
        invariant Present(items[current..]) == Present(items[old(current)..])
        decreases end - current
      {
        assert items[current..][1..] == items[current + 1..];
        current := current + 1;
      }
    }

    /** `operator*`: the unwrapped current value. */
    method Deref() returns (x: T)
      requires Valid() && current < end
      ensures Some(x) == items[current]
      ensures Rest() != [] && x == Rest()[0]
    {
      x := items[current].value;
    }

    /** `operator++` */
    method Next()
      requires Valid() && current < end
      modifies this`current
      ensures Valid() && current > old(current)
      ensures old(Rest()) != [] && Rest() == old(Rest())[1..]
    {
      assert items[current..][1..] == items[current + 1..];
      current := current + 1;
      SkipNullopt();
    }

    /** `operator!=` */
    method NotEqual(other: DropNulloptIterator<T>) returns (ne: bool)
      ensures ne <==> current != other.current
    {
      ne := current != other.current;
    }
  }

  /** `DropNulloptRange` */
  class DropNulloptRange<T> {
    const range: seq<Option<T>>

    constructor (range: seq<Option<T>>)
      ensures this.range == range
    {
      this.range := range;
    }

    method Begin() returns (it: DropNulloptIterator<T>)
      ensures fresh(it) && it.Valid() && it.items == range && it.Rest() == Present(range)
    {
      it := new DropNulloptIterator(range, 0);
      assert range[0..] == range;
    }

    method End() returns (it: DropNulloptIterator<T>)
      ensures fresh(it) && it.Valid() && it.current == |range|
    {
      it := new DropNulloptIterator(range, |range|);
    }
  }

  /** `range | DropNullopt() | AsVector()` */
  method Collect<T>(range: seq<Option<T>>) returns (out: seq<T>)
    ensures out == Present(range)
  {
    var r := new DropNulloptRange(range);
    var it := r.Begin();
    var e := r.End();
    out := [];
    var ne := it.NotEqual(e);
    while ne
      invariant it.Valid() && it.items == range
      invariant e.current == |range| && it != e
      invariant ne <==> it.current < |range|
      invariant out + it.Rest() == Present(range)
      decreases |range| - it.current
    {
      ghost var before, done := it.Rest(), out;
      var x := it.Deref();
      out := out + [x];
      it.Next();
      Advance(done, before, x, it.Rest());
      ne := it.NotEqual(e);
    }
  }
}
