/** lib/split_expected/split_expected.h: forks a stream of `std::expected` results into
    an error branch and a success branch, two independent lazy views over the same upstream. */
module SplitExpected {
  import opened Common


  /** `std::expected<V, E>`: `has_value()` is `Value?`. */
  datatype Expected<V, E> = Value(value: V) | Unexpected(error: E)

  /** The success branch: `.value()` of every successful item, in upstream order. */
  function Values<V, E>(s: seq<Expected<V, E>>): (r: seq<V>)
    ensures |r| <= |s|
  {
    if s == [] then []
    else (if s[0].Value? then [s[0].value] else []) + Values(s[1..])
  }

  /** The error branch: `.error()` of every failed item, in upstream order. */
  function Errors<V, E>(s: seq<Expected<V, E>>): (r: seq<E>)
    ensures |r| <= |s|
  {
    if s == [] then []
    else (if s[0].Unexpected? then [s[0].error] else []) + Errors(s[1..])
  }

  /** Every upstream item lands in exactly one branch. */
  lemma {:induction false} BranchLengths<V, E>(s: seq<Expected<V, E>>)
    ensures |Values(s)| + |Errors(s)| == |s|
  {
    if s != [] {
      BranchLengths(s[1..]);
    }
  }

  lemma {:induction false} ValuesAppend<V, E>(a: seq<Expected<V, E>>, b: seq<Expected<V, E>>)
    ensures Values(a + b) == Values(a) + Values(b)
  {
    if a == [] {
      assert a + b == b;
    } else {
      var ab := a + b;
      assert ab[0] == a[0];
      assert ab[1..] == a[1..] + b;
      ValuesAppend(a[1..], b);
      var head := if a[0].Value? then [a[0].value] else [];
      assert Values(ab) == head + Values(a[1..] + b);
      assert Values(a) == head + Values(a[1..]);
    }
  }

  lemma {:induction false} ErrorsAppend<V, E>(a: seq<Expected<V, E>>, b: seq<Expected<V, E>>)
    ensures Errors(a + b) == Errors(a) + Errors(b)
  {
    if a == [] {
      assert a + b == b;
    } else {
      var ab := a + b;
      assert ab[0] == a[0];
      assert ab[1..] == a[1..] + b;
      ErrorsAppend(a[1..], b);
      var head := if a[0].Unexpected? then [a[0].error] else [];
      assert Errors(ab) == head + Errors(a[1..] + b);
      assert Errors(a) == head + Errors(a[1..]);
    }
  }

  /** The branches of a concatenation are the concatenations of the branches: each branch
      keeps the upstream order of its own kind. */
  lemma BranchesAppend<V, E>(a: seq<Expected<V, E>>, b: seq<Expected<V, E>>)
    ensures Values(a + b) == Values(a) + Values(b)
    ensures Errors(a + b) == Errors(a) + Errors(b)
  {
    ValuesAppend(a, b);
    ErrorsAppend(a, b);
  }

  /** All successes: an empty error branch and every value in the success branch. */
  lemma {:induction false} AllSuccessful<V, E>(s: seq<Expected<V, E>>)
    requires forall i :: 0 <= i < |s| ==> s[i].Value?
    ensures Errors(s) == []
    ensures |Values(s)| == |s| && forall i :: 0 <= i < |s| ==> Values(s)[i] == s[i].value
  {
    if s != [] {
      AllSuccessful(s[1..]);
    }
  }

  /** All failures: an empty success branch and every error in the error branch. */
  lemma {:induction false} AllFailed<V, E>(s: seq<Expected<V, E>>)
    requires forall i :: 0 <= i < |s| ==> s[i].Unexpected?
    ensures Values(s) == []
    ensures |Errors(s)| == |s| && forall i :: 0 <= i < |s| ==> Errors(s)[i] == s[i].error
  {
    if s != [] {
      AllFailed(s[1..]);
    }
  }

  /** A value is on the success branch exactly when some upstream item succeeded with it. */
  lemma {:induction false} ValuesMembership<V, E>(s: seq<Expected<V, E>>, v: V)
    ensures v in Values(s) <==> Value(v) in s
  {
    if s != [] {
      ValuesMembership(s[1..], v);
      assert s == [s[0]] + s[1..];
    }
  }

  /** An error is on the error branch exactly when some upstream item failed with it. */
  lemma {:induction false} ErrorsMembership<V, E>(s: seq<Expected<V, E>>, e: E)
    ensures e in Errors(s) <==> Unexpected(e) in s
  {
    if s != [] {
      ErrorsMembership(s[1..], e);
      assert s == [s[0]] + s[1..];
    }
  }

  /** `IteratorExpected`: walks the upstream, resting only on successful items. */
  class IteratorExpected<V, E> {
    const items: seq<Expected<V, E>>
    const endIt: nat
    var current: nat

    ghost predicate Valid()
      reads this
    {
      endIt == |items| && current <= endIt && (current < endIt ==> items[current].Value?)
    }

    ghost function Rest(): seq<V>
      reads this
      requires Valid()
    {
      Values(items[current..])
    }

    constructor (items: seq<Expected<V, E>>, begin: nat)
      requires begin <= |items|
      ensures Valid() && this.items == items
      ensures Rest() == Values(items[begin..])
    {
      this.items := items;
      this.endIt := |items|;
      this.current := begin;
      new;
      SkipUnexpected();
    }

    /** `SkipUnexpected` */
    method SkipUnexpected()
      requires endIt == |items| && current <= endIt
      modifies this`current
      ensures Valid() && current >= old(current)
      ensures Values(items[current..]) == Values(items[old(current)..])
    {
      while current != endIt && !items[current].Value?
        invariant old(current) <= current <= endIt
        invariant Values(items[current..]) == Values(items[old(current)..])
        decreases endIt - current
      {
        assert items[current..][1..] == items[current + 1..];
        current := current + 1;
      }
    }

    /** `operator*`: `.value()` of the current item. */
    method Deref() returns (v: V)
      requires Valid() && current < endIt
      ensures items[current] == Value(v)
      ensures Rest() != [] && v == Rest()[0]
    {
      v := items[current].value;
    }

    /** `operator++` */
    method Next()
      requires Valid() && current < endIt
      modifies this`current
      ensures Valid() && current > old(current)
      ensures old(Rest()) != [] && Rest() == old(Rest())[1..]
    {
      assert items[current..][1..] == items[current + 1..];
      current := current + 1;
      SkipUnexpected();
    }

    /** `operator!=` */
    method NotEqual(other: IteratorExpected<V, E>) returns (ne: bool)
      ensures ne <==> current != other.current
    {
      ne := current != other.current;
    }
  }

  /** `IteratorUnexpected`: walks the upstream, resting only on failed items. */
  class IteratorUnexpected<V, E> {
    const items: seq<Expected<V, E>>
    const endIt: nat
    var current: nat

    ghost predicate Valid()
      reads this
    {
      endIt == |items| && current <= endIt && (current < endIt ==> items[current].Unexpected?)
    }

    ghost function Rest(): seq<E>
      reads this
      requires Valid()
    {
      Errors(items[current..])
    }

    constructor (items: seq<Expected<V, E>>, begin: nat)
      requires begin <= |items|
      ensures Valid() && this.items == items
      ensures Rest() == Errors(items[begin..])
    {
      this.items := items;
      this.endIt := |items|;
      this.current := begin;
      new;
      SkipExpected();
    }

    /** `SkipExpected` */
    method SkipExpected()
      requires endIt == |items| && current <= endIt
      modifies this`current
      ensures Valid() && current >= old(current)
      ensures Errors(items[current..]) == Errors(items[old(current)..])
    {
      while current != endIt && items[current].Value?
        invariant old(current) <= current <= endIt
        invariant Errors(items[current..]) == Errors(items[old(current)..])
        decreases endIt - current
      {
        assert items[current..][1..] == items[current + 1..];
        current := current + 1;
      }
    }

    /** `operator*`: `.error()` of the current item. */
    method Deref() returns (e: E)
      requires Valid() && current < endIt
      ensures items[current] == Unexpected(e)
      ensures Rest() != [] && e == Rest()[0]
    {
      e := items[current].error;
    }

    /** `operator++` */
    method Next()
      requires Valid() && current < endIt
      modifies this`current
      ensures Valid() && current > old(current)
      ensures old(Rest()) != [] && Rest() == old(Rest())[1..]
    {
      assert items[current..][1..] == items[current + 1..];
      current := current + 1;
      SkipExpected();
    }

    /** `operator!=` */
    method NotEqual(other: IteratorUnexpected<V, E>) returns (ne: bool)
      ensures ne <==> current != other.current
    {
      ne := current != other.current;
    }
  }

  /** `RangeExpected`: holds its own copy of the upstream range. */
  class RangeExpected<V, E> {
    const range: seq<Expected<V, E>>

    constructor (range: seq<Expected<V, E>>)
      ensures this.range == range
    {
      this.range := range;
    }

    method Begin() returns (it: IteratorExpected<V, E>)
      ensures fresh(it) && it.Valid() && it.items == range && it.Rest() == Values(range)
    {
      it := new IteratorExpected(range, 0);
      assert range[0..] == range;
    }

    method End() returns (it: IteratorExpected<V, E>)
      ensures fresh(it) && it.Valid() && it.current == |range|
    {
      it := new IteratorExpected(range, |range|);
    }
  }

  /** `RangeUnexpected`: holds its own copy of the upstream range. */
  class RangeUnexpected<V, E> {
    const range: seq<Expected<V, E>>

    constructor (range: seq<Expected<V, E>>)
      ensures this.range == range
    {
      this.range := range;
    }

    method Begin() returns (it: IteratorUnexpected<V, E>)
      ensures fresh(it) && it.Valid() && it.items == range && it.Rest() == Errors(range)
    {
      it := new IteratorUnexpected(range, 0);
      assert range[0..] == range;
    }

    method End() returns (it: IteratorUnexpected<V, E>)
      ensures fresh(it) && it.Valid() && it.current == |range|
    {
      it := new IteratorUnexpected(range, |range|);
    }
  }

  /** `SplitExpectedAdapter`: keeps the parser only for its type; no member calls it. */
  datatype SplitExpectedAdapter<P> = SplitExpectedAdapter(parser: P)

  /** `SplitExpected(parser)` */
  function MakeSplitExpected<P>(parser: P): (a: SplitExpectedAdapter<P>)
    ensures a.parser == parser
  {
    SplitExpectedAdapter(parser)
  }

  /** `GetSplitRanges` (reached through `range | SplitExpected(parser)`): the error branch
      first, then the success branch, each a distinct object over its own copy of the range.
      The parser is never invoked. */
  method GetSplitRanges<P, V, E>(adapter: SplitExpectedAdapter<P>, range: seq<Expected<V, E>>)
    returns (unexpected: RangeUnexpected<V, E>, expected: RangeExpected<V, E>)
    ensures fresh(unexpected) && fresh(expected)
    ensures unexpected.range == range && expected.range == range
  {
    unexpected := new RangeUnexpected(range);
    expected := new RangeExpected(range);
  }

  /** Drives both branches of `range | SplitExpected(parser)` in an arbitrary interleaving:
      at step `k`, `schedule[k]` picks the success branch (`true`) or the error branch
      (`false`) to advance when it has items left; both are then drained. Whatever the
      interleaving, each branch yields exactly its own kind, in upstream order: advancing
      one branch never moves the other. */
  method DrainInterleaved<P, V, E>(adapter: SplitExpectedAdapter<P>, range: seq<Expected<V, E>>, schedule: seq<bool>)
    returns (errors: seq<E>, values: seq<V>)
    ensures errors == Errors(range)
    ensures values == Values(range)
  {
    var bad, good := GetSplitRanges(adapter, range);
    var ui := bad.Begin();
    var ue := bad.End();
    var ei := good.Begin();
    var ee := good.End();
    errors, values := [], [];
    var k := 0;
    while k < |schedule|
      invariant 0 <= k <= |schedule|
      invariant ui.Valid() && ui.items == range && ue.current == |range|
      invariant ei.Valid() && ei.items == range && ee.current == |range|
      invariant ui != ue && ei != ee
      invariant errors + ui.Rest() == Errors(range)
      invariant values + ei.Rest() == Values(range)
    {
      if schedule[k] {
        values := StepValues(ei, ee, values);
      } else {
        errors := StepErrors(ui, ue, errors);
      }
      k := k + 1;
    }
    errors := DrainErrors(ui, ue, errors);
    values := DrainValues(ei, ee, values);
  }

  /** One guarded step of the error branch: if it is not at its end, take one error. */
  method StepErrors<V, E>(it: IteratorUnexpected<V, E>, end: IteratorUnexpected<V, E>, acc: seq<E>)
    returns (out: seq<E>)
    requires it.Valid() && end.current == |it.items| && it != end
    modifies it
    ensures it.Valid()
    ensures out + it.Rest() == acc + old(it.Rest())
  {
    out := acc;
    var more := it.NotEqual(end);
    if more {
      ghost var before, done := it.Rest(), out;
      var e := it.Deref();
      out := out + [e];
      it.Next();
      Advance(done, before, e, it.Rest());
    }
  }

  /** One guarded step of the success branch: if it is not at its end, take one value. */
  method StepValues<V, E>(it: IteratorExpected<V, E>, end: IteratorExpected<V, E>, acc: seq<V>)
    returns (out: seq<V>)
    requires it.Valid() && end.current == |it.items| && it != end
    modifies it
    ensures it.Valid()
    ensures out + it.Rest() == acc + old(it.Rest())
  {
    out := acc;
    var more := it.NotEqual(end);
    if more {
      ghost var before, done := it.Rest(), out;
      var v := it.Deref();
      out := out + [v];
      it.Next();
      Advance(done, before, v, it.Rest());
    }
  }

  /** Runs an error-branch iterator to its end, appending what it yields to `acc`. */
  method DrainErrors<V, E>(it: IteratorUnexpected<V, E>, end: IteratorUnexpected<V, E>, acc: seq<E>)
    returns (out: seq<E>)
    requires it.Valid() && end.current == |it.items| && it != end
    modifies it
    ensures it.Valid() && it.current == |it.items|
    ensures out == acc + old(it.Rest())
  {
    out := acc;
    var more := it.NotEqual(end);
    while more
      invariant it.Valid() && end.current == |it.items|
      invariant more <==> it.current < |it.items|
      invariant out + it.Rest() == acc + old(it.Rest())
      decreases |it.items| - it.current
    {
      ghost var before, done := it.Rest(), out;
      var e := it.Deref();
      out := out + [e];
      it.Next();
      Advance(done, before, e, it.Rest());
      more := it.NotEqual(end);
    }
  }

  /** Runs a success-branch iterator to its end, appending what it yields to `acc`. */
  method DrainValues<V, E>(it: IteratorExpected<V, E>, end: IteratorExpected<V, E>, acc: seq<V>)
    returns (out: seq<V>)
    requires it.Valid() && end.current == |it.items| && it != end
    modifies it
    ensures it.Valid() && it.current == |it.items|
    ensures out == acc + old(it.Rest())
  {
    out := acc;
    var more := it.NotEqual(end);
    while more
      invariant it.Valid() && end.current == |it.items|
      invariant more <==> it.current < |it.items|
      invariant out + it.Rest() == acc + old(it.Rest())
      decreases |it.items| - it.current
    {
      ghost var before, done := it.Rest(), out;
      var v := it.Deref();
      out := out + [v];
      it.Next();
      Advance(done, before, v, it.Rest());
      more := it.NotEqual(end);
    }
  }
}
