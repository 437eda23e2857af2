/** lib/filter/filter.h: a lazy view that yields only the upstream items that
    satisfy a predicate. */
module Filter {
  import opened Common


  /** The items of `s` that satisfy `p`, in their upstream order. */
  function Filtered<T>(s: seq<T>, p: T -> bool): (r: seq<T>)
    ensures |r| <= |s|
    ensures forall i :: 0 <= i < |r| ==> p(r[i])
    ensures forall x :: x in r ==> x in s
  {
    if s == [] then []
    else (if p(s[0]) then [s[0]] else []) + Filtered(s[1..], p)
  }

  /** Filtering distributes over concatenation: no item's fate depends on its neighbours,
      and upstream order is kept. */
  lemma {:induction false} FilteredAppend<T>(a: seq<T>, b: seq<T>, p: T -> bool)
    ensures Filtered(a + b, p) == Filtered(a, p) + Filtered(b, p)
  {
    if a == [] {
      assert a + b == b;
    } else {
      assert (a + b)[1..] == a[1..] + b;
      FilteredAppend(a[1..], b, p);
    }
  }

  /** Every upstream item that satisfies the predicate reaches the output, and nothing else does. */
  lemma {:induction false} FilteredMembership<T>(s: seq<T>, p: T -> bool, x: T)
    ensures x in Filtered(s, p) <==> x in s && p(x)
  {
    if s != [] {
      FilteredMembership(s[1..], p, x);
      assert s == [s[0]] + s[1..];
    }
  }

  /** An always-true predicate passes the input through unchanged. */
  lemma {:induction false} FilterAllAccept<T>(s: seq<T>, p: T -> bool)
    requires forall x :: p(x)
    ensures Filtered(s, p) == s
  {
    if s != [] {
      FilterAllAccept(s[1..], p);
      assert s == [s[0]] + s[1..];
    }
  }

  /** An always-false predicate rejects everything. */
  lemma {:induction false} FilterAllReject<T>(s: seq<T>, p: T -> bool)
    requires forall x :: !p(x)
    ensures Filtered(s, p) == []
  {
    if s != [] {
      FilterAllReject(s[1..], p);
    }
  }

  /** `Filter(p) | Filter(q)` yields the same items as `Filter(p && q)`. */
  lemma {:induction false} FilterFilter<T>(s: seq<T>, p: T -> bool, q: T -> bool)
    ensures Filtered(Filtered(s, p), q) == Filtered(s, x => p(x) && q(x))
  {
    if s != [] {
      FilterFilter(s[1..], p, q);
      var pq := x => p(x) && q(x);
      assert Filtered(s, pq) == (if p(s[0]) && q(s[0]) then [s[0]] else []) + Filtered(s[1..], pq);
      if p(s[0]) {
        assert Filtered(s, p) == [s[0]] + Filtered(s[1..], p);
        FilteredAppend([s[0]], Filtered(s[1..], p), q);
        assert Filtered([s[0]], q) == (if q(s[0]) then [s[0]] else []) + Filtered([s[0]][1..], q);
      } else {
        assert Filtered(s, p) == Filtered(s[1..], p);
      }
    }
  }

  /** Positions `lo, lo + 1, ..., hi - 1`. */
  ghost function Interval(lo: nat, hi: nat): seq<nat>
    decreases hi - lo
  {
    if lo >= hi then [] else [lo] + Interval(lo + 1, hi)
  }

  lemma {:induction false} IntervalSnoc(lo: nat, hi: nat)
    requires lo <= hi
    ensures Interval(lo, hi + 1) == Interval(lo, hi) + [hi]
    decreases hi - lo
  {
    if lo < hi {
      IntervalSnoc(lo + 1, hi);
    }
  }

  lemma {:induction false} IntervalIsIdentity(lo: nat, hi: nat)
    requires lo <= hi
    ensures |Interval(lo, hi)| == hi - lo
    ensures forall i :: 0 <= i < hi - lo ==> Interval(lo, hi)[i] == lo + i
    decreases hi - lo
  {
    if lo < hi {
      IntervalIsIdentity(lo + 1, hi);
    }
  }

  /** `FilterIterator`: `current` is the upstream position `current_`, `end` is `end_`.
      `Probed` records, as a ghost trace, every upstream position the predicate was
      evaluated on, in evaluation order. */
  class FilterIterator<T> {
    const items: seq<T>
    const end: nat
    const pred: T -> bool
    var current: nat
    ghost const start: nat
    ghost var Probed: seq<nat>

    /** After `findNext` the iterator rests on an accepted item or at the end; the
        predicate has been asked about every position from `start` up to and including
        the current one (when not at the end), each once. */
    ghost predicate Valid()
      reads this
    {
      end == |items| && start <= current <= end &&
      (current < end ==> pred(items[current])) &&
      Probed == Interval(start, current) + (if current < end then [current] else [])
    }

    /** What this iterator still yields when driven to `end`. */
    ghost function Rest(): seq<T>
      reads this
      requires Valid()
    {
      Filtered(items[current..], pred)
    }

    constructor (items: seq<T>, current: nat, pred: T -> bool)
      requires current <= |items|
      ensures Valid()
      ensures this.items == items && this.pred == pred && start == current
      ensures Rest() == Filtered(items[current..], pred)
    {
      this.items := items;
      this.end := |items|;
      this.pred := pred;
      this.current := current;
      this.start := current;
      this.Probed := [];
      new;
      FindNext();
    }

    /** `findNext`: skip rejected items. */
    method FindNext()
      requires end == |items| && start <= current <= end
      requires Probed == Interval(start, current)
      modifies this`current, this`Probed
      ensures Valid()
      ensures current >= old(current)
      ensures Filtered(items[current..], pred) == Filtered(items[old(current)..], pred)
    {
      while current != end && !pred(items[current])
        invariant old(current) <= current <= end
        invariant Probed == Interval(start, current)
        invariant Filtered(items[current..], pred) == Filtered(items[old(current)..], pred)
        decreases end - current
      {
        assert items[current..][1..] == items[current + 1..];
        IntervalSnoc(start, current);
        Probed := Probed + [current];
        current := current + 1;
      }
      if current < end {
        Probed := Probed + [current];
      }
    }

    /** `operator*`: the current item, which satisfies the predicate. */
    method Deref() returns (x: T)
      requires Valid() && current < end
      ensures pred(x)
      ensures Rest() != [] && x == Rest()[0]
    {
      x := items[current];
    }

    /** `operator++` */
    method Next()
      requires Valid() && current < end
      modifies this`current, this`Probed
      ensures Valid()
      ensures old(Rest()) != [] && Rest() == old(Rest())[1..]
      ensures old(current) < current
    {
      assert items[current..][1..] == items[current + 1..];
      IntervalSnoc(start, current);
      current := current + 1;
      FindNext();
    }

    /** `operator!=`: iterators differ exactly when their upstream positions differ. */
    method NotEqual(other: FilterIterator<T>) returns (ne: bool)
      ensures ne <==> current != other.current
    {
      ne := current != other.current;
    }
  }

  /** `FilterRange`: the upstream range and the predicate. */
  class FilterRange<T> {
    const range: seq<T>
    const pred: T -> bool

    constructor (range: seq<T>, pred: T -> bool)
      ensures this.range == range && this.pred == pred
    {
      this.range := range;
      this.pred := pred;
    }

    method Begin() returns (it: FilterIterator<T>)
      ensures fresh(it) && it.Valid() && it.items == range && it.pred == pred && it.start == 0
      ensures it.Rest() == Filtered(range, pred)
    {
      it := new FilterIterator(range, 0, pred);
      assert range[0..] == range;
    }

    method End() returns (it: FilterIterator<T>)
      ensures fresh(it) && it.Valid() && it.current == |range|
    {
      it := new FilterIterator(range, |range|, pred);
    }
  }

  /** `range | Filter(pred) | AsVector()`: a full pass over the filtered view. The output
      is exactly the accepted items in upstream order, and the predicate was evaluated
      once on every upstream position, in increasing order. */
  method Collect<T>(range: seq<T>, pred: T -> bool) returns (out: seq<T>, ghost probes: seq<nat>)
    ensures out == Filtered(range, pred)
    ensures |probes| == |range| && forall i :: 0 <= i < |probes| ==> probes[i] == i
  {
    var r := new FilterRange(range, pred);
    var it := r.Begin();
    var e := r.End();
    out := [];
    var ne := it.NotEqual(e);
    while ne
      invariant it.Valid() && it.items == range && it.pred == pred && it.start == 0
      invariant e.current == |range| && it != e
      invariant ne <==> it.current < |range|
      invariant out + it.Rest() == Filtered(range, pred)
      decreases |range| - it.current
    {
      ghost var before, done := it.Rest(), out;
      var x := it.Deref();
      out := out + [x];
      it.Next();
      Advance(done, before, x, it.Rest());
      ne := it.NotEqual(e);
    }
    probes := it.Probed;
    IntervalIsIdentity(0, |range|);
  }
}
