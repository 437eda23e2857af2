/** The left outer join of lib/join/join.h as specification functions: the right-side
    index, the results produced for one left item, and the whole join. */
module JoinSpec {
  import opened Common
  import Filter
  import Transform

  /** `KV<K, V>`: the item shape the default extractors read. */
  datatype KV<K, V> = KV(key: K, value: V)

  /** `JoinResult<L, R>`: a left value and, when the left item matched, one right value. */
  datatype JoinResult<L, R> = JoinResult(left: L, right: Option<R>)

  /** `KeyExtractor`: reads `.key`; with the item's value it rebuilds the item. */
  function KeyExtractor<K, V>(kv: KV<K, V>): (k: K)
    ensures KV(k, kv.value) == kv
  { kv.key }

  /** `ValueExtractor`: reads `.value`; with the item's key it rebuilds the item. */
  function ValueExtractor<K, V>(kv: KV<K, V>): (v: V)
    ensures KV(kv.key, v) == kv
  { kv.value }

  /** `IdentityExtractor`: the whole item, unchanged. */
  function IdentityExtractor<T>(item: T): (r: T)
    ensures r == item
  { item }

  /** Reference definition of a key's matches: the right values of the right items whose
      key is `k`, in right-sequence order. */
  function Matches<R, K(==), RV>(right: seq<R>, keyRight: R -> K, valueRight: R -> RV, k: K): seq<RV>
  {
    Transform.Mapped(Filter.Filtered(right, r => keyRight(r) == k), valueRight)
  }

  /** Number of right items whose key is `k`. */
  function CountKey<R, K(==)>(right: seq<R>, keyRight: R -> K, k: K): nat
  {
    if right == [] then 0
    else (if keyRight(right[0]) == k then 1 else 0) + CountKey(right[1..], keyRight, k)
  }

  /** `index.find(k)`, with a missing key read as no right values. */
  function Lookup<K(==), RV>(index: map<K, seq<RV>>, k: K): seq<RV>
  {
    if k in index then index[k] else []
  }

  /** The right index after the constructor loop has pushed every right item, in order,
      onto the list of its key. */
  function RightIndex<R, K(==), RV>(right: seq<R>, keyRight: R -> K, valueRight: R -> RV): map<K, seq<RV>>
    decreases |right|
  {
    if right == [] then map[]
    else
      var index := RightIndex(right[..|right| - 1], keyRight, valueRight);
      var x := right[|right| - 1];
      index[keyRight(x) := Lookup(index, keyRight(x)) + [valueRight(x)]]
  }

  /** The results for one left item with value `lv` and right values `matches`: one per
      match in match order, or a single result with an absent right value. */
  function ResultsFor<LV, RV>(lv: LV, matches: seq<RV>): (r: seq<JoinResult<LV, RV>>)
    ensures |r| == if matches == [] then 1 else |matches|
    ensures forall i :: 0 <= i < |r| ==> r[i].left == lv
    ensures matches == [] ==> r[0].right == None
    ensures forall i :: 0 <= i < |matches| ==> r[i].right == Some(matches[i])
  {
    if matches == [] then [JoinResult(lv, None)]
    else Transform.Mapped(matches, m => JoinResult(lv, Some(m)))
  }

  /** What the iterators produce over `left` when the right side is already indexed. */
  function JoinWith<L, K(==), LV, RV>(left: seq<L>, index: map<K, seq<RV>>, keyLeft: L -> K, valueLeft: L -> LV)
    : seq<JoinResult<LV, RV>>
  {
    if left == [] then []
    else ResultsFor(valueLeft(left[0]), Lookup(index, keyLeft(left[0])))
         + JoinWith(left[1..], index, keyLeft, valueLeft)
  }

  /** Reference definition of the join: for every left item in order, its results against
      the matches of its key. */
  function Joined<L, R, K(==), LV, RV>(left: seq<L>, right: seq<R>, keyLeft: L -> K, keyRight: R -> K,
                                         valueLeft: L -> LV, valueRight: R -> RV): seq<JoinResult<LV, RV>>
  {
    if left == [] then []
    else ResultsFor(valueLeft(left[0]), Matches(right, keyRight, valueRight, keyLeft(left[0])))
         + Joined(left[1..], right, keyLeft, keyRight, valueLeft, valueRight)
  }

  /** Output length: every left item contributes `max(1, number of right items with its key)`. */
  function JoinSize<L, R, K(==)>(left: seq<L>, right: seq<R>, keyLeft: L -> K, keyRight: R -> K): nat
  {
    if left == [] then 0
    else
      var c := CountKey(right, keyRight, keyLeft(left[0]));
      (if c == 0 then 1 else c) + JoinSize(left[1..], right, keyLeft, keyRight)
  }

  // ---------------------------------------------------------------- the right index

  lemma {:induction false} CountKeySnoc<R, K>(right: seq<R>, x: R, keyRight: R -> K, k: K)
    ensures CountKey(right + [x], keyRight, k) == CountKey(right, keyRight, k) + (if keyRight(x) == k then 1 else 0)
  {
    if right == [] {
      assert [x][1..] == [];
    } else {
      assert (right + [x])[1..] == right[1..] + [x];
      CountKeySnoc(right[1..], x, keyRight, k);
    }
  }

  /** A key has as many matches as there are right items with that key. */
  lemma {:induction false} MatchesLength<R, K, RV>(right: seq<R>, keyRight: R -> K, valueRight: R -> RV, k: K)
    ensures |Matches(right, keyRight, valueRight, k)| == CountKey(right, keyRight, k)
  {
    if right != [] {
      MatchesLength(right[1..], keyRight, valueRight, k);
      var p := (r: R) => keyRight(r) == k;
      assert Filter.Filtered(right, p) == (if p(right[0]) then [right[0]] else []) + Filter.Filtered(right[1..], p);
    }
  }

  /** Matches of an extended right side: the new item's value goes last, when its key matches. */
  lemma MatchesSnoc<R, K, RV>(right: seq<R>, x: R, keyRight: R -> K, valueRight: R -> RV, k: K)
    ensures Matches(right + [x], keyRight, valueRight, k)
         == Matches(right, keyRight, valueRight, k) + (if keyRight(x) == k then [valueRight(x)] else [])
  {
    var p := (r: R) => keyRight(r) == k;
    Filter.FilteredAppend(right, [x], p);
    assert Filter.Filtered([x], p) == (if p(x) then [x] else []) + Filter.Filtered([x][1..], p);
    Transform.MappedAppend(Filter.Filtered(right, p), Filter.Filtered([x], p), valueRight);
  }

  /** The index lists, for every key, exactly that key's matches in right-sequence order. */
  lemma {:induction false} IndexLookup<R, K, RV>(right: seq<R>, keyRight: R -> K, valueRight: R -> RV, k: K)
    ensures Lookup(RightIndex(right, keyRight, valueRight), k) == Matches(right, keyRight, valueRight, k)
    decreases |right|
  {
    if right != [] {
      var init, x := right[..|right| - 1], right[|right| - 1];
      IndexLookup(init, keyRight, valueRight, k);
      assert right == init + [x];
      MatchesSnoc(init, x, keyRight, valueRight, k);
    }
  }

  /** A key is in the index exactly when some right item has it, and then its list is not empty. */
  lemma {:induction false} IndexKeys<R, K, RV>(right: seq<R>, keyRight: R -> K, valueRight: R -> RV, k: K)
    ensures k in RightIndex(right, keyRight, valueRight) <==> exists i :: 0 <= i < |right| && keyRight(right[i]) == k
    ensures k in RightIndex(right, keyRight, valueRight) ==> RightIndex(right, keyRight, valueRight)[k] != []
    decreases |right|
  {
    if right != [] {
      var init, x := right[..|right| - 1], right[|right| - 1];
      IndexKeys(init, keyRight, valueRight, k);
      if keyRight(x) != k && exists i :: 0 <= i < |right| && keyRight(right[i]) == k {
        var i :| 0 <= i < |right| && keyRight(right[i]) == k;
        assert init[i] == right[i];
      }
    }
  }

  // ---------------------------------------------------------------- the join

  /** Joining against the built index is the reference join. */
  lemma {:induction false} JoinWithIndex<L, R, K, LV, RV>(left: seq<L>, right: seq<R>, keyLeft: L -> K, keyRight: R -> K,
                                                                valueLeft: L -> LV, valueRight: R -> RV)
    ensures JoinWith(left, RightIndex(right, keyRight, valueRight), keyLeft, valueLeft)
         == Joined(left, right, keyLeft, keyRight, valueLeft, valueRight)
  {
    if left != [] {
      IndexLookup(right, keyRight, valueRight, keyLeft(left[0]));
      JoinWithIndex(left[1..], right, keyLeft, keyRight, valueLeft, valueRight);
    }
  }

  /** The output length is the sum over left items of `max(1, matching right items)`. */
  lemma {:induction false} JoinLength<L, R, K, LV, RV>(left: seq<L>, right: seq<R>, keyLeft: L -> K, keyRight: R -> K,
                                                           valueLeft: L -> LV, valueRight: R -> RV)
    ensures |Joined(left, right, keyLeft, keyRight, valueLeft, valueRight)| == JoinSize(left, right, keyLeft, keyRight)
  {
    if left != [] {
      MatchesLength(right, keyRight, valueRight, keyLeft(left[0]));
      JoinLength(left[1..], right, keyLeft, keyRight, valueLeft, valueRight);
    }
  }

  /** Left order is preserved: all results of an earlier left item come before those of a
      later one. */
  lemma {:induction false} JoinAppendLeft<L, R, K, LV, RV>(l1: seq<L>, l2: seq<L>, right: seq<R>, keyLeft: L -> K,
                                                               keyRight: R -> K, valueLeft: L -> LV, valueRight: R -> RV)
    ensures Joined(l1 + l2, right, keyLeft, keyRight, valueLeft, valueRight)
         == Joined(l1, right, keyLeft, keyRight, valueLeft, valueRight)
          + Joined(l2, right, keyLeft, keyRight, valueLeft, valueRight)
  {
    if l1 == [] {
      assert l1 + l2 == l2;
    } else {
      assert (l1 + l2)[0] == l1[0];
      assert (l1 + l2)[1..] == l1[1..] + l2;
      JoinAppendLeft(l1[1..], l2, right, keyLeft, keyRight, valueLeft, valueRight);
    }
  }

  /** The results of one left item: one per matching right value in right order, or a
      single result with an absent right value. */
  lemma JoinOneLeft<L, R, K, LV, RV>(l: L, right: seq<R>, keyLeft: L -> K, keyRight: R -> K,
                                         valueLeft: L -> LV, valueRight: R -> RV)
    ensures Joined([l], right, keyLeft, keyRight, valueLeft, valueRight)
         == ResultsFor(valueLeft(l), Matches(right, keyRight, valueRight, keyLeft(l)))
  {
    assert [l][1..] == [];
  }

  /** The results of a prefix `left[..k + 1]`: those of `left[0]`, then those of the next `k`
      left items. */
  lemma JoinPrefixStep<L, R, K, LV, RV>(left: seq<L>, right: seq<R>, keyLeft: L -> K, keyRight: R -> K,
                                        valueLeft: L -> LV, valueRight: R -> RV, k: nat)
    requires k < |left|
    ensures Joined(left[..k + 1], right, keyLeft, keyRight, valueLeft, valueRight)
         == ResultsFor(valueLeft(left[0]), Matches(right, keyRight, valueRight, keyLeft(left[0])))
          + Joined(left[1..][..k], right, keyLeft, keyRight, valueLeft, valueRight)
  {
    var p := left[..k + 1];
    assert p[0] == left[0];
    assert p[1..] == left[1..][..k];
  }

  /** Where result `i` comes from: the results of `left[..j]` come first, then result `i`
      lies in the block `ResultsFor` produces for `left[j]`, and it is that block's entry. */
  lemma {:induction false} JoinResultOrigin<L, R, K, LV, RV>(left: seq<L>, right: seq<R>, keyLeft: L -> K, keyRight: R -> K,
                                                                 valueLeft: L -> LV, valueRight: R -> RV, i: nat)
    returns (j: nat)
    requires i < |Joined(left, right, keyLeft, keyRight, valueLeft, valueRight)|
    ensures j < |left|
    ensures |Joined(left[..j], right, keyLeft, keyRight, valueLeft, valueRight)| <= i
          < |Joined(left[..j], right, keyLeft, keyRight, valueLeft, valueRight)|
            + |ResultsFor(valueLeft(left[j]), Matches(right, keyRight, valueRight, keyLeft(left[j])))|
    ensures Joined(left, right, keyLeft, keyRight, valueLeft, valueRight)[i]
         == ResultsFor(valueLeft(left[j]), Matches(right, keyRight, valueRight, keyLeft(left[j])))
              [i - |Joined(left[..j], right, keyLeft, keyRight, valueLeft, valueRight)|]
  {
    var head := ResultsFor(valueLeft(left[0]), Matches(right, keyRight, valueRight, keyLeft(left[0])));
    var tail := Joined(left[1..], right, keyLeft, keyRight, valueLeft, valueRight);
    assert Joined(left, right, keyLeft, keyRight, valueLeft, valueRight) == head + tail;
    if i < |head| {
      j := 0;
      assert left[..0] == [];
    } else {
      var k := JoinResultOrigin(left[1..], right, keyLeft, keyRight, valueLeft, valueRight, i - |head|);
      j := k + 1;
      JoinPrefixStep(left, right, keyLeft, keyRight, valueLeft, valueRight, k);
      assert (head + tail)[i] == tail[i - |head|];
    }
  }

  /** An empty right side gives one absent-right result per left item. */
  lemma {:induction false} JoinEmptyRight<L, R, K, LV, RV>(left: seq<L>, keyLeft: L -> K, keyRight: R -> K,
                                                               valueLeft: L -> LV, valueRight: R -> RV)
    ensures |Joined(left, [], keyLeft, keyRight, valueLeft, valueRight)| == |left|
    ensures forall i :: 0 <= i < |left| ==>
      Joined(left, [], keyLeft, keyRight, valueLeft, valueRight)[i] == JoinResult(valueLeft(left[i]), None)
  {
    if left != [] {
      JoinEmptyRight(left[1..], keyLeft, keyRight, valueLeft, valueRight);
      assert Matches([], keyRight, valueRight, keyLeft(left[0])) == [];
    }
  }

  /** An empty left side gives no result, whatever the right side holds. */
  lemma JoinEmptyLeft<L, R, K, LV, RV>(right: seq<R>, keyLeft: L -> K, keyRight: R -> K,
                                       valueLeft: L -> LV, valueRight: R -> RV)
    ensures Joined([], right, keyLeft, keyRight, valueLeft, valueRight) == []
  {
  }

  // ---------------------------------------------------------------- the two `Join` overloads

  /** `JoinAdapter`: the right range and the four extractors. */
  datatype JoinAdapter<!L, !R, K, LV, RV> =
    JoinAdapter(right: seq<R>, keyLeft: L -> K, keyRight: R -> K, valueLeft: L -> LV, valueRight: R -> RV)

  /** `Join(right)`: both sides are `KV` items; keys are `.key`, values are `.value`. */
  function JoinKV<K(!new), V(!new)>(right: seq<KV<K, V>>): (a: JoinAdapter<KV<K, V>, KV<K, V>, K, V, V>)
    ensures a.right == right
    ensures forall l: KV<K, V> :: a.keyLeft(l) == l.key && a.valueLeft(l) == l.value
    ensures forall r: KV<K, V> :: a.keyRight(r) == r.key && a.valueRight(r) == r.value
  {
    JoinAdapter(right, KeyExtractor, KeyExtractor, ValueExtractor, ValueExtractor)
  }

  /** `Join(right, keyLeft, keyRight)`: caller-given keys; whole items are kept as values. */
  function JoinOn<L(!new), R(!new), K>(right: seq<R>, keyLeft: L -> K, keyRight: R -> K): (a: JoinAdapter<L, R, K, L, R>)
    ensures a.right == right && a.keyLeft == keyLeft && a.keyRight == keyRight
    ensures forall l :: a.valueLeft(l) == l
    ensures forall r :: a.valueRight(r) == r
  {
    JoinAdapter(right, keyLeft, keyRight, IdentityExtractor, IdentityExtractor)
  }
}
