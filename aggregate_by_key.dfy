/** lib/aggregate_by_key/aggregate_by_key.h: an eager group-by fold. The accumulator the
    source updates in place is modelled by an aggregator `(item, acc) -> acc`. */
module AggregateByKey {
  import Filter

  /** The left-to-right fold of `agg` over `items`, starting from `acc`. */
  function FoldLeft<T, A>(agg: (T, A) -> A, acc: A, items: seq<T>): A
  {
    if items == [] then acc else FoldLeft(agg, agg(items[0], acc), items[1..])
  }

  /** The items whose extracted key is `k`, in input order. */
  function WithKey<T, K(==)>(items: seq<T>, key: T -> K, k: K): seq<T>
  {
    Filter.Filtered(items, x => key(x) == k)
  }

  /** The keys extracted from `items`. */
  function KeySet<T, K>(items: seq<T>, key: T -> K): set<K>
  {
    set i | 0 <= i < |items| :: key(items[i])
  }

  /** The map `aggregated` after the first loop has processed `items`: a key seen for the
      first time starts from `seed`, and every item is folded into its key's accumulator. */
  function Aggregated<T, K(==), A>(items: seq<T>, seed: A, agg: (T, A) -> A, key: T -> K): map<K, A>
    decreases |items|
  {
    if items == [] then map[]
    else
      var m := Aggregated(items[..|items| - 1], seed, agg, key);
      var x := items[|items| - 1];
      var k := key(x);
      m[k := agg(x, if k in m then m[k] else seed)]
  }

  lemma {:induction false} FoldLeftSnoc<T, A>(agg: (T, A) -> A, acc: A, items: seq<T>, x: T)
    ensures FoldLeft(agg, acc, items + [x]) == agg(x, FoldLeft(agg, acc, items))
  {
    if items == [] {
      assert [x][1..] == [];
    } else {
      assert (items + [x])[1..] == items[1..] + [x];
      FoldLeftSnoc(agg, agg(items[0], acc), items[1..], x);
    }
  }

  lemma WithKeySnoc<T, K>(items: seq<T>, x: T, key: T -> K, k: K)
    ensures WithKey(items + [x], key, k) == WithKey(items, key, k) + (if key(x) == k then [x] else [])
  {
    var p := (y: T) => key(y) == k;
    Filter.FilteredAppend(items, [x], p);
    assert Filter.Filtered([x], p) == (if p(x) then [x] else []) + Filter.Filtered([x][1..], p);
  }

  lemma {:induction false} WithKeyEmpty<T, K>(items: seq<T>, key: T -> K, k: K)
    requires k !in KeySet(items, key)
    ensures WithKey(items, key, k) == []
  {
    if items != [] {
      assert key(items[0]) in KeySet(items, key);
      assert KeySet(items[1..], key) <= KeySet(items, key) by {
        forall y | y in KeySet(items[1..], key) ensures y in KeySet(items, key) {
          var i :| 0 <= i < |items[1..]| && key(items[1..][i]) == y;
          assert items[1..][i] == items[i + 1];
        }
      }
      WithKeyEmpty(items[1..], key, k);
      var p := (y: T) => key(y) == k;
      assert Filter.Filtered(items, p) == Filter.Filtered(items[1..], p);
    }
  }

  lemma KeySetSnoc<T, K>(items: seq<T>, x: T, key: T -> K)
    ensures KeySet(items + [x], key) == KeySet(items, key) + {key(x)}
  {
    var a, b := KeySet(items + [x], key), KeySet(items, key) + {key(x)};
    forall y | y in a ensures y in b {
      var i :| 0 <= i < |items + [x]| && key((items + [x])[i]) == y;
      if i < |items| { assert (items + [x])[i] == items[i]; }
    }
    forall y | y in b ensures y in a {
      if y == key(x) {
        assert (items + [x])[|items|] == x;
      } else {
        var i :| 0 <= i < |items| && key(items[i]) == y;
        assert (items + [x])[i] == items[i];
      }
    }
  }

  /** The aggregated map has exactly the extracted keys, and a key's accumulator is the fold
      of the aggregator, from a fresh copy of the seed, over exactly the items with that key,
      in input order. */
  lemma {:induction false} AggregatedSpec<T, K, A>(items: seq<T>, seed: A, agg: (T, A) -> A, key: T -> K, k: K)
    ensures k in Aggregated(items, seed, agg, key) <==> k in KeySet(items, key)
    ensures k in Aggregated(items, seed, agg, key) ==>
      Aggregated(items, seed, agg, key)[k] == FoldLeft(agg, seed, WithKey(items, key, k))
    decreases |items|
  {
    if items != [] {
      var init, x := items[..|items| - 1], items[|items| - 1];
      assert items == init + [x];
      AggregatedSpec(init, seed, agg, key, k);
      KeySetSnoc(init, x, key);
      WithKeySnoc(init, x, key, k);
      var m := Aggregated(init, seed, agg, key);
      assert Aggregated(items, seed, agg, key) == m[key(x) := agg(x, if key(x) in m then m[key(x)] else seed)];
      if key(x) == k {
        FoldLeftSnoc(agg, seed, WithKey(init, key, k), x);
        if k !in KeySet(init, key) {
          WithKeyEmpty(init, key, k);
          assert FoldLeft(agg, seed, WithKey(init, key, k)) == seed;
        }
      } else {
        assert WithKey(items, key, k) == WithKey(init, key, k);
      }
    }
  }

  /** One output pair per distinct key: the map's keys are the extracted keys. */
  lemma AggregatedKeys<T, K, A>(items: seq<T>, seed: A, agg: (T, A) -> A, key: T -> K)
    ensures Aggregated(items, seed, agg, key).Keys == KeySet(items, key)
  {
    forall k ensures k in Aggregated(items, seed, agg, key) <==> k in KeySet(items, key) {
      AggregatedSpec(items, seed, agg, key, k);
    }
  }

  /** Empty input aggregates nothing. */
  lemma AggregatedEmpty<T, K, A>(seed: A, agg: (T, A) -> A, key: T -> K)
    ensures Aggregated([], seed, agg, key) == map[]
  {
  }

  /** A single item gives one key, whose accumulator is the seed with that item folded in. */
  lemma AggregatedSingle<T, K, A>(x: T, seed: A, agg: (T, A) -> A, key: T -> K)
    ensures Aggregated([x], seed, agg, key) == map[key(x) := agg(x, seed)]
  {
    assert [x][..0] == [];
  }

  /** The counting aggregator `++accumulated`. */
  function Increment<T>(item: T, count: nat): nat { count + 1 }

  lemma {:induction false} FoldIncrement<T>(count: nat, items: seq<T>)
    ensures FoldLeft(Increment, count, items) == count + |items|
    decreases |items|
  {
    if items != [] {
      FoldIncrement(count + 1, items[1..]);
    }
  }

  /** Counting from zero gives, for every key, the number of items with that key. */
  lemma CountingAggregator<T, K>(items: seq<T>, key: T -> K, k: K)
    requires k in KeySet(items, key)
    ensures k in Aggregated(items, 0, Increment, key)
    ensures Aggregated(items, 0, Increment, key)[k] == |WithKey(items, key, k)|
  {
    AggregatedSpec(items, 0, Increment, key, k);
    FoldIncrement(0, WithKey(items, key, k));
  }

  /** An aggregator that appends items to a list until it holds `cap` of them and then
      ignores the rest. */
  function KeepUpTo<T>(cap: nat): (T, seq<T>) -> seq<T>
  {
    (x: T, acc: seq<T>) => if |acc| == cap then acc else acc + [x]
  }

  lemma {:induction false} FoldKeepUpTo<T>(cap: nat, acc: seq<T>, items: seq<T>)
    requires |acc| <= cap
    ensures FoldLeft(KeepUpTo(cap), acc, items) == (acc + items)[..if |acc| + |items| < cap then |acc| + |items| else cap]
    decreases |items|
  {
    if items != [] {
      var next := KeepUpTo(cap)(items[0], acc);
      FoldKeepUpTo(cap, next, items[1..]);
      if |acc| == cap {
        assert (acc + items)[..cap] == acc;
        assert (next + items[1..])[..cap] == acc;
      } else {
        assert next + items[1..] == acc + items;
      }
    } else {
      assert acc + items == acc;
    }
  }

  /** With the capped aggregator, every key keeps its first `cap` items, in input order. */
  lemma CappedAggregator<T, K>(items: seq<T>, key: T -> K, k: K, cap: nat)
    requires k in KeySet(items, key)
    ensures k in Aggregated(items, [], KeepUpTo(cap), key)
    ensures var w := WithKey(items, key, k);
      Aggregated(items, [], KeepUpTo(cap), key)[k] == w[..if |w| < cap then |w| else cap]
  {
    AggregatedSpec(items, [], KeepUpTo(cap), key, k);
    var w := WithKey(items, key, k);
    FoldKeepUpTo(cap, [], w);
    assert [] + w == w;
  }

  /** `AggregateByKeyRange`: the seed, the aggregator and the key extractor. */
  datatype AggregateByKeyRange<!A, !T, K> =
    AggregateByKeyRange(initialValue: A, aggregator: (T, A) -> A, keyExtractor: T -> K)

  /** `AggregateByKey(initialValue, aggregator, keyExtractor)` */
  function MakeAggregateByKey<A, T, K>(initialValue: A, aggregator: (T, A) -> A, keyExtractor: T -> K)
    : (op: AggregateByKeyRange<A, T, K>)
    ensures op.initialValue == initialValue && op.aggregator == aggregator && op.keyExtractor == keyExtractor
  {
    AggregateByKeyRange(initialValue, aggregator, keyExtractor)
  }

  /** `range | AggregateByKey(...)`: the whole range is folded into the map `aggregated`
      before any pair is emitted; the pairs are then read out of the map in an order the
      source leaves to `std::unordered_map`, modelled as an arbitrary choice. */
  method Apply<T, K(==), A>(range: seq<T>, op: AggregateByKeyRange<A, T, K>) returns (result: seq<(K, A)>)
    ensures forall j :: 0 <= j < |result| ==>
      result[j].0 in Aggregated(range, op.initialValue, op.aggregator, op.keyExtractor) &&
      result[j].1 == Aggregated(range, op.initialValue, op.aggregator, op.keyExtractor)[result[j].0]
    ensures forall k :: k in Aggregated(range, op.initialValue, op.aggregator, op.keyExtractor) ==>
      exists j :: 0 <= j < |result| && result[j].0 == k
    ensures forall j, l :: 0 <= j < l < |result| ==> result[j].0 != result[l].0
    ensures |result| == |Aggregated(range, op.initialValue, op.aggregator, op.keyExtractor).Keys|
  {
    var aggregated: map<K, A> := map[];
    var i := 0;
    while i < |range|
      invariant i <= |range|
      invariant aggregated == Aggregated(range[..i], op.initialValue, op.aggregator, op.keyExtractor)
    {
      assert range[..i + 1][..i] == range[..i];
      var key := op.keyExtractor(range[i]);
      if key !in aggregated {
        aggregated := aggregated[key := op.initialValue];
      }
      aggregated := aggregated[key := op.aggregator(range[i], aggregated[key])];
      i := i + 1;
    }
    assert range[..i] == range;

    result := [];
    var remaining := aggregated.Keys;
    while remaining != {}
      invariant remaining <= aggregated.Keys
      invariant forall j :: 0 <= j < |result| ==>
        result[j].0 in aggregated && result[j].1 == aggregated[result[j].0] && result[j].0 !in remaining
      invariant forall k :: k in aggregated && k !in remaining ==> exists j :: 0 <= j < |result| && result[j].0 == k
      invariant forall j, l :: 0 <= j < l < |result| ==> result[j].0 != result[l].0
      invariant |result| + |remaining| == |aggregated.Keys|
      decreases |remaining|
    {
      var k :| k in remaining;
      ghost var previous := result;
      result := result + [(k, aggregated[k])];
      remaining := remaining - {k};
      forall k' | k' in aggregated && k' !in remaining
        ensures exists j :: 0 <= j < |result| && result[j].0 == k'
      {
        if k' == k {
          assert result[|result| - 1].0 == k;
        } else {
          var j :| 0 <= j < |previous| && previous[j].0 == k';
          assert result[j] == previous[j];
        }
      }
    }
  }

  /** `AsDataFlow(container)` of this header: the container itself, returned by value. */
  function AsDataFlow<T>(container: seq<T>): (flow: seq<T>)
    ensures |flow| == |container| && forall i :: 0 <= i < |flow| ==> flow[i] == container[i]
  {
    container
  }

  /** `AsVector(range)` of this header: a vector built from the range's `[begin, end)`. */
  function AsVector<T>(range: seq<T>): (v: seq<T>)
    ensures |v| == |range| && forall i :: 0 <= i < |v| ==> v[i] == range[i]
  {
    range[0..|range|]
  }
}
