/** lib/join/join.h: `JoinRange` builds an index of the right range once, in its
    constructor; `JoinIterator` walks the left range and, for each left item, the list of
    right values its key has in that index. */
module Join {
  import opened Common
  import opened JoinSpec

  /** The constructor loop of `JoinRange`: `right_index_[key].push_back(value)` for every
      right item, in order; `operator[]` starts a missing key with an empty list. */
  method BuildIndex<R, K(==), RV>(right: seq<R>, keyRight: R -> K, valueRight: R -> RV)
    returns (index: map<K, seq<RV>>)
    ensures index == RightIndex(right, keyRight, valueRight)
    ensures forall k :: Lookup(index, k) == Matches(right, keyRight, valueRight, k)
  {
    index := map[];
    var i := 0;
    while i < |right|
      invariant i <= |right|
      invariant index == RightIndex(right[..i], keyRight, valueRight)
    {
      assert right[..i + 1][..i] == right[..i];
      var k := keyRight(right[i]);
      var bucket := if k in index then index[k] else [];
      index := index[k := bucket + [valueRight(right[i])]];
      i := i + 1;
    }
    assert right[..i] == right;
    forall k ensures Lookup(index, k) == Matches(right, keyRight, valueRight, k) {
      IndexLookup(right, keyRight, valueRight, k);
    }
  }

  /** `JoinIterator`: `leftIt` is the left position `left_it_`, `rightValues` the copied
      list `right_values_` of the current key, `rightIndexPos` the position in it and
      `current` the result `current_` that `operator*` returns. */
  class JoinIterator<L, K(==), LV(0), RV> {
    const left: seq<L>
    const leftEnd: nat
    const rightIndex: map<K, seq<RV>>
    const keyLeft: L -> K
    const valueLeft: L -> LV
    var leftIt: nat
    var rightValues: seq<RV>
    var rightIndexPos: nat
    var current: JoinResult<LV, RV>

    /** Before the end, `rightValues` is the current key's list, `rightIndexPos` points into
        it (or is 0 when it is empty) and `current` is the result at that position. */
    ghost predicate Valid()
      reads this
    {
      leftEnd == |left| && leftIt <= leftEnd &&
      (leftIt < leftEnd ==>
        rightValues == Lookup(rightIndex, keyLeft(left[leftIt])) &&
        (if rightValues == [] then rightIndexPos == 0 else rightIndexPos < |rightValues|) &&
        current == JoinResult(valueLeft(left[leftIt]),
                              if rightValues == [] then None else Some(rightValues[rightIndexPos])))
    }

    /** The results still to be produced. */
    ghost function Rest(): seq<JoinResult<LV, RV>>
      reads this
      requires Valid()
    {
      if leftIt < leftEnd then
        ResultsFor(valueLeft(left[leftIt]), rightValues)[rightIndexPos..]
        + JoinWith(left[leftIt + 1..], rightIndex, keyLeft, valueLeft)
      else []
    }

    /** `JoinIterator(left_it, left_end, right_index, key_extractor_left, value_extractor_left)` */
    constructor (left: seq<L>, leftIt: nat, rightIndex: map<K, seq<RV>>, keyLeft: L -> K, valueLeft: L -> LV)
      requires leftIt <= |left|
      ensures Valid() && this.left == left && this.leftIt == leftIt
      ensures this.rightIndex == rightIndex && this.keyLeft == keyLeft && this.valueLeft == valueLeft
      ensures Rest() == JoinWith(left[leftIt..], rightIndex, keyLeft, valueLeft)
    {
      this.left := left;
      this.leftEnd := |left|;
      this.rightIndex := rightIndex;
      this.keyLeft := keyLeft;
      this.valueLeft := valueLeft;
      this.leftIt := leftIt;
      this.rightValues := [];
      this.rightIndexPos := 0;
      new;
      if leftIt != leftEnd {
        UpdateRightValues();
        assert left[leftIt..][1..] == left[leftIt + 1..];
      }
    }

    /** `updateRightValues`: look up the current left key and set the first result. */
    method UpdateRightValues()
      requires leftEnd == |left| && leftIt < leftEnd && rightIndexPos == 0
      modifies this`rightValues, this`current
      ensures Valid()
      ensures Rest() == ResultsFor(valueLeft(left[leftIt]), Lookup(rightIndex, keyLeft(left[leftIt])))
                        + JoinWith(left[leftIt + 1..], rightIndex, keyLeft, valueLeft)
    {
      var key := keyLeft(left[leftIt]);
      if key in rightIndex {
        rightValues := rightIndex[key];
        if rightValues != [] {
          current := JoinResult(valueLeft(left[leftIt]), Some(rightValues[rightIndexPos]));
        } else {
          current := JoinResult(valueLeft(left[leftIt]), None);
        }
      } else {
        rightValues := [];
        current := JoinResult(valueLeft(left[leftIt]), None);
      }
      assert ResultsFor(valueLeft(left[leftIt]), rightValues)[0..] == ResultsFor(valueLeft(left[leftIt]), rightValues);
    }

    /** `operator*` */
    method Deref() returns (r: JoinResult<LV, RV>)
      requires Valid() && leftIt < leftEnd
      ensures Rest() != [] && r == Rest()[0]
    {
      r := current;
    }

    /** `operator++`: the next right value of the same left item, or the next left item. */
    method Next()
      requires Valid() && leftIt < leftEnd
      modifies this`leftIt, this`rightValues, this`rightIndexPos, this`current
      ensures Valid()
      ensures old(Rest()) != [] && Rest() == old(Rest())[1..]
    {
      ghost var results := ResultsFor(valueLeft(left[leftIt]), rightValues);
      ghost var tail := JoinWith(left[leftIt + 1..], rightIndex, keyLeft, valueLeft);
      DropFirst(results, rightIndexPos, tail);
      if rightIndexPos + 1 < |rightValues| {
        rightIndexPos := rightIndexPos + 1;
        current := JoinResult(valueLeft(left[leftIt]), Some(rightValues[rightIndexPos]));
      } else {
        NextLeft();
      }
    }

    /** The part of `operator++` that leaves an exhausted left item: move to the next left
        position and, unless it is the end, look up its key. */
    method NextLeft()
      requires leftEnd == |left| && leftIt < leftEnd
      modifies this`leftIt, this`rightValues, this`rightIndexPos, this`current
      ensures leftIt == old(leftIt) + 1
      ensures Valid() && Rest() == JoinWith(left[old(leftIt) + 1..], rightIndex, keyLeft, valueLeft)
    {
      leftIt := leftIt + 1;
      rightIndexPos := 0;
      if leftIt != leftEnd {
        UpdateRightValues();
        assert left[leftIt..][1..] == left[leftIt + 1..];
      }
    }

    /** `operator!=`: left positions differ, or both are before the end and the positions in
        the right values differ. */
    method NotEqual(other: JoinIterator<L, K, LV, RV>) returns (ne: bool)
      ensures ne <==> leftIt != other.leftIt ||
                      (leftIt != leftEnd && other.leftIt != other.leftEnd && rightIndexPos != other.rightIndexPos)
    {
      ne := leftIt != other.leftIt ||
            (leftIt != leftEnd && other.leftIt != other.leftEnd && rightIndexPos != other.rightIndexPos);
    }
  }

  /** `JoinRange`: the left range, the left extractors and the right index. */
  class JoinRange<L, R, K(==), LV(0), RV> {
    const leftRange: seq<L>
    const keyLeft: L -> K
    const valueLeft: L -> LV
    var rightIndex: map<K, seq<RV>>

    constructor (leftRange: seq<L>, rightRange: seq<R>, keyLeft: L -> K, keyRight: R -> K,
                 valueLeft: L -> LV, valueRight: R -> RV)
      ensures this.leftRange == leftRange && this.keyLeft == keyLeft && this.valueLeft == valueLeft
      ensures rightIndex == RightIndex(rightRange, keyRight, valueRight)
    {
      this.leftRange := leftRange;
      this.keyLeft := keyLeft;
      this.valueLeft := valueLeft;
      this.rightIndex := map[];
      new;
      rightIndex := BuildIndex(rightRange, keyRight, valueRight);
    }

    method Begin() returns (it: JoinIterator<L, K, LV, RV>)
      ensures fresh(it) && it.Valid() && it.left == leftRange
      ensures it.Rest() == JoinWith(leftRange, rightIndex, keyLeft, valueLeft)
    {
      it := new JoinIterator(leftRange, 0, rightIndex, keyLeft, valueLeft);
      assert leftRange[0..] == leftRange;
    }

    method End() returns (it: JoinIterator<L, K, LV, RV>)
      ensures fresh(it) && it.Valid() && it.left == leftRange && it.leftIt == |leftRange|
    {
      it := new JoinIterator(leftRange, |leftRange|, rightIndex, keyLeft, valueLeft);
    }
  }

  /** `left | join_adapter | AsVector()`: the adapter builds a `JoinRange` over the left
      range, whose iterators are drained in order. */
  method Collect<L, R, K(==), LV(0), RV>(left: seq<L>, adapter: JoinAdapter<L, R, K, LV, RV>)
    returns (out: seq<JoinResult<LV, RV>>)
    ensures out == Joined(left, adapter.right, adapter.keyLeft, adapter.keyRight, adapter.valueLeft, adapter.valueRight)
  {
    var r := new JoinRange(left, adapter.right, adapter.keyLeft, adapter.keyRight, adapter.valueLeft, adapter.valueRight);
    var it := r.Begin();
    var e := r.End();
    ghost var target := JoinWith(left, r.rightIndex, adapter.keyLeft, adapter.valueLeft);
    JoinWithIndex(left, adapter.right, adapter.keyLeft, adapter.keyRight, adapter.valueLeft, adapter.valueRight);
    out := [];
    var ne := it.NotEqual(e);
    while ne
      invariant it.Valid() && it.left == left
      invariant e.leftIt == |left| && e.leftEnd == |left| && it != e
      invariant ne <==> it.leftIt < |left|
      invariant out + it.Rest() == target
      decreases |it.Rest()|
    {
      ghost var before, done := it.Rest(), out;
      var x := it.Deref();
      out := out + [x];
      it.Next();
      Advance(done, before, x, it.Rest());
      ne := it.NotEqual(e);
    }
  }
}
