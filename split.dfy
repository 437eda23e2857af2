/** lib/split/split.h: `SplitIterator` and `SplitRange`. Each upstream item's content is
    split eagerly into `tokens`; the items themselves are pulled one at a time. */
module Split {
  import opened Common
  import opened SplitSpec

  /** `std::string::find_first_of(ds, from)`: the first position at or after `from` that
      holds a character of `ds`, or `None` for `npos`. */
  method FindFirstOf(input: string, ds: string, from: nat) returns (pos: Option<nat>)
    ensures pos.None? ==> forall j :: from <= j < |input| ==> input[j] !in ds
    ensures pos.Some? ==> from <= pos.value < |input| && input[pos.value] in ds
    ensures pos.Some? ==> forall j :: from <= j < pos.value ==> input[j] !in ds
  {
    var j := from;
    while j < |input|
      invariant from <= j || |input| <= j
      invariant forall k :: from <= k < j && k < |input| ==> input[k] !in ds
    {
      if input[j] in ds {
        return Some(j);
      }
      j := j + 1;
    }
    return None;
  }

  /** The body of `splitCurrentString` for one content: one token per character when the
      delimiter set is empty; otherwise cut at every character of the set, `'\n'` included. */
  method SplitString(input: string, delimiters: string) returns (tokens: seq<string>)
    ensures tokens == Tokens(input, delimiters)
  {
    if |delimiters| == 0 {
      tokens := SplitChars(input);
      return;
    }
    var localDelimiters := delimiters;
    if '\n' !in delimiters {
      localDelimiters := localDelimiters + "\n";
    }
    assert localDelimiters == LocalDelimiters(delimiters);
    tokens := SplitAt(input, localDelimiters);
  }

  /** The empty-set branch: `push_back` of every character as a one-character token. */
  method SplitChars(input: string) returns (tokens: seq<string>)
    ensures tokens == Chars(input)
  {
    tokens := [];
    var i := 0;
    while i < |input|
      invariant i <= |input|
      invariant tokens == Chars(input[..i])
    {
      assert input[..i + 1] == input[..i] + [input[i]];
      CharsSnoc(input[..i], input[i]);
      tokens := tokens + [[input[i]]];
      i := i + 1;
    }
    assert input[..i] == input;
  }

  /** The other branch: `prev`/`pos` walk through the `find_first_of` results; the text
      between two delimiters is a token, and the text after the last one closes the list. */
  method SplitAt(input: string, localDelimiters: string) returns (tokens: seq<string>)
    ensures tokens == SplitOn(input, localDelimiters)
  {
    tokens := [];
    var prev := 0;
    var pos := FindFirstOf(input, localDelimiters, prev);
    assert input[prev..] == input;
    while pos.Some?
      invariant prev <= |input|
      invariant tokens + SplitOn(input[prev..], localDelimiters) == SplitOn(input, localDelimiters)
      invariant pos.None? ==> forall j :: prev <= j < |input| ==> input[j] !in localDelimiters
      invariant pos.Some? ==> prev <= pos.value < |input| && input[pos.value] in localDelimiters
      invariant pos.Some? ==> forall j :: prev <= j < pos.value ==> input[j] !in localDelimiters
      decreases |input| - prev
    {
      var p := pos.value;
      ghost var rest := input[prev..];
      assert rest[..p - prev] == input[prev..p];
      assert rest[p - prev + 1..] == input[p + 1..];
      SplitOnAt(rest, localDelimiters, p - prev);
      Advance(tokens, SplitOn(rest, localDelimiters), input[prev..p], SplitOn(input[p + 1..], localDelimiters));
      tokens := tokens + [input[prev..p]];
      prev := p + 1;
      pos := FindFirstOf(input, localDelimiters, prev);
    }
    SplitOnNoDelimiter(input[prev..], localDelimiters);
    tokens := tokens + [input[prev..]];
  }

  lemma {:induction false} CharsSnoc(s: string, c: char)
    ensures Chars(s + [c]) == Chars(s) + [[c]]
  {
    assert |Chars(s + [c])| == |Chars(s) + [[c]]|;
    forall i | 0 <= i < |s| + 1 ensures Chars(s + [c])[i] == (Chars(s) + [[c]])[i] {
    }
  }

  /** The tokens from upstream position `c` on: those of item `c`, then the rest. */
  lemma SplitAllFrom(items: seq<string>, c: nat, delimiters: string)
    requires c < |items|
    ensures SplitAll(items[c..], delimiters) == Tokens(items[c], delimiters) + SplitAll(items[c + 1..], delimiters)
  {
    assert items[c..][1..] == items[c + 1..];
  }

  /** `SplitIterator`: `current` is the upstream position `current_`, `tokens` the token
      vector `tokens_` of the current item, `currentIndex` the position `current_index_`
      within it. */
  class SplitIterator {
    const items: seq<string>
    const end: nat
    const delimiters: string
    var current: nat
    var tokens: seq<string>
    var currentIndex: nat

    /** While the iterator is before the end, `tokens` holds the current item's tokens and
        `currentIndex` points into them. */
    ghost predicate Valid()
      reads this
    {
      end == |items| && current <= end &&
      (current < end ==>
        Splittable(items, delimiters) &&
        tokens == Tokens(items[current], delimiters) && currentIndex < |tokens|)
    }

    ghost function Rest(): seq<string>
      reads this
      requires Valid()
    {
      if current < end then tokens[currentIndex..] + SplitAll(items[current + 1..], delimiters)
      else []
    }

    /** `SplitIterator(current, end, delimiters)` */
    constructor (items: seq<string>, current: nat, delimiters: string)
      requires current <= |items| && Splittable(items, delimiters)
      ensures Valid() && this.items == items && this.delimiters == delimiters
      ensures Rest() == SplitAll(items[current..], delimiters)
    {
      this.items := items;
      this.end := |items|;
      this.delimiters := delimiters;
      this.current := current;
      this.tokens := [];
      this.currentIndex := 0;
      new;
      if current != end {
        SplitCurrentString();
        TokensNonEmpty(items[current], delimiters);
        SplitAllFrom(items, current, delimiters);
        assert tokens[0..] == tokens;
      }
    }

    /** `SplitIterator(end)`: the end iterator, with no delimiters and no tokens. */
    constructor AtEnd(items: seq<string>)
      ensures Valid() && this.items == items && current == |items| && Rest() == []
    {
      this.items := items;
      this.end := |items|;
      this.delimiters := "";
      this.current := |items|;
      this.tokens := [];
      this.currentIndex := 0;
    }

    /** `splitCurrentString` */
    method SplitCurrentString()
      requires current < end == |items|
      modifies this`tokens
      ensures tokens == Tokens(items[current], delimiters)
    {
      tokens := SplitString(items[current], delimiters);
    }

    /** `operator*`: the current token. */
    method Deref() returns (t: string)
      requires Valid() && current < end
      ensures Rest() != [] && t == Rest()[0]
    {
      t := tokens[currentIndex];
    }

    /** `operator++`: the next token of this item, or the first token of the next item. */
    method Next()
      requires Valid() && current < end
      modifies this`current, this`tokens, this`currentIndex
      ensures Valid()
      ensures old(Rest()) != [] && Rest() == old(Rest())[1..]
    {
      DropFirst(tokens, currentIndex, SplitAll(items[current + 1..], delimiters));
      if currentIndex + 1 < |tokens| {
        NextToken();
      } else {
        assert tokens[currentIndex + 1..] == [];
        NextItem();
      }
    }

    /** The part of `operator++` that stays within the current item. */
    method NextToken()
      requires Valid() && current < end && currentIndex + 1 < |tokens|
      modifies this`currentIndex
      ensures Valid() && current == old(current) && tokens == old(tokens)
      ensures currentIndex == old(currentIndex) + 1
    {
      currentIndex := currentIndex + 1;
    }

    /** The part of `operator++` that leaves an exhausted item: move to the next upstream
        position and, unless it is the end, split its content. */
    method NextItem()
      requires end == |items| && current < end && Splittable(items, delimiters)
      modifies this`current, this`tokens, this`currentIndex
      ensures current == old(current) + 1
      ensures Valid() && Rest() == SplitAll(items[old(current) + 1..], delimiters)
    {
      current := current + 1;
      currentIndex := 0;
      if current != end {
        SplitCurrentString();
        TokensNonEmpty(items[current], delimiters);
        SplitAllFrom(items, current, delimiters);
        assert tokens[0..] == tokens;
      }
    }

    /** `operator!=`: positions differ, or (away from the end) token indices differ. */
    method NotEqual(other: SplitIterator) returns (ne: bool)
      ensures ne <==> current != other.current || (current != end && currentIndex != other.currentIndex)
    {
      ne := current != other.current || (current != end && currentIndex != other.currentIndex);
    }
  }

  /** `SplitRange`: the upstream range and the delimiter set. */
  class SplitRange {
    const range: seq<string>
    const delimiters: string

    constructor (range: seq<string>, delimiters: string)
      ensures this.range == range && this.delimiters == delimiters
    {
      this.range := range;
      this.delimiters := delimiters;
    }

    method Begin() returns (it: SplitIterator)
      requires Splittable(range, delimiters)
      ensures fresh(it) && it.Valid() && it.items == range && it.Rest() == SplitAll(range, delimiters)
    {
      it := new SplitIterator(range, 0, delimiters);
      assert range[0..] == range;
    }

    method End() returns (it: SplitIterator)
      ensures fresh(it) && it.Valid() && it.current == |range|
    {
      it := new SplitIterator.AtEnd(range);
    }
  }

  /** `range | Split(delimiters) | AsVector()`: the tokens of every upstream item, item after
      item. The source reads `tokens_[0]` of an item with no tokens, so an empty delimiter
      set is only defined on items with non-empty content. */
  method Collect(range: seq<string>, delimiters: string) returns (out: seq<string>)
    requires Splittable(range, delimiters)
    ensures out == SplitAll(range, delimiters)
  {
    var r := new SplitRange(range, delimiters);
    var it := r.Begin();
    var e := r.End();
    out := [];
    var ne := it.NotEqual(e);
    while ne
      invariant it.Valid() && it.items == range
      invariant e.current == |range| && it != e
      invariant ne <==> it.current < |range|
      invariant out + it.Rest() == SplitAll(range, delimiters)
      decreases |it.Rest()|
    {
      ghost var before, done := it.Rest(), out;
      var t := it.Deref();
      out := out + [t];
      it.Next();
      Advance(done, before, t, it.Rest());
      ne := it.NotEqual(e);
    }
  }
}
