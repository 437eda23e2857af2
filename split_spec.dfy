/** The tokenizer of lib/split/split.h as specification functions: how one item's content
    is cut into tokens, and how the tokens of all upstream items are flattened. */
module SplitSpec {

  /** `localDelimiters`: the caller's delimiter set with `'\n'` added when it is missing. */
  function LocalDelimiters(d: string): (ld: string)
    ensures '\n' in ld
    ensures forall c :: c in ld <==> c in d || c == '\n'
    ensures '\n' in d ==> ld == d
  {
    if '\n' in d then d else d + "\n"
  }

  /** Reference definition of splitting on a set of delimiter characters, one character at
      a time: a delimiter closes the current token (which may be empty), any other character
      extends it, and the token after the last delimiter is always present. */
  function SplitOn(s: string, ds: string): (r: seq<string>)
    ensures |r| >= 1
  {
    if s == [] then [""]
    else
      var rest := SplitOn(s[1..], ds);
      if s[0] in ds then [""] + rest
      else [[s[0]] + rest[0]] + rest[1..]
  }

  /** The delimiter characters of `s`, in order: what the splitter consumes. */
  function Separators(s: string, ds: string): (r: string)
    ensures |r| <= |s|
    ensures forall i :: 0 <= i < |r| ==> r[i] in ds && r[i] in s
  {
    if s == [] then []
    else (if s[0] in ds then [s[0]] else []) + Separators(s[1..], ds)
  }

  /** Tokens glued back together with one separator between neighbours. */
  function Interleave(toks: seq<string>, seps: string): string
    requires |toks| == |seps| + 1
  {
    if |seps| == 0 then toks[0]
    else toks[0] + [seps[0]] + Interleave(toks[1..], seps[1..])
  }

  /** One single-character token per character: the rule for an empty delimiter set. */
  function Chars(s: string): (r: seq<string>)
    ensures |r| == |s|
    ensures forall i :: 0 <= i < |s| ==> r[i] == [s[i]]
  {
    if s == [] then [] else [[s[0]]] + Chars(s[1..])
  }

  /** `splitCurrentString` on one item's content. */
  function Tokens(content: string, delimiters: string): seq<string>
  {
    if |delimiters| == 0 then Chars(content)
    else SplitOn(content, LocalDelimiters(delimiters))
  }

  /** The tokens of every upstream item, item after item. */
  function SplitAll(contents: seq<string>, delimiters: string): seq<string>
  {
    if contents == [] then []
    else Tokens(contents[0], delimiters) + SplitAll(contents[1..], delimiters)
  }

  /** The input the iterator can walk without reading past an empty token list: with an
      empty delimiter set, an empty content yields no token and `tokens_[0]` would be read. */
  predicate Splittable(contents: seq<string>, delimiters: string)
  {
    |delimiters| > 0 || forall i :: 0 <= i < |contents| ==> |contents[i]| > 0
  }

  /** No token contains a delimiter character. */
  predicate DelimiterFree(t: string, ds: string)
  {
    forall j :: 0 <= j < |t| ==> t[j] !in ds
  }

  // ---------------------------------------------------------------- properties of SplitOn

  /** One more token than there are delimiter occurrences: nothing is collapsed. */
  lemma {:induction false} SplitOnCount(s: string, ds: string)
    ensures |SplitOn(s, ds)| == |Separators(s, ds)| + 1
  {
    if s != [] {
      SplitOnCount(s[1..], ds);
    }
  }

  /** No token of `SplitOn(s, ds)` holds a character of `ds`. */
  lemma {:induction false} SplitOnTokensDelimiterFree(s: string, ds: string)
    ensures forall i :: 0 <= i < |SplitOn(s, ds)| ==> DelimiterFree(SplitOn(s, ds)[i], ds)
  {
    if s != [] {
      SplitOnTokensDelimiterFree(s[1..], ds);
      var rest := SplitOn(s[1..], ds);
      if s[0] !in ds {
        var t := [s[0]] + rest[0];
        assert DelimiterFree(rest[0], ds);
        assert forall j :: 1 <= j < |t| ==> t[j] == rest[0][j - 1];
      }
    }
  }

  /** Content without delimiters is a single token: the whole content. */
  lemma {:induction false} SplitOnNoDelimiter(s: string, ds: string)
    requires DelimiterFree(s, ds)
    ensures SplitOn(s, ds) == [s]
  {
    if s != [] {
      SplitOnNoDelimiter(s[1..], ds);
      assert [s[0]] + s[1..] == s;
    }
  }

  /** Cutting at the first delimiter: a delimiter-free prefix `s[..i]` closed by the
      delimiter `s[i]` is the first token, and splitting resumes after `s[i]`. */
  lemma {:induction false} SplitOnAt(s: string, ds: string, i: nat)
    requires i < |s| && s[i] in ds
    requires DelimiterFree(s[..i], ds)
    ensures SplitOn(s, ds) == [s[..i]] + SplitOn(s[i + 1..], ds)
  {
    if i > 0 {
      assert s[0] == s[..i][0];
      assert s[1..][..i - 1] == s[1..i];
      assert s[1..][i - 1 + 1..] == s[i + 1..];
      SplitOnAt(s[1..], ds, i - 1);
      assert [s[0]] + s[1..i] == s[..i];
    }
  }

  /** Putting the consumed delimiters back between the tokens rebuilds the content. */
  lemma {:induction false} SplitOnRoundTrip(s: string, ds: string)
    ensures |SplitOn(s, ds)| == |Separators(s, ds)| + 1
    ensures Interleave(SplitOn(s, ds), Separators(s, ds)) == s
  {
    SplitOnCount(s, ds);
    if s != [] {
      SplitOnRoundTrip(s[1..], ds);
      var rest, seps := SplitOn(s[1..], ds), Separators(s[1..], ds);
      if s[0] in ds {
        assert SplitOn(s, ds) == [""] + rest;
        assert Separators(s, ds) == [s[0]] + seps;
        assert Separators(s, ds)[1..] == seps;
        assert SplitOn(s, ds)[1..] == rest;
        assert [s[0]] + s[1..] == s;
      } else {
        assert Separators(s, ds) == seps;
        assert SplitOn(s, ds) == [[s[0]] + rest[0]] + rest[1..];
        InterleavePrepend([s[0]], rest, seps);
        assert [s[0]] + s[1..] == s;
      }
    }
  }

  /** Prefixing the first token prefixes the glued text. */
  lemma {:induction false} InterleavePrepend(p: string, toks: seq<string>, seps: string)
    requires |toks| == |seps| + 1
    ensures Interleave([p + toks[0]] + toks[1..], seps) == p + Interleave(toks, seps)
  {
    var ts := [p + toks[0]] + toks[1..];
    assert ts[1..] == toks[1..];
  }

  /** The converse of the round trip: any way of writing `s` as delimiter-free tokens glued
      by delimiter characters is the split of `s`. Together with SplitOnRoundTrip and
      SplitOnTokensDelimiterFree this characterises SplitOn completely. */
  lemma {:induction false} SplitOnUnique(s: string, ds: string, toks: seq<string>, seps: string)
    requires |toks| == |seps| + 1
    requires forall i :: 0 <= i < |toks| ==> DelimiterFree(toks[i], ds)
    requires forall i :: 0 <= i < |seps| ==> seps[i] in ds
    requires Interleave(toks, seps) == s
    ensures SplitOn(s, ds) == toks
    decreases |seps|
  {
    if |seps| == 0 {
      SplitOnNoDelimiter(s, ds);
    } else {
      var t := toks[0];
      var rest := Interleave(toks[1..], seps[1..]);
      assert s == t + [seps[0]] + rest;
      assert s[..|t|] == t;
      assert s[|t|] == seps[0];
      assert s[|t| + 1..] == rest;
      SplitOnAt(s, ds, |t|);
      SplitOnUnique(rest, ds, toks[1..], seps[1..]);
      assert toks == [t] + toks[1..];
    }
  }

  // ---------------------------------------------------------------- properties of Tokens

  /** With an empty delimiter set the tokens are the characters of the content, in order. */
  lemma EmptyDelimitersGiveChars(content: string)
    ensures |Tokens(content, "")| == |content|
    ensures forall i :: 0 <= i < |content| ==> Tokens(content, "")[i] == [content[i]]
  {
  }

  /** With a non-empty delimiter set, `'\n'` always separates tokens even when the caller
      did not list it, and no token contains any listed delimiter or `'\n'`. */
  lemma NewlineAlwaysDelimits(content: string, delimiters: string)
    requires |delimiters| > 0
    ensures forall i :: 0 <= i < |Tokens(content, delimiters)| ==>
      DelimiterFree(Tokens(content, delimiters)[i], delimiters + "\n")
  {
    var ld := LocalDelimiters(delimiters);
    SplitOnTokensDelimiterFree(content, ld);
    forall i | 0 <= i < |Tokens(content, delimiters)|
      ensures DelimiterFree(Tokens(content, delimiters)[i], delimiters + "\n")
    {
      var t := Tokens(content, delimiters)[i];
      assert DelimiterFree(t, ld);
      forall j | 0 <= j < |t| ensures t[j] !in delimiters + "\n" {
        assert t[j] !in ld;
      }
    }
  }

  /** With a non-empty delimiter set there are as many tokens as delimiter occurrences plus
      one; in particular an empty content yields the single token `""`. */
  lemma TokenCount(content: string, delimiters: string)
    requires |delimiters| > 0
    ensures |Tokens(content, delimiters)| == |Separators(content, LocalDelimiters(delimiters))| + 1
    ensures content == "" ==> Tokens(content, delimiters) == [""]
  {
    SplitOnCount(content, LocalDelimiters(delimiters));
  }

  /** Content with no delimiter (and no newline) is a single token: the whole content. */
  lemma DelimiterNotFound(content: string, delimiters: string)
    requires |delimiters| > 0
    requires DelimiterFree(content, delimiters + "\n")
    ensures Tokens(content, delimiters) == [content]
  {
    var ld := LocalDelimiters(delimiters);
    forall j | 0 <= j < |content| ensures content[j] !in ld {
      assert content[j] !in delimiters + "\n";
    }
    SplitOnNoDelimiter(content, ld);
  }

  /** The iterator never meets an empty token list on splittable input. */
  lemma TokensNonEmpty(content: string, delimiters: string)
    requires |delimiters| > 0 || |content| > 0
    ensures |Tokens(content, delimiters)| > 0
  {
  }

  /** Flattening keeps upstream order: the tokens of a concatenation of items are the
      tokens of the first part followed by those of the second. */
  lemma {:induction false} SplitAllAppend(a: seq<string>, b: seq<string>, delimiters: string)
    ensures SplitAll(a + b, delimiters) == SplitAll(a, delimiters) + SplitAll(b, delimiters)
  {
    if a == [] {
      assert a + b == b;
    } else {
      assert (a + b)[1..] == a[1..] + b;
      SplitAllAppend(a[1..], b, delimiters);
    }
  }
}
