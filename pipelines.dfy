/** Pipelines: `range | op` is function application, so a pipeline is a nested call of the
    operators' specification functions. General laws of composition and the worked pipelines
    of the repository's tests. */
module Pipelines {
  import Filter
  import Transform
  import SplitSpec
  import SplitExpected
  import Write

  /** `Transform(f) | Filter(q)` keeps the images of the items whose image passes `q`:
      it is `Filter(q . f) | Transform(f)`. */
  lemma {:induction false} TransformThenFilter<T, U>(s: seq<T>, f: T -> U, q: U -> bool)
    ensures Filter.Filtered(Transform.Mapped(s, f), q) == Transform.Mapped(Filter.Filtered(s, x => q(f(x))), f)
  {
    var qf := (x: T) => q(f(x));
    if s != [] {
      TransformThenFilter(s[1..], f, q);
      assert Transform.Mapped(s, f)[1..] == Transform.Mapped(s[1..], f);
      assert Filter.Filtered(Transform.Mapped(s, f), q)
          == (if q(f(s[0])) then [f(s[0])] else []) + Filter.Filtered(Transform.Mapped(s[1..], f), q);
      assert Filter.Filtered(s, qf) == (if qf(s[0]) then [s[0]] else []) + Filter.Filtered(s[1..], qf);
      Transform.MappedAppend(if qf(s[0]) then [s[0]] else [], Filter.Filtered(s[1..], qf), f);
    }
  }

  function IsEven(x: int): bool { x % 2 == 0 }

  function Square(x: int): int { x * x }

  /** An odd item followed by an even one contributes just the even one. */
  lemma OddEvenPair(s: seq<int>)
    requires |s| >= 2 && !IsEven(s[0]) && IsEven(s[1])
    ensures Filter.Filtered(s, IsEven) == [s[1]] + Filter.Filtered(s[2..], IsEven)
  {
    assert Filter.Filtered(s, IsEven) == Filter.Filtered(s[1..], IsEven);
    assert s[1..][1..] == s[2..];
    assert Filter.Filtered(s[1..], IsEven) == [s[1]] + Filter.Filtered(s[2..], IsEven);
  }

  /** The even numbers of 1..10, step by step over the suffixes of the input. */
  lemma EvenNumbersOf(s: seq<int>)
    requires s == [1, 2, 3, 4, 5, 6, 7, 8, 9, 10]
    ensures Filter.Filtered(s, IsEven) == [2, 4, 6, 8, 10]
  {
    var s8, s6, s4, s2 := s[8..], s[6..], s[4..], s[2..];
    assert Filter.Filtered(s8, IsEven) == [10] by {
      OddEvenPair(s8);
      assert s8[2..] == [];
    }
    assert Filter.Filtered(s6, IsEven) == [8, 10] by {
      OddEvenPair(s6);
      assert s6[2..] == s8;
    }
    assert Filter.Filtered(s4, IsEven) == [6, 8, 10] by {
      OddEvenPair(s4);
      assert s4[2..] == s6;
    }
    assert Filter.Filtered(s2, IsEven) == [4, 6, 8, 10] by {
      OddEvenPair(s2);
      assert s2[2..] == s4;
    }
    OddEvenPair(s);
  }

  /** `Filter(even)` over 1..10. */
  lemma EvenNumbers()
    ensures Filter.Filtered([1, 2, 3, 4, 5, 6, 7, 8, 9, 10], IsEven) == [2, 4, 6, 8, 10]
  {
    EvenNumbersOf([1, 2, 3, 4, 5, 6, 7, 8, 9, 10]);
  }

  /** `Transform(square)` over the even numbers. */
  lemma SquaresOfEvens()
    ensures Transform.Mapped([2, 4, 6, 8, 10], Square) == [4, 16, 36, 64, 100]
  {
    var squares := Transform.Mapped([2, 4, 6, 8, 10], Square);
    assert squares[0] == Square(2) == 4;
    assert squares[1] == Square(4) == 16;
    assert squares[2] == Square(6) == 36;
    assert squares[3] == Square(8) == 64;
    assert squares[4] == Square(10) == 100;
  }

  /** `Filter(even) | Transform(square)` over 1..10. */
  lemma EvenSquares()
    ensures Transform.Mapped(Filter.Filtered([1, 2, 3, 4, 5, 6, 7, 8, 9, 10], IsEven), Square) == [4, 16, 36, 64, 100]
  {
    EvenNumbers();
    SquaresOfEvens();
  }

  /** One step of the reference splitter on a character that is not a delimiter. */
  lemma CharStep(c: char, rest: string, ds: string)
    requires c !in ds
    ensures SplitSpec.SplitOn([c] + rest, ds)
         == [[c] + SplitSpec.SplitOn(rest, ds)[0]] + SplitSpec.SplitOn(rest, ds)[1..]
  {
    assert ([c] + rest)[1..] == rest;
  }

  /** One step of the reference splitter on a delimiter. */
  lemma DelimiterStep(c: char, rest: string, ds: string)
    requires c in ds
    ensures SplitSpec.SplitOn([c] + rest, ds) == [""] + SplitSpec.SplitOn(rest, ds)
  {
    assert ([c] + rest)[1..] == rest;
  }

  /** A character that is not a delimiter, followed by a delimiter, is a one-character token. */
  lemma CharThenDelimiter(c: char, rest: string, ds: string, tail: seq<string>)
    requires c !in ds && SplitSpec.SplitOn(rest, ds) == [""] + tail
    ensures SplitSpec.SplitOn([c] + rest, ds) == [[c]] + tail
  {
    assert ([c] + rest)[1..] == rest;
    assert [c] + "" == [c];
  }

  lemma SplitTailOfCommas(ds: string)
    requires ds == ",\n"
    ensures SplitSpec.SplitOn("b,,,c", ds) == ["b", "", "", "c"]
  {
    assert SplitSpec.SplitOn("c", ds) == ["c"] by {
      CharStep('c', "", ds);
      assert ['c'] + "" == "c";
    }
    assert SplitSpec.SplitOn(",c", ds) == ["", "c"] by {
      DelimiterStep(',', "c", ds);
      assert [','] + "c" == ",c";
    }
    assert SplitSpec.SplitOn(",,c", ds) == ["", "", "c"] by {
      DelimiterStep(',', ",c", ds);
      assert [','] + ",c" == ",,c";
    }
    assert SplitSpec.SplitOn(",,,c", ds) == ["", "", "", "c"] by {
      DelimiterStep(',', ",,c", ds);
      assert [','] + ",,c" == ",,,c";
    }
    CharStep('b', ",,,c", ds);
    assert ['b'] + ",,,c" == "b,,,c";
    assert ['b'] + "" == "b";
  }

  lemma SplitMiddleOfCommas(ds: string)
    requires ds == ",\n"
    ensures SplitSpec.SplitOn(",,b,,,c", ds) == [""] + ["", "b", "", "", "c"]
  {
    SplitTailOfCommas(ds);
    assert SplitSpec.SplitOn(",b,,,c", ds) == ["", "b", "", "", "c"] by {
      DelimiterStep(',', "b,,,c", ds);
      assert [','] + "b,,,c" == ",b,,,c";
    }
    DelimiterStep(',', ",b,,,c", ds);
    assert [','] + ",b,,,c" == ",,b,,,c";
  }

  lemma SplitCommas(ds: string)
    requires ds == ",\n"
    ensures SplitSpec.SplitOn("a,,b,,,c", ds) == ["a", "", "b", "", "", "c"]
  {
    SplitMiddleOfCommas(ds);
    CharThenDelimiter('a', ",,b,,,c", ds, ["", "b", "", "", "c"]);
    assert ['a'] + ",,b,,,c" == "a,,b,,,c";
  }

  /** A single upstream item yields its own tokens; with `","` the newline is added as a
      delimiter. */
  lemma SplitOneOnComma(content: string)
    ensures SplitSpec.SplitAll([content], ",") == SplitSpec.SplitOn(content, ",\n")
  {
    assert SplitSpec.LocalDelimiters(",") == ",\n";
    assert [content][1..] == [];
  }

  /** Adjacent delimiters produce empty tokens: `"a,,b,,,c"` split on `","`. */
  lemma EmptyTokensBetweenDelimiters()
    ensures SplitSpec.SplitAll(["a,,b,,,c"], ",") == ["a", "", "b", "", "", "c"]
  {
    SplitOneOnComma("a,,b,,,c");
    SplitCommas(",\n");
  }

  /** A single upstream item yields exactly its own tokens. */
  lemma SplitAllOne(content: string, delimiters: string)
    ensures SplitSpec.SplitAll([content], delimiters) == SplitSpec.Tokens(content, delimiters)
  {
    assert [content][1..] == [];
  }

  /** With a non-empty delimiter set an empty item is the single empty token. */
  lemma EmptyContentTokens(delimiters: string)
    requires |delimiters| > 0
    ensures SplitSpec.Tokens([], delimiters) == [""]
  {
    SplitSpec.TokenCount([], delimiters);
  }

  /** An empty upstream item between two others contributes exactly one empty token: the
      tokens of the first item, then `""`, then the tokens of the last. */
  lemma EmptyItemGivesEmptyToken(a: string, b: string, delimiters: string)
    requires |delimiters| > 0
    ensures SplitSpec.SplitAll([a] + [""] + [b], delimiters)
         == SplitSpec.Tokens(a, delimiters) + [""] + SplitSpec.Tokens(b, delimiters)
  {
    SplitSpec.SplitAllAppend([a] + [""], [b], delimiters);
    SplitSpec.SplitAllAppend([a], [""], delimiters);
    SplitAllOne(a, delimiters);
    SplitAllOne("", delimiters);
    SplitAllOne(b, delimiters);
    EmptyContentTokens(delimiters);
  }

  /** A word with neither a comma nor a newline is one token when splitting on `","`. */
  lemma OneCommaToken(w: string)
    requires SplitSpec.DelimiterFree(w, ",\n")
    ensures SplitSpec.Tokens(w, ",") == [w]
  {
    SplitSpec.DelimiterNotFound(w, ",");
  }

  lemma FirstToken()
    ensures SplitSpec.Tokens("first", ",") == ["first"]
  {
    OneCommaToken("first");
  }

  lemma ThirdToken()
    ensures SplitSpec.Tokens("third", ",") == ["third"]
  {
    OneCommaToken("third");
  }

  /** Files `"first"`, empty and `"third"` split on `","` give `first, "", third`. */
  lemma MixedEmptyAndNonEmptyFiles()
    ensures SplitSpec.SplitAll(["first", "", "third"], ",") == ["first", "", "third"]
  {
    EmptyItemGivesEmptyToken("first", "third", ",");
    FirstToken();
    ThirdToken();
    assert ["first", "", "third"] == ["first"] + [""] + ["third"];
  }

  /** Four delimiter-free fields separated by `|`, the third of them empty, split into
      exactly those fields. */
  lemma SplitFourFields(s: string, w1: string, w2: string, w4: string, ds: string)
    requires '|' in ds
    requires SplitSpec.DelimiterFree(w1, ds) && SplitSpec.DelimiterFree(w2, ds) && SplitSpec.DelimiterFree(w4, ds)
    requires s == w1 + "|" + w2 + "|" + "|" + w4
    ensures SplitSpec.SplitOn(s, ds) == [w1, w2, "", w4]
  {
    var r2 := s[|w1| + 1..];
    var r3 := r2[|w2| + 1..];
    assert r2 == w2 + "|" + "|" + w4;
    assert r3 == "|" + w4;
    assert r3[1..] == w4;
    assert s[..|w1|] == w1;
    assert r2[..|w2|] == w2;
    assert SplitSpec.DelimiterFree(r3[..0], ds);
    SplitSpec.SplitOnNoDelimiter(w4, ds);
    SplitSpec.SplitOnAt(r3, ds, 0);
    SplitSpec.SplitOnAt(r2, ds, |w2|);
    SplitSpec.SplitOnAt(s, ds, |w1|);
  }

  lemma DepartmentsFile()
    ensures "good-department|bad department||another-good-department"
         == "good-department" + "|" + "bad department" + "|" + "|" + "another-good-department"
  {
  }

  lemma DepartmentNamesDelimiterFree()
    ensures SplitSpec.DelimiterFree("good-department", "|\n")
    ensures SplitSpec.DelimiterFree("bad department", "|\n")
    ensures SplitSpec.DelimiterFree("another-good-department", "|\n")
  {
  }

  /** The file of the worked example split on `"|"`: the empty field between `||` is kept. */
  lemma SplitDepartmentsFile(file: string)
    requires file == "good-department|bad department||another-good-department"
    ensures SplitSpec.SplitAll([file], "|")
         == ["good-department", "bad department", "", "another-good-department"]
  {
    DepartmentsFile();
    DepartmentNamesDelimiterFree();
    SplitAllOne(file, "|");
    assert SplitSpec.LocalDelimiters("|") == "|\n";
    SplitFourFields(file, "good-department", "bad department", "another-good-department", "|\n");
  }

  lemma SplitDepartments()
    ensures SplitSpec.SplitAll(["good-department|bad department||another-good-department"], "|")
         == ["good-department", "bad department", "", "another-good-department"]
  {
    SplitDepartmentsFile("good-department|bad department||another-good-department");
  }

  /** `Department`: the parsed value of the worked example. */
  datatype Department = Department(name: string)

  /** `ParseDepartment`: an empty name or a name with a space is an error. */
  function ParseDepartment(s: string): SplitExpected.Expected<Department, string>
  {
    if s == [] then SplitExpected.Unexpected("Department name is empty")
    else if ' ' in s then SplitExpected.Unexpected("Department name contains space")
    else SplitExpected.Value(Department(s))
  }

  lemma BranchStep<V, E>(x: SplitExpected.Expected<V, E>, rest: seq<SplitExpected.Expected<V, E>>)
    ensures SplitExpected.Values([x] + rest) == (if x.Value? then [x.value] else []) + SplitExpected.Values(rest)
    ensures SplitExpected.Errors([x] + rest) == (if x.Unexpected? then [x.error] else []) + SplitExpected.Errors(rest)
  {
    assert ([x] + rest)[1..] == rest;
  }

  lemma MappedFour<T, U>(a: T, b: T, c: T, d: T, f: T -> U)
    ensures Transform.Mapped([a, b, c, d], f) == [f(a), f(b), f(c), f(d)]
  {
  }

  /** The split fields, parsed. */
  lemma ParsedDepartments()
    ensures Transform.Mapped(["good-department", "bad department", "", "another-good-department"], ParseDepartment)
         == [SplitExpected.Value(Department("good-department")),
             SplitExpected.Unexpected("Department name contains space"),
             SplitExpected.Unexpected("Department name is empty"),
             SplitExpected.Value(Department("another-good-department"))]
  {
    MappedFour("good-department", "bad department", "", "another-good-department", ParseDepartment);
    assert ' ' in "bad department";
    assert ' ' !in "good-department" && ' ' !in "another-good-department";
  }

  /** The branches of the parsed fields. */
  lemma ForkedDepartments()
    ensures SplitExpected.Values([SplitExpected.Value(Department("good-department")),
                                  SplitExpected.Unexpected("Department name contains space"),
                                  SplitExpected.Unexpected("Department name is empty"),
                                  SplitExpected.Value(Department("another-good-department"))])
         == [Department("good-department"), Department("another-good-department")]
    ensures SplitExpected.Errors([SplitExpected.Value(Department("good-department")),
                                  SplitExpected.Unexpected("Department name contains space"),
                                  SplitExpected.Unexpected("Department name is empty"),
                                  SplitExpected.Value(Department("another-good-department"))])
         == ["Department name contains space", "Department name is empty"]
  {
    var a: SplitExpected.Expected<Department, string> := SplitExpected.Value(Department("good-department"));
    var b: SplitExpected.Expected<Department, string> := SplitExpected.Unexpected("Department name contains space");
    var c: SplitExpected.Expected<Department, string> := SplitExpected.Unexpected("Department name is empty");
    var d: SplitExpected.Expected<Department, string> := SplitExpected.Value(Department("another-good-department"));
    BranchStep(d, []);
    BranchStep(c, [d]);
    assert [c] + [d] == [c, d];
    BranchStep(b, [c, d]);
    assert [b] + [c, d] == [b, c, d];
    BranchStep(a, [b, c, d]);
    assert [a] + [b, c, d] == [a, b, c, d];
  }

  /** Two strings written with a delimiter: each followed by it. */
  lemma WrittenTwo(x: string, y: string, delimiter: char)
    requires delimiter != '\0'
    ensures Write.WrittenText([x, y], (e: string) => e, delimiter) == x + [delimiter] + y + [delimiter]
  {
    var id := (e: string) => e;
    assert Write.Separator(delimiter) == [delimiter];
    assert [y][1..] == [];
    assert Write.WrittenText([y], id, delimiter) == y + [delimiter];
    assert [x, y][1..] == [y];
    assert Write.WrittenText([x, y], id, delimiter) == x + [delimiter] + Write.WrittenText([y], id, delimiter);
  }

  /** The error branch written with `'.'`. */
  lemma WrittenErrors()
    ensures Write.WrittenText(["Department name contains space", "Department name is empty"], (e: string) => e, '.')
         == "Department name contains space.Department name is empty."
  {
    WrittenTwo("Department name contains space", "Department name is empty", '.');
  }

  /** `Split("|") | Transform(ParseDepartment) | SplitExpected(ParseDepartment)` over one
      file, with the error branch written with `'.'`: each branch keeps its own items in
      upstream order. */
  lemma ParseAndFork()
    ensures SplitExpected.Values(Transform.Mapped(
              SplitSpec.SplitAll(["good-department|bad department||another-good-department"], "|"), ParseDepartment))
         == [Department("good-department"), Department("another-good-department")]
    ensures Write.WrittenText(SplitExpected.Errors(Transform.Mapped(
              SplitSpec.SplitAll(["good-department|bad department||another-good-department"], "|"), ParseDepartment)),
              (e: string) => e, '.')
         == "Department name contains space.Department name is empty."
  {
    SplitDepartments();
    ParsedDepartments();
    ForkedDepartments();
    WrittenErrors();
  }
}
