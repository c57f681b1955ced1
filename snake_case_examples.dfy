/** Worked examples of `Underscore` and `ToUpperSnakeCase`.

    Each rewriting pass is evaluated on its own, through the pointwise description the
    scan is proved equal to, so that no example has to unfold a whole scan.

    Inputs with joiners are built in pieces because the verifier's cost grows quickly when
    it evaluates a conversion on a long string literal. The words and the concatenations
    of literals each get their own small lemma. A `requires s == "..."` lemma combines
    them through `UnderscoreSplitsAtJoiner`, treating the slices of `s` as variables, and
    the example itself only instantiates it. */
module SnakeCaseExamples {
  import opened Chars
  import opened SnakeCase

  /* How the four passes of `Underscore` compose, and the passes that change nothing. */

  lemma UnderscoreFromPasses(s: string, a: string, h: string, d: string, l: string)
    requires SplitAcronyms(s) == a && SplitHumps(a) == h
    requires ReplaceDashesAndSpaces(h) == d && ToLowerString(d) == l
    ensures Underscore(s) == l
  {
  }

  lemma NoAcronymBreaks(s: string)
    requires forall k :: 0 <= k < |s| ==> !IsBreak(AcronymEnd, s, k)
    ensures SplitAcronyms(s) == s
  {
    SplitAcronymsInsertsBreaks(s);
    InsertBreaksCopies(AcronymEnd, s, 0, |s|);
  }

  lemma NoHumpBreaks(s: string)
    requires forall k :: 0 <= k < |s| ==> !IsBreak(Hump, s, k)
    ensures SplitHumps(s) == s
  {
    SplitHumpsInsertsBreaks(s);
    InsertBreaksCopies(Hump, s, 0, |s|);
  }

  lemma DashesReplacedTo(s: string, u: string)
    requires |s| == |u|
    requires forall k :: 0 <= k < |s| ==> u[k] == if IsDashOrSpace(s[k]) then '_' else s[k]
    ensures ReplaceDashesAndSpaces(s) == u
  {
  }

  lemma LowersTo(s: string, u: string)
    requires |s| == |u| && forall k :: 0 <= k < |s| ==> ToLower(s[k]) == u[k]
    ensures ToLowerString(s) == u
  {
  }

  /* Inputs that contain joiners are converted word by word. */

  lemma SnakeWordIs(w: string, u: string)
    requires w == u && IsSnake(u)
    ensures Underscore(w) == u
  {
    UnderscoreFixedPoints(w);
  }

  lemma UnderscoreJoin(a: string, c: char, b: string, ua: string, ub: string)
    requires IsJoiner(c) && Underscore(a) == ua && Underscore(b) == ub
    ensures Underscore(a + [c] + b) == ua + "_" + ub
  {
    UnderscoreSplitsAtJoiner(a, c, b);
  }

  /* "HTTPServer": the acronym keeps its last capital for the next word. */

  lemma AcronymBreaks()
    ensures InsertBreaks(AcronymEnd, "HTTPServer", 0) == "HTTP_Server"
  {
  }

  lemma AcronymSplit()
    ensures SplitAcronyms("HTTPServer") == "HTTP_Server"
  {
    SplitAcronymsInsertsBreaks("HTTPServer");
    AcronymBreaks();
  }

  lemma AcronymHumps()
    ensures SplitHumps("HTTP_Server") == "HTTP_Server"
  {
    var t := "HTTP_Server";
    assert forall k :: 0 <= k < |t| ==> !IsBreak(Hump, t, k);
    NoHumpBreaks(t);
  }

  lemma AcronymDashes()
    ensures ReplaceDashesAndSpaces("HTTP_Server") == "HTTP_Server"
  {
    var t := "HTTP_Server";
    assert forall k :: 0 <= k < |t| ==> t[k] == if IsDashOrSpace(t[k]) then '_' else t[k];
    DashesReplacedTo(t, t);
  }

  lemma AcronymLower()
    ensures ToLowerString("HTTP_Server") == "http_server"
  {
    var t, u := "HTTP_Server", "http_server";
    assert forall k :: 0 <= k < |t| ==> ToLower(t[k]) == u[k];
    LowersTo(t, u);
  }

  lemma AcronymExample()
    ensures Underscore("HTTPServer") == "http_server"
  {
    AcronymSplit();
    AcronymHumps();
    AcronymDashes();
    AcronymLower();
    UnderscoreFromPasses("HTTPServer", "HTTP_Server", "HTTP_Server", "HTTP_Server", "http_server");
  }

  /* "fooBar" in snake case and in upper snake case. */

  lemma FooBarAcronyms()
    ensures SplitAcronyms("fooBar") == "fooBar"
  {
    var t := "fooBar";
    assert forall k :: 0 <= k < |t| ==> !IsBreak(AcronymEnd, t, k);
    NoAcronymBreaks(t);
  }

  lemma FooBarBreaks()
    ensures InsertBreaks(Hump, "fooBar", 0) == "foo_Bar"
  {
  }

  lemma FooBarHumps()
    ensures SplitHumps("fooBar") == "foo_Bar"
  {
    SplitHumpsInsertsBreaks("fooBar");
    FooBarBreaks();
  }

  lemma FooBarDashes()
    ensures ReplaceDashesAndSpaces("foo_Bar") == "foo_Bar"
  {
    var t := "foo_Bar";
    assert forall k :: 0 <= k < |t| ==> t[k] == if IsDashOrSpace(t[k]) then '_' else t[k];
    DashesReplacedTo(t, t);
  }

  lemma FooBarLower()
    ensures ToLowerString("foo_Bar") == "foo_bar"
  {
    var t, u := "foo_Bar", "foo_bar";
    assert forall k :: 0 <= k < |t| ==> ToLower(t[k]) == u[k];
    LowersTo(t, u);
  }

  lemma FooBarSnake()
    ensures Underscore("fooBar") == "foo_bar"
  {
    FooBarAcronyms();
    FooBarHumps();
    FooBarDashes();
    FooBarLower();
    UnderscoreFromPasses("fooBar", "fooBar", "foo_Bar", "foo_Bar", "foo_bar");
  }

  lemma UpperSnakeFromSnake(s: string, u: string, v: string)
    requires s != [] && Underscore(s) == u
    requires |v| == |u| && v[0] == ToUpper(u[0]) && v[1..] == u[1..]
    ensures ToUpperSnakeCase(s) == v
  {
  }

  lemma FooBarUpperSnake()
    ensures ToUpperSnakeCase("fooBar") == "Foo_bar"
  {
    FooBarSnake();
    UpperSnakeFromSnake("fooBar", "foo_bar", "Foo_bar");
  }

  /* "fooBar baz-qux": a space and a dash each become one underscore, and each word is
     converted on its own. */

  lemma CamelPieces()
    ensures "baz" + "_" + "qux" == "baz_qux"
    ensures "foo_bar" + "_" + "baz_qux" == "foo_bar_baz_qux"
  {
  }

  lemma CamelSnakeWords()
    ensures IsSnake("baz") && IsSnake("qux")
  {
  }

  lemma CamelJoin(a: string, b: string, c: string)
    requires Underscore(a) == "foo_bar" && Underscore(b) == "baz" && Underscore(c) == "qux"
    ensures Underscore(a + [' '] + (b + ['-'] + c)) == "foo_bar_baz_qux"
  {
    CamelPieces();
    UnderscoreJoin(b, '-', c, "baz", "qux");
    UnderscoreJoin(a, ' ', b + ['-'] + c, "foo_bar", "baz_qux");
  }

  lemma CamelByWords(s: string)
    requires s == "fooBar baz-qux"
    ensures Underscore(s) == "foo_bar_baz_qux"
  {
    var a, b, c := s[..6], s[7..10], s[11..];
    assert a == "fooBar" && b == "baz" && c == "qux";
    assert s == a + [' '] + (b + ['-'] + c);
    FooBarSnake();
    CamelSnakeWords();
    SnakeWordIs(b, "baz");
    SnakeWordIs(c, "qux");
    CamelJoin(a, b, c);
  }

  lemma CamelExample()
    ensures Underscore("fooBar baz-qux") == "foo_bar_baz_qux"
  {
    CamelByWords("fooBar baz-qux");
  }

  /* "a \tb": every dash or whitespace character becomes its own underscore; runs are
     not collapsed. */

  lemma SpaceRunPieces()
    ensures "" + "_" + "b" == "_b"
    ensures "a" + "_" + "_b" == "a__b"
  {
  }

  lemma SpaceRunJoin(a: string, b: string)
    requires Underscore(a) == "a" && Underscore(b) == "b"
    ensures Underscore(a + [' '] + ([] + ['\t'] + b)) == "a__b"
  {
    SpaceRunPieces();
    SnakeWordIs([], "");
    UnderscoreJoin([], '\t', b, "", "b");
    UnderscoreJoin(a, ' ', [] + ['\t'] + b, "a", "_b");
  }

  lemma SpaceRunByWords(s: string)
    requires s == "a \tb"
    ensures Underscore(s) == "a__b"
  {
    var a, b := s[..1], s[3..];
    assert a == "a" && b == "b";
    assert s == a + [' '] + ([] + ['\t'] + b);
    SnakeWordIs(a, "a");
    SnakeWordIs(b, "b");
    SpaceRunJoin(a, b);
  }

  lemma SpaceRunExample()
    ensures Underscore("a \tb") == "a__b"
  {
    SpaceRunByWords("a \tb");
  }
}
