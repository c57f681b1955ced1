/** Worked examples of `Pascalize`, evaluated through the pointwise description `Capitalized`
    or word by word.

    The examples are built in pieces because the verifier's cost grows quickly when it
    evaluates a conversion on a long string literal. Each literal fact (a concatenation,
    a clean cut, a single word) gets its own small lemma. A `requires s == "..."` lemma
    combines these facts, treating the slices of `s` as variables, and the example itself
    only instantiates it. */
module PascalCaseExamples {
  import opened Chars
  import opened PascalCase

  lemma NoSeparators(s: string)
    requires s == "already" || s == "fooBar"
    ensures forall k :: 0 <= k < |s| ==> !IsWordSeparator(s[k])
  {
  }

  /** A word without separators only has its first letter uppercased. */
  lemma WordPascal(s: string, r: string)
    requires |s| > 0 && forall k :: 0 <= k < |s| ==> !IsWordSeparator(s[k])
    requires r == [ToUpper(s[0])] + s[1..]
    ensures Pascalize(s) == r
  {
    PascalizeOfWord(s);
  }

  /* The start of the input counts as a word start. */

  lemma PascalStartExample()
    ensures Pascalize("already") == "Already"
  {
    NoSeparators("already");
    WordPascal("already", "Already");
  }

  lemma FooBarPascal()
    ensures Pascalize("fooBar") == "FooBar"
  {
    NoSeparators("fooBar");
    WordPascal("fooBar", "FooBar");
  }

  /* Separators that no letter follows stay, and a digit after a separator is not a word
     start. */

  lemma PascalKeptCapitalized()
    ensures Capitalized("a_1", 0) == "A_1"
    ensures Capitalized("a_", 0) == "A_"
  {
  }

  lemma PascalKeepsSeparatorsExample()
    ensures Pascalize("a_1") == "A_1"
    ensures Pascalize("a_") == "A_"
  {
    PascalizeIsCapitalized("a_1");
    PascalizeIsCapitalized("a_");
    PascalKeptCapitalized();
  }

  /* "foo_bar-baz qux": each separator before a letter goes and the letter is uppercased;
     the input is converted word by word. */

  lemma PascalWords()
    ensures Capitalized("foo", 0) == "Foo"
    ensures Capitalized("_bar", 0) == "Bar"
    ensures Capitalized("-baz", 0) == "Baz"
    ensures Capitalized(" qux", 0) == "Qux"
  {
  }

  lemma PascalPieces()
    ensures "Baz" + "Qux" == "BazQux"
    ensures "Bar" + "BazQux" == "BarBazQux"
    ensures "Foo" + "BarBazQux" == "FooBarBazQux"
  {
  }

  lemma CapitalizedJoin(a: string, b: string, ca: string, cb: string)
    requires IsCleanCut(a, b) && Capitalized(a, 0) == ca && Capitalized(b, 0) == cb
    ensures Capitalized(a + b, 0) == ca + cb
  {
    CapitalizedSplitsAtCut(a, b);
  }

  lemma PascalCuts(a: string, b: string, c: string, d: string)
    requires a == "foo" && b == "_bar" && c == "-baz" && d == " qux"
    ensures IsCleanCut(c, d) && IsCleanCut(b, c + d) && IsCleanCut(a, b + (c + d))
  {
  }

  lemma PascalJoin(a: string, b: string, c: string, d: string)
    requires Capitalized(a, 0) == "Foo" && Capitalized(b, 0) == "Bar"
    requires Capitalized(c, 0) == "Baz" && Capitalized(d, 0) == "Qux"
    requires IsCleanCut(c, d) && IsCleanCut(b, c + d) && IsCleanCut(a, b + (c + d))
    ensures Capitalized(a + (b + (c + d)), 0) == "FooBarBazQux"
  {
    PascalPieces();
    CapitalizedJoin(c, d, "Baz", "Qux");
    CapitalizedJoin(b, c + d, "Bar", "BazQux");
    CapitalizedJoin(a, b + (c + d), "Foo", "BarBazQux");
  }

  lemma PascalByWords(s: string)
    requires s == "foo_bar-baz qux"
    ensures Pascalize(s) == "FooBarBazQux"
  {
    var a, b, c, d := s[..3], s[3..7], s[7..11], s[11..];
    assert a == "foo" && b == "_bar" && c == "-baz" && d == " qux";
    assert s == a + (b + (c + d));
    PascalWords();
    PascalCuts(a, b, c, d);
    PascalizeIsCapitalized(s);
    PascalJoin(a, b, c, d);
  }

  lemma PascalExample()
    ensures Pascalize("foo_bar-baz qux") == "FooBarBazQux"
  {
    PascalByWords("foo_bar-baz qux");
  }
}
