/** `Underscore` (snake_case) and `ToUpperSnakeCase` of the ConvertCase plugin.

    `Underscore` is three `Regex.Replace` passes followed by `ToLower`. Passes 1 and 2 are
    each given twice: as the regular-expression engine runs them (leftmost match first,
    scanning resumes after the match, a failed position is copied and skipped), and as an
    independent pointwise description; a lemma shows the two agree. Pass 3 and the
    lowercasing match one character at a time, so they are written once, as a map over the
    characters, and their `ensures` give the pointwise description. */
module SnakeCase {
  import opened Chars
  import opened Wrappers

  // ---------------------------------------------------------------------------------
  // Pass 1: ([\p{Lu}]+)([\p{Lu}][\p{Ll}])  ->  $1_$2
  // ---------------------------------------------------------------------------------

  /** The end of the run of uppercase letters that starts at `s[i]`. */
  function UpperRunEnd(s: seq<char>, i: nat): (j: nat)
    requires i <= |s|
    ensures i <= j <= |s|
    ensures forall k :: i <= k < j ==> IsUpper(s[k])
    ensures j < |s| ==> !IsUpper(s[j])
    decreases |s| - i
  {
    if i == |s| || !IsUpper(s[i]) then i else UpperRunEnd(s, i + 1)
  }

  /** Backtracking of the greedy group `([\p{Lu}]+)` in a match attempt at `s[i]`: the
      group `s[i..k]` gives back one letter at a time, from `k` down to `i + 1`, until an
      uppercase letter followed by a lowercase letter comes after it. The result is where
      group 2 starts. */
  function BacktrackAcronym(s: seq<char>, i: nat, k: nat): (r: Option<nat>)
    requires i <= |s| && i <= k <= UpperRunEnd(s, i)
    ensures r.Some? ==> i < r.value <= k && r.value + 1 < |s|
    ensures r.Some? ==> IsUpper(s[r.value]) && IsLower(s[r.value + 1])
    ensures r.None? ==> forall j :: i < j <= k && j + 1 < |s| ==> !(IsUpper(s[j]) && IsLower(s[j + 1]))
    decreases k
  {
    if k == i then None
    else if k + 1 < |s| && IsUpper(s[k]) && IsLower(s[k + 1]) then Some(k)
    else BacktrackAcronym(s, i, k - 1)
  }

  /** The pass-1 match attempt at `s[i]`: where its group 2 starts, if it matches. */
  function AcronymMatch(s: seq<char>, i: nat): Option<nat>
    requires i <= |s|
  {
    BacktrackAcronym(s, i, UpperRunEnd(s, i))
  }

  /** Pass 1 from `s[i]` on, as the regular-expression engine runs it. A match spans group 1
      (uppercase letters) and group 2 (an uppercase and a lowercase letter); `_` goes
      between them and scanning resumes after the match. */
  function SplitAcronymsFrom(s: seq<char>, i: nat): (r: seq<char>)
    requires i <= |s|
    ensures |r| >= |s| - i
    decreases |s| - i
  {
    if i == |s| then []
    else match AcronymMatch(s, i)
      case Some(k) => s[i..k] + ['_', s[k], s[k + 1]] + SplitAcronymsFrom(s, k + 2)
      case None => [s[i]] + SplitAcronymsFrom(s, i + 1)
  }

  /** Pass 1: `Regex.Replace(input, "([\p{Lu}]+)([\p{Lu}][\p{Ll}])", "$1_$2")`. */
  function SplitAcronyms(s: seq<char>): (r: seq<char>)
    ensures |r| >= |s|
  {
    SplitAcronymsFrom(s, 0)
  }

  // ---------------------------------------------------------------------------------
  // Pass 2: ([\p{Ll}\d])([\p{Lu}])  ->  $1_$2
  // ---------------------------------------------------------------------------------

  /** `[\p{Ll}\d]` */
  predicate IsLowerOrDigit(c: char) {
    IsLower(c) || IsDigit(c)
  }

  /** Pass 2 from `s[i]` on, as the regular-expression engine runs it: a match is a
      lowercase letter or digit followed by an uppercase letter, `_` goes between the two
      and scanning resumes after the match. */
  function SplitHumpsFrom(s: seq<char>, i: nat): (r: seq<char>)
    requires i <= |s|
    ensures |r| >= |s| - i
    decreases |s| - i
  {
    if i == |s| then []
    else if i + 1 < |s| && IsLowerOrDigit(s[i]) && IsUpper(s[i + 1]) then
      [s[i], '_', s[i + 1]] + SplitHumpsFrom(s, i + 2)
    else [s[i]] + SplitHumpsFrom(s, i + 1)
  }

  /** Pass 2: `Regex.Replace(input, "([\p{Ll}\d])([\p{Lu}])", "$1_$2")`. */
  function SplitHumps(s: seq<char>): (r: seq<char>)
    ensures |r| >= |s|
  {
    SplitHumpsFrom(s, 0)
  }

  // ---------------------------------------------------------------------------------
  // Pointwise description of passes 1 and 2
  // ---------------------------------------------------------------------------------

  /** The two kinds of word boundary that passes 1 and 2 mark. */
  datatype Boundary =
    | AcronymEnd  // the last letter of an uppercase run of two or more, before a lowercase letter
    | Hump        // an uppercase letter right after a lowercase letter or a digit

  /** Whether `s[i]` starts a new word in the sense of `b`, so that an underscore belongs
      in front of it. */
  predicate IsBreak(b: Boundary, s: seq<char>, i: nat)
    requires i < |s|
  {
    match b
    case AcronymEnd => 1 <= i && i + 1 < |s| && IsUpper(s[i - 1]) && IsUpper(s[i]) && IsLower(s[i + 1])
    case Hump => 1 <= i && IsLowerOrDigit(s[i - 1]) && IsUpper(s[i])
  }

  /** `s[i..]` with one underscore put in front of every character at a break of kind `b`,
      and no other change. */
  function InsertBreaks(b: Boundary, s: seq<char>, i: nat): (r: seq<char>)
    requires i <= |s|
    decreases |s| - i
  {
    if i == |s| then []
    else if IsBreak(b, s, i) then ['_', s[i]] + InsertBreaks(b, s, i + 1)
    else [s[i]] + InsertBreaks(b, s, i + 1)
  }

  /** Where there is no break, `InsertBreaks` copies the input. */
  lemma {:induction false} InsertBreaksCopies(b: Boundary, s: seq<char>, i: nat, j: nat)
    requires i <= j <= |s|
    requires forall k :: i <= k < j ==> !IsBreak(b, s, k)
    ensures InsertBreaks(b, s, i) == s[i..j] + InsertBreaks(b, s, j)
    decreases j - i
  {
    if i < j {
      assert !IsBreak(b, s, i);
      InsertBreaksCopies(b, s, i + 1, j);
      calc {
        InsertBreaks(b, s, i);
        [s[i]] + InsertBreaks(b, s, i + 1);
        [s[i]] + (s[i + 1..j] + InsertBreaks(b, s, j));
        ([s[i]] + s[i + 1..j]) + InsertBreaks(b, s, j);
        { assert [s[i]] + s[i + 1..j] == s[i..j]; }
        s[i..j] + InsertBreaks(b, s, j);
      }
    } else {
      assert s[i..j] == [];
    }
  }

  /** One pass-1 match at `s[i]` with group 2 at `s[k]`, read pointwise: a break in front of
      `s[k]` and none elsewhere in the matched text or right after it. */
  lemma {:induction false} AcronymMatchIsBreak(s: seq<char>, i: nat, k: nat)
    requires i < |s| && AcronymMatch(s, i) == Some(k)
    ensures k + 2 <= |s|
    ensures InsertBreaks(AcronymEnd, s, i) == s[i..k] + ['_', s[k], s[k + 1]] + InsertBreaks(AcronymEnd, s, k + 2)
    ensures k + 2 < |s| ==> !IsBreak(AcronymEnd, s, k + 2)
  {
    forall j | 0 < j && i <= j < k ensures !IsBreak(AcronymEnd, s, j) {
      assert IsUpper(s[j + 1]);
    }
    InsertBreaksCopies(AcronymEnd, s, i, k);
    assert IsBreak(AcronymEnd, s, k) by {
      assert IsUpper(s[k - 1]);
    }
    assert !IsBreak(AcronymEnd, s, k + 1);
    var rest := InsertBreaks(AcronymEnd, s, k + 2);
    calc {
      InsertBreaks(AcronymEnd, s, i);
      s[i..k] + InsertBreaks(AcronymEnd, s, k);
      s[i..k] + (['_', s[k]] + ([s[k + 1]] + rest));
      { assert ['_', s[k]] + ([s[k + 1]] + rest) == ['_', s[k], s[k + 1]] + rest; }
      s[i..k] + (['_', s[k], s[k + 1]] + rest);
      s[i..k] + ['_', s[k], s[k + 1]] + rest;
    }
  }

  /** Where pass 1 does not match, the next position is not a break either, and the
      character is copied. */
  lemma {:induction false} NoAcronymMatchCopies(s: seq<char>, i: nat)
    requires i < |s| && AcronymMatch(s, i).None?
    requires !IsBreak(AcronymEnd, s, i)
    ensures i + 1 < |s| ==> !IsBreak(AcronymEnd, s, i + 1)
    ensures InsertBreaks(AcronymEnd, s, i) == [s[i]] + InsertBreaks(AcronymEnd, s, i + 1)
  {
    assert i + 2 < |s| && IsUpper(s[i]) && IsUpper(s[i + 1]) ==> UpperRunEnd(s, i) >= i + 2;
  }

  /** One step of the pass-1 scan. */
  lemma SplitAcronymsFromStep(s: seq<char>, i: nat)
    requires i < |s|
    ensures AcronymMatch(s, i).Some? ==> var k := AcronymMatch(s, i).value;
      SplitAcronymsFrom(s, i) == s[i..k] + ['_', s[k], s[k + 1]] + SplitAcronymsFrom(s, k + 2)
    ensures AcronymMatch(s, i).None? ==> SplitAcronymsFrom(s, i) == [s[i]] + SplitAcronymsFrom(s, i + 1)
  {
  }

  /** Pass 1 puts exactly one underscore in front of the last letter of every uppercase run
      of two or more letters that a lowercase letter follows, and changes nothing else;
      this holds from every place where scanning can resume, which is never at a break. */
  lemma {:induction false} SplitAcronymsFromInsertsBreaks(s: seq<char>, i: nat)
    requires i <= |s|
    requires i < |s| ==> !IsBreak(AcronymEnd, s, i)
    ensures SplitAcronymsFrom(s, i) == InsertBreaks(AcronymEnd, s, i)
    decreases |s| - i
  {
    if i < |s| {
      if AcronymMatch(s, i).Some? {
        var k := AcronymMatch(s, i).value;
        AcronymMatchIsBreak(s, i, k);
        SplitAcronymsFromStep(s, i);
        SplitAcronymsFromInsertsBreaks(s, k + 2);
      } else {
        NoAcronymMatchCopies(s, i);
        SplitAcronymsFromStep(s, i);
        SplitAcronymsFromInsertsBreaks(s, i + 1);
      }
    }
  }

  lemma SplitAcronymsInsertsBreaks(s: seq<char>)
    ensures SplitAcronyms(s) == InsertBreaks(AcronymEnd, s, 0)
  {
    SplitAcronymsFromInsertsBreaks(s, 0);
  }

  /** Pass 2 puts exactly one underscore between every lowercase letter or digit and the
      uppercase letter after it (matches cannot overlap, so no such pair is missed), and
      changes nothing else; scanning never resumes at a break. */
  lemma {:induction false} SplitHumpsFromInsertsBreaks(s: seq<char>, i: nat)
    requires i <= |s|
    requires i < |s| ==> !IsBreak(Hump, s, i)
    ensures SplitHumpsFrom(s, i) == InsertBreaks(Hump, s, i)
    decreases |s| - i
  {
    if i < |s| {
      if i + 1 < |s| && IsLowerOrDigit(s[i]) && IsUpper(s[i + 1]) {
        assert i + 2 < |s| ==> !IsBreak(Hump, s, i + 2);
        SplitHumpsFromInsertsBreaks(s, i + 2);
      } else {
        SplitHumpsFromInsertsBreaks(s, i + 1);
      }
    }
  }

  lemma SplitHumpsInsertsBreaks(s: seq<char>)
    ensures SplitHumps(s) == InsertBreaks(Hump, s, 0)
  {
    SplitHumpsFromInsertsBreaks(s, 0);
  }

  // ---------------------------------------------------------------------------------
  // Pass 3: [-\s]  ->  _      and the final ToLower
  // ---------------------------------------------------------------------------------

  /** `[-\s]` */
  predicate IsDashOrSpace(c: char) {
    c == '-' || IsSpace(c)
  }

  /** Pass 3: every hyphen and every whitespace character becomes one underscore; runs are
      not collapsed. */
  function ReplaceDashesAndSpaces(s: seq<char>): (r: seq<char>)
    ensures |r| == |s|
    ensures forall i :: 0 <= i < |s| ==> r[i] == if IsDashOrSpace(s[i]) then '_' else s[i]
  {
    if s == [] then []
    else [if IsDashOrSpace(s[0]) then '_' else s[0]] + ReplaceDashesAndSpaces(s[1..])
  }

  /** `string.ToLower`: every character lowercased, in place. */
  function ToLowerString(s: seq<char>): (r: seq<char>)
    ensures |r| == |s|
    ensures forall i :: 0 <= i < |s| ==> r[i] == ToLower(s[i])
  {
    if s == [] then [] else [ToLower(s[0])] + ToLowerString(s[1..])
  }

  // ---------------------------------------------------------------------------------
  // Underscore and ToUpperSnakeCase
  // ---------------------------------------------------------------------------------

  /** A snake_case string: no uppercase letter, no hyphen, no whitespace. */
  predicate IsSnake(s: seq<char>) {
    forall i :: 0 <= i < |s| ==> !IsUpper(s[i]) && !IsDashOrSpace(s[i])
  }

  /** snake_case: the three passes, then lowercasing. */
  function Underscore(s: seq<char>): (r: seq<char>)
    ensures IsSnake(r)
    ensures |r| >= |s|
    ensures r == [] <==> s == []
  {
    ToLowerString(ReplaceDashesAndSpaces(SplitHumps(SplitAcronyms(s))))
  }

  /** Upper_snake_case: snake_case with its first character uppercased. The source indexes
      the first character, so it needs a non-empty argument. */
  function ToUpperSnakeCase(s: seq<char>): (r: seq<char>)
    requires |s| > 0
    ensures |r| == |Underscore(s)|
    ensures r[0] == ToUpper(Underscore(s)[0])
    ensures r[1..] == Underscore(s)[1..]
  {
    var snake := Underscore(s);
    [ToUpper(snake[0])] + snake[1..]
  }

  // ---------------------------------------------------------------------------------
  // Properties
  // ---------------------------------------------------------------------------------

  /** Without uppercase letters neither pass 1 nor pass 2 finds a break. */
  lemma NoUpperNoBreaks(s: seq<char>)
    requires forall i :: 0 <= i < |s| ==> !IsUpper(s[i])
    ensures SplitAcronyms(s) == s && SplitHumps(s) == s
  {
    SplitAcronymsInsertsBreaks(s);
    InsertBreaksCopies(AcronymEnd, s, 0, |s|);
    SplitHumpsInsertsBreaks(s);
    InsertBreaksCopies(Hump, s, 0, |s|);
  }

  /** Exactly the snake_case strings are left unchanged by `Underscore`. */
  lemma UnderscoreFixedPoints(s: seq<char>)
    ensures Underscore(s) == s <==> IsSnake(s)
  {
    if IsSnake(s) {
      NoUpperNoBreaks(s);
      assert ReplaceDashesAndSpaces(s) == s;
      assert ToLowerString(s) == s;
    }
  }

  /** `Underscore` is idempotent. */
  lemma UnderscoreIdempotent(s: seq<char>)
    ensures Underscore(Underscore(s)) == Underscore(s)
  {
    UnderscoreFixedPoints(Underscore(s));
  }

  /** The characters that snake_case treats as word joiners. */
  predicate IsJoiner(c: char) {
    c == '_' || IsDashOrSpace(c)
  }

  /** `s` without its joiners: its letters, digits and other characters, in order. */
  function Words(s: seq<char>): (r: seq<char>)
    ensures |r| <= |s|
    ensures forall i :: 0 <= i < |r| ==> !IsJoiner(r[i])
  {
    if s == [] then [] else (if IsJoiner(s[0]) then [] else [s[0]]) + Words(s[1..])
  }

  lemma {:induction false} WordsOfConcat(a: seq<char>, b: seq<char>)
    ensures Words(a + b) == Words(a) + Words(b)
    decreases |a|
  {
    if a != [] {
      var head: seq<char> := if IsJoiner(a[0]) then [] else [a[0]];
      assert (a + b)[0] == a[0] && (a + b)[1..] == a[1..] + b;
      calc {
        Words(a + b);
        head + Words(a[1..] + b);
        { WordsOfConcat(a[1..], b); }
        head + (Words(a[1..]) + Words(b));
        (head + Words(a[1..])) + Words(b);
        Words(a) + Words(b);
      }
    } else {
      assert a + b == b;
    }
  }

  lemma {:induction false} WordsOfInsertBreaks(b: Boundary, s: seq<char>, i: nat)
    requires i <= |s|
    ensures Words(InsertBreaks(b, s, i)) == Words(s[i..])
    decreases |s| - i
  {
    if i < |s| {
      var rest := InsertBreaks(b, s, i + 1);
      WordsOfInsertBreaks(b, s, i + 1);
      WordsOfConcat([s[i]], rest);
      if IsBreak(b, s, i) {
        WordsOfConcat(['_', s[i]], rest);
        assert Words(['_', s[i]]) == Words([s[i]]);
      }
      assert s[i..] == [s[i]] + s[i + 1..];
      WordsOfConcat([s[i]], s[i + 1..]);
    } else {
      assert s[i..] == [];
    }
  }

  lemma {:induction false} WordsOfReplace(s: seq<char>)
    ensures Words(ReplaceDashesAndSpaces(s)) == Words(s)
    decreases |s|
  {
    if s != [] {
      WordsOfReplace(s[1..]);
      assert ReplaceDashesAndSpaces(s)[1..] == ReplaceDashesAndSpaces(s[1..]);
    }
  }

  lemma {:induction false} WordsOfLower(s: seq<char>)
    ensures Words(ToLowerString(s)) == ToLowerString(Words(s))
    decreases |s|
  {
    if s != [] {
      WordsOfLower(s[1..]);
      assert ToLowerString(s)[1..] == ToLowerString(s[1..]);
      assert IsJoiner(ToLower(s[0])) == IsJoiner(s[0]);
      if !IsJoiner(s[0]) {
        assert ToLowerString([s[0]] + Words(s[1..])) == [ToLower(s[0])] + ToLowerString(Words(s[1..]));
      }
    }
  }

  /** `Underscore` only adds and rewrites joiners: every other character of the input is
      still there, lowercased and in the same order. So it never loses a letter or digit. */
  lemma UnderscoreKeepsWords(s: seq<char>)
    ensures Words(Underscore(s)) == ToLowerString(Words(s))
  {
    var p1 := SplitAcronyms(s);
    var p2 := SplitHumps(p1);
    SplitAcronymsInsertsBreaks(s);
    WordsOfInsertBreaks(AcronymEnd, s, 0);
    SplitHumpsInsertsBreaks(p1);
    WordsOfInsertBreaks(Hump, p1, 0);
    WordsOfReplace(p2);
    WordsOfLower(ReplaceDashesAndSpaces(p2));
    assert s[0..] == s && p1[0..] == p1;
  }

  /** A character that neither pass 1 nor pass 2 can use as either side of a break: it is
      not a letter of either case and not a digit. Hyphens, whitespace and `_` are such. */
  predicate IsNeutral(c: char) {
    !IsUpper(c) && !IsLower(c) && !IsDigit(c)
  }

  /** Behind a neutral character, breaks are found in `b` as if nothing came before it. */
  lemma {:induction false} InsertBreaksAfterNeutral(bk: Boundary, p: seq<char>, b: seq<char>, m: nat)
    requires |p| > 0 && IsNeutral(p[|p| - 1]) && m <= |b|
    ensures InsertBreaks(bk, p + b, |p| + m) == InsertBreaks(bk, b, m)
    decreases |b| - m
  {
    if m < |b| {
      var s := p + b;
      assert s[|p| + m] == b[m] && s[|p| + m - 1] == if m == 0 then p[|p| - 1] else b[m - 1];
      assert |p| + m + 1 < |s| ==> s[|p| + m + 1] == b[m + 1];
      assert IsBreak(bk, s, |p| + m) == IsBreak(bk, b, m);
      InsertBreaksAfterNeutral(bk, p, b, m + 1);
    }
  }

  /** In front of a neutral character, breaks are found in `a` as if nothing came after it. */
  lemma {:induction false} InsertBreaksBeforeNeutral(bk: Boundary, a: seq<char>, t: seq<char>, k: nat)
    requires |t| > 0 && IsNeutral(t[0]) && k <= |a|
    ensures InsertBreaks(bk, a + t, k) == InsertBreaks(bk, a, k) + InsertBreaks(bk, a + t, |a|)
    decreases |a| - k
  {
    if k < |a| {
      var s := a + t;
      assert s[k] == a[k] && (k > 0 ==> s[k - 1] == a[k - 1]);
      assert s[k + 1] == if k + 1 < |a| then a[k + 1] else t[0];
      assert IsBreak(bk, s, k) == IsBreak(bk, a, k);
      InsertBreaksBeforeNeutral(bk, a, t, k + 1);
    }
  }

  /** Passes 1 and 2 treat the two sides of a neutral character independently. */
  lemma InsertBreaksSplitsAtNeutral(bk: Boundary, a: seq<char>, c: char, b: seq<char>)
    requires IsNeutral(c)
    ensures InsertBreaks(bk, a + [c] + b, 0) == InsertBreaks(bk, a, 0) + [c] + InsertBreaks(bk, b, 0)
  {
    var s := a + [c] + b;
    assert s == a + ([c] + b);
    InsertBreaksBeforeNeutral(bk, a, [c] + b, 0);
    assert s[|a|] == c;
    InsertBreaksAfterNeutral(bk, a + [c], b, 0);
  }

  lemma ReplaceDistributes(a: seq<char>, b: seq<char>)
    ensures ReplaceDashesAndSpaces(a + b) == ReplaceDashesAndSpaces(a) + ReplaceDashesAndSpaces(b)
  {
    var ra, rb := ReplaceDashesAndSpaces(a), ReplaceDashesAndSpaces(b);
    var l, r := ReplaceDashesAndSpaces(a + b), ra + rb;
    forall i | 0 <= i < |l| ensures l[i] == r[i] {
      if i < |a| {
        assert (a + b)[i] == a[i] && r[i] == ra[i];
      } else {
        assert (a + b)[i] == b[i - |a|] && r[i] == rb[i - |a|];
      }
    }
  }

  lemma LowerDistributes(a: seq<char>, b: seq<char>)
    ensures ToLowerString(a + b) == ToLowerString(a) + ToLowerString(b)
  {
    var la, lb := ToLowerString(a), ToLowerString(b);
    var l, r := ToLowerString(a + b), la + lb;
    forall i | 0 <= i < |l| ensures l[i] == r[i] {
      if i < |a| {
        assert (a + b)[i] == a[i] && r[i] == la[i];
      } else {
        assert (a + b)[i] == b[i - |a|] && r[i] == lb[i - |a|];
      }
    }
  }

  /** Passes 1 and 2 together split at a neutral character. */
  lemma BreakPassesSplitAtNeutral(a: seq<char>, c: char, b: seq<char>)
    requires IsNeutral(c)
    ensures SplitHumps(SplitAcronyms(a + [c] + b))
         == SplitHumps(SplitAcronyms(a)) + [c] + SplitHumps(SplitAcronyms(b))
  {
    SplitAcronymsInsertsBreaks(a + [c] + b);
    SplitAcronymsInsertsBreaks(a);
    SplitAcronymsInsertsBreaks(b);
    InsertBreaksSplitsAtNeutral(AcronymEnd, a, c, b);
    var a1, b1 := SplitAcronyms(a), SplitAcronyms(b);
    SplitHumpsInsertsBreaks(a1 + [c] + b1);
    SplitHumpsInsertsBreaks(a1);
    SplitHumpsInsertsBreaks(b1);
    InsertBreaksSplitsAtNeutral(Hump, a1, c, b1);
  }

  /** Pass 3 and lowering together turn a joiner into one underscore, and act on each side
      independently. */
  lemma RewritePassesSplitAtJoiner(a: seq<char>, c: char, b: seq<char>)
    requires IsJoiner(c)
    ensures ToLowerString(ReplaceDashesAndSpaces(a + [c] + b))
         == ToLowerString(ReplaceDashesAndSpaces(a)) + "_" + ToLowerString(ReplaceDashesAndSpaces(b))
  {
    ReplaceDistributes(a + [c], b);
    ReplaceDistributes(a, [c]);
    var a3, b3 := ReplaceDashesAndSpaces(a), ReplaceDashesAndSpaces(b);
    assert ReplaceDashesAndSpaces([c]) == "_";
    LowerDistributes(a3 + "_", b3);
    LowerDistributes(a3, "_");
    assert ToLowerString("_") == "_";
  }

  /** snake_case works word by word: where the input has a hyphen, a whitespace character or
      an underscore, the output has one underscore, and the text on each side is converted
      as if it stood alone. */
  lemma UnderscoreSplitsAtJoiner(a: seq<char>, c: char, b: seq<char>)
    requires IsJoiner(c)
    ensures Underscore(a + [c] + b) == Underscore(a) + "_" + Underscore(b)
  {
    BreakPassesSplitAtNeutral(a, c, b);
    RewritePassesSplitAtJoiner(SplitHumps(SplitAcronyms(a)), c, SplitHumps(SplitAcronyms(b)));
  }

  /** Lowercasing Upper_snake_case gives snake_case back. */
  lemma UpperSnakeLowersToSnake(s: seq<char>)
    requires |s| > 0
    ensures ToLowerString(ToUpperSnakeCase(s)) == Underscore(s)
    ensures IsUpper(ToUpperSnakeCase(s)[0]) <==> IsLower(Underscore(s)[0])
  {
    var snake, upper := Underscore(s), ToUpperSnakeCase(s);
    LowerUndoesUpper(snake[0]);
    forall i | 0 <= i < |upper| ensures ToLowerString(upper)[i] == snake[i] {
      if i > 0 {
        assert upper[i] == upper[1..][i - 1];
      }
    }
  }
}
