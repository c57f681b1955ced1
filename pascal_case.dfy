/** `Pascalize` (PascalCase) of the ConvertCase plugin: one `Regex.Replace` with the
    pattern `(?:[ _-]+|^)([a-zA-Z])`, whose evaluator returns group 1 uppercased.

    As for snake_case, the pass is given as the regular-expression engine runs it and as a
    pointwise description, and a lemma shows the two agree. */
module PascalCase {
  import opened Chars
  import opened Wrappers

  /** `[ _-]`: the characters the pattern treats as word separators (a space, not every
      whitespace character). */
  predicate IsWordSeparator(c: char) {
    c == ' ' || c == '_' || c == '-'
  }

  /** The end of the run of word separators that starts at `s[i]`. */
  function SeparatorRunEnd(s: seq<char>, i: nat): (j: nat)
    requires i <= |s|
    ensures i <= j <= |s|
    ensures forall k :: i <= k < j ==> IsWordSeparator(s[k])
    ensures j < |s| ==> !IsWordSeparator(s[j])
    decreases |s| - i
  {
    if i == |s| || !IsWordSeparator(s[i]) then i else SeparatorRunEnd(s, i + 1)
  }

  /** Backtracking of the greedy `[ _-]+` in a match attempt at `s[i]`: the run `s[i..j]`
      gives back one separator at a time, from `j` down to `i + 1`, until an ASCII letter
      follows it. The result is the index of the captured letter. */
  function BacktrackSeparators(s: seq<char>, i: nat, j: nat): (r: Option<nat>)
    requires i <= |s| && i <= j <= SeparatorRunEnd(s, i)
    ensures r.Some? ==> i < r.value <= j && r.value < |s| && IsAsciiLetter(s[r.value])
    ensures r.None? ==> forall k :: i < k <= j && k < |s| ==> !IsAsciiLetter(s[k])
    decreases j
  {
    if j == i then None
    else if j < |s| && IsAsciiLetter(s[j]) then Some(j)
    else BacktrackSeparators(s, i, j - 1)
  }

  /** The match attempt at `s[i]`: the index of the captured letter, if it matches. The
      first alternative, a run of separators, is tried before `^`, which only matches at
      the start of the input. */
  function WordStartMatch(s: seq<char>, i: nat): (r: Option<nat>)
    requires i <= |s|
    ensures r.Some? ==> i <= r.value < |s| && IsAsciiLetter(s[r.value])
    ensures r.Some? ==> forall k :: i <= k < r.value ==> IsWordSeparator(s[k])
  {
    match BacktrackSeparators(s, i, SeparatorRunEnd(s, i))
    case Some(j) => Some(j)
    case None => if i == 0 && i < |s| && IsAsciiLetter(s[i]) then Some(i) else None
  }

  /** The replacement run from `s[i]` on, as the regular-expression engine runs it: a match
      is replaced by its letter uppercased and scanning resumes after it; where no match
      starts, the character is copied. */
  function PascalizeFrom(s: seq<char>, i: nat): (r: seq<char>)
    requires i <= |s|
    ensures |r| <= |s| - i
    ensures |r| == 0 <==> i == |s|
    decreases |s| - i
  {
    if i == |s| then []
    else match WordStartMatch(s, i)
      case Some(j) => [ToUpper(s[j])] + PascalizeFrom(s, j + 1)
      case None => [s[i]] + PascalizeFrom(s, i + 1)
  }

  /** PascalCase: `Regex.Replace(input, "(?:[ _-]+|^)([a-zA-Z])", m => m.Groups[1].Value.ToUpper())`.
      It never makes the input longer, and only the empty string gives the empty string. */
  function Pascalize(s: seq<char>): (r: seq<char>)
    ensures |r| <= |s|
    ensures r == [] <==> s == []
  {
    PascalizeFrom(s, 0)
  }

  // ---------------------------------------------------------------------------------
  // Pointwise description
  // ---------------------------------------------------------------------------------

  /** From `s[i]` on, a (possibly empty) run of separators is followed by an ASCII letter. */
  predicate LetterFollows(s: seq<char>, i: nat)
    requires i <= |s|
    decreases |s| - i
  {
    i < |s| && (IsAsciiLetter(s[i]) || (IsWordSeparator(s[i]) && LetterFollows(s, i + 1)))
  }

  /** `s[i]` is deleted: it belongs to a run of separators that an ASCII letter follows. */
  predicate IsDropped(s: seq<char>, i: nat)
    requires i < |s|
  {
    IsWordSeparator(s[i]) && LetterFollows(s, i + 1)
  }

  /** `s[i]` is uppercased: an ASCII letter at the start of the input or after a separator. */
  predicate IsWordStart(s: seq<char>, i: nat)
    requires i < |s|
  {
    IsAsciiLetter(s[i]) && (i == 0 || IsWordSeparator(s[i - 1]))
  }

  /** `s[i..]` with the dropped separators deleted, the word starts uppercased and every
      other character copied unchanged, in order. */
  function Capitalized(s: seq<char>, i: nat): (r: seq<char>)
    requires i <= |s|
    decreases |s| - i
  {
    if i == |s| then []
    else if IsDropped(s, i) then Capitalized(s, i + 1)
    else [if IsWordStart(s, i) then ToUpper(s[i]) else s[i]] + Capitalized(s, i + 1)
  }

  /** A run of separators that ends in a letter is dropped in full. */
  lemma {:induction false} DropSeparatorRun(s: seq<char>, i: nat, j: nat)
    requires i <= j < |s| && IsAsciiLetter(s[j])
    requires forall k :: i <= k < j ==> IsWordSeparator(s[k])
    ensures LetterFollows(s, i)
    ensures Capitalized(s, i) == Capitalized(s, j)
    decreases j - i
  {
    if i < j {
      DropSeparatorRun(s, i + 1, j);
    }
  }

  /** `LetterFollows` looks past the run of separators at `s[i]` to the character after it. */
  lemma {:induction false} LetterFollowsRun(s: seq<char>, i: nat)
    requires i <= |s|
    ensures var j := SeparatorRunEnd(s, i);
      LetterFollows(s, i) <==> j < |s| && IsAsciiLetter(s[j])
    decreases |s| - i
  {
    if i < |s| && IsWordSeparator(s[i]) {
      LetterFollowsRun(s, i + 1);
    }
  }

  /** One step of the scan. */
  lemma PascalizeFromStep(s: seq<char>, i: nat)
    requires i < |s|
    ensures WordStartMatch(s, i).Some? ==> var j := WordStartMatch(s, i).value;
      PascalizeFrom(s, i) == [ToUpper(s[j])] + PascalizeFrom(s, j + 1)
    ensures WordStartMatch(s, i).None? ==> PascalizeFrom(s, i) == [s[i]] + PascalizeFrom(s, i + 1)
  {
  }

  /** Where a match starts, it spans exactly the dropped separators and the letter that
      follows them, and that letter is a word start. */
  lemma {:induction false} MatchIsWordStart(s: seq<char>, i: nat)
    requires i < |s| && WordStartMatch(s, i).Some?
    ensures var j := WordStartMatch(s, i).value;
      Capitalized(s, i) == [ToUpper(s[j])] + Capitalized(s, j + 1)
  {
    var j := WordStartMatch(s, i).value;
    DropSeparatorRun(s, i, j);
    assert !IsDropped(s, j);
    assert IsWordStart(s, j);
  }

  /** Where no match starts, the character is neither dropped nor a word start, provided
      scanning can resume there. */
  lemma {:induction false} NoMatchCopies(s: seq<char>, i: nat)
    requires i < |s| && WordStartMatch(s, i).None?
    requires i == 0 || !IsWordSeparator(s[i - 1]) || !LetterFollows(s, i)
    ensures Capitalized(s, i) == [s[i]] + Capitalized(s, i + 1)
    ensures !IsWordSeparator(s[i]) || !LetterFollows(s, i + 1)
  {
    LetterFollowsRun(s, i + 1);
    LetterFollowsRun(s, i);
    assert !IsDropped(s, i);
    assert !IsWordStart(s, i);
  }

  /** The scan and the pointwise description agree from every place where scanning can
      resume: the start of the input, or a place not inside a run of separators that a
      letter follows. */
  lemma {:induction false} PascalizeFromCapitalized(s: seq<char>, i: nat)
    requires i <= |s|
    requires i == 0 || !IsWordSeparator(s[i - 1]) || !LetterFollows(s, i)
    ensures PascalizeFrom(s, i) == Capitalized(s, i)
    decreases |s| - i, 1
  {
    if i < |s| {
      if WordStartMatch(s, i).Some? {
        MatchAgrees(s, i);
      } else {
        CopyAgrees(s, i);
      }
    }
  }

  /** The case of a match at `s[i]`. */
  lemma {:induction false} MatchAgrees(s: seq<char>, i: nat)
    requires i < |s| && WordStartMatch(s, i).Some?
    ensures PascalizeFrom(s, i) == Capitalized(s, i)
    decreases |s| - i, 0
  {
    var j := WordStartMatch(s, i).value;
    MatchIsWordStart(s, i);
    PascalizeFromStep(s, i);
    assert !IsWordSeparator(s[j]);
    PascalizeFromCapitalized(s, j + 1);
  }

  /** The case of no match at `s[i]`, where scanning can resume. */
  lemma {:induction false} CopyAgrees(s: seq<char>, i: nat)
    requires i < |s| && WordStartMatch(s, i).None?
    requires i == 0 || !IsWordSeparator(s[i - 1]) || !LetterFollows(s, i)
    ensures PascalizeFrom(s, i) == Capitalized(s, i)
    decreases |s| - i, 0
  {
    NoMatchCopies(s, i);
    PascalizeFromStep(s, i);
    PascalizeFromCapitalized(s, i + 1);
  }

  /** `Pascalize` deletes every run of spaces, underscores and hyphens that an ASCII letter
      follows, uppercases that letter and a letter at the very start, and leaves every
      other character unchanged and in order. */
  lemma PascalizeIsCapitalized(s: seq<char>)
    ensures Pascalize(s) == Capitalized(s, 0)
  {
    PascalizeFromCapitalized(s, 0);
  }

  // ---------------------------------------------------------------------------------
  // Fixed points and idempotence
  // ---------------------------------------------------------------------------------

  /** Already PascalCase in the sense of `Pascalize`: no separator is directly followed by
      an ASCII letter, and the first character is not a lowercase letter. */
  predicate IsPascal(u: seq<char>) {
    NoSeparatorBeforeLetter(u) && (|u| > 0 ==> !IsLower(u[0]))
  }

  /** No separator in `u` is directly followed by an ASCII letter. */
  predicate NoSeparatorBeforeLetter(u: seq<char>) {
    forall i :: 0 <= i < |u| - 1 ==> !(IsWordSeparator(u[i]) && IsAsciiLetter(u[i + 1]))
  }

  /** In a string where no separator comes right before a letter, no run of separators
      ends in a letter. */
  lemma {:induction false} NoLetterAfterSeparators(u: seq<char>, i: nat)
    requires i < |u| && IsWordSeparator(u[i])
    requires NoSeparatorBeforeLetter(u)
    ensures !LetterFollows(u, i + 1)
    decreases |u| - i
  {
    if i + 1 < |u| && IsWordSeparator(u[i + 1]) {
      NoLetterAfterSeparators(u, i + 1);
    }
  }

  lemma {:induction false} CapitalizedOfPascal(u: seq<char>, i: nat)
    requires i <= |u| && IsPascal(u)
    ensures Capitalized(u, i) == u[i..]
    decreases |u| - i
  {
    if i < |u| {
      if IsWordSeparator(u[i]) {
        NoLetterAfterSeparators(u, i);
      }
      assert IsWordStart(u, i) ==> ToUpper(u[i]) == u[i];
      CapitalizedOfPascal(u, i + 1);
      assert u[i..] == [u[i]] + u[i + 1..];
    }
  }

  /** What follows a kept separator in the output is not a letter. */
  lemma {:induction false} NoLetterAfterKeptSeparator(s: seq<char>, i: nat)
    requires i <= |s|
    requires i > 0 && IsWordSeparator(s[i - 1]) && !LetterFollows(s, i)
    ensures |Capitalized(s, i)| > 0 ==> !IsAsciiLetter(Capitalized(s, i)[0])
  {
    if i < |s| && IsWordSeparator(s[i]) {
      assert !IsDropped(s, i);
    }
  }

  lemma {:induction false} CapitalizedNoSeparatorBeforeLetter(s: seq<char>, i: nat)
    requires i <= |s|
    ensures NoSeparatorBeforeLetter(Capitalized(s, i))
    decreases |s| - i
  {
    if i < |s| {
      CapitalizedNoSeparatorBeforeLetter(s, i + 1);
      if !IsDropped(s, i) {
        var c := if IsWordStart(s, i) then ToUpper(s[i]) else s[i];
        var rest := Capitalized(s, i + 1);
        var u := [c] + rest;
        assert Capitalized(s, i) == u;
        if IsWordSeparator(c) {
          assert IsWordSeparator(s[i]) && !IsWordStart(s, i);
          NoLetterAfterKeptSeparator(s, i + 1);
        }
        forall k | 0 <= k < |u| - 1 ensures !(IsWordSeparator(u[k]) && IsAsciiLetter(u[k + 1])) {
          assert u[k + 1] == rest[k];
          if k > 0 {
            assert u[k] == rest[k - 1];
          }
        }
        assert NoSeparatorBeforeLetter(u);
      } else {
        assert Capitalized(s, i) == Capitalized(s, i + 1);
      }
    }
  }

  /** The first character of the output is never a lowercase letter. */
  lemma {:induction false} CapitalizedFirstNotLower(s: seq<char>, i: nat)
    requires i <= |s|
    requires i == 0 || IsDropped(s, i - 1)
    ensures |Capitalized(s, i)| > 0 ==> !IsLower(Capitalized(s, i)[0])
    decreases |s| - i
  {
    if i < |s| && IsDropped(s, i) {
      CapitalizedFirstNotLower(s, i + 1);
    }
  }

  /** The PascalCase strings are exactly those `Pascalize` leaves unchanged. */
  lemma PascalizeFixedPoints(u: seq<char>)
    ensures Pascalize(u) == u <==> IsPascal(u)
  {
    PascalizeIsCapitalized(u);
    CapitalizedNoSeparatorBeforeLetter(u, 0);
    CapitalizedFirstNotLower(u, 0);
    if IsPascal(u) {
      CapitalizedOfPascal(u, 0);
      assert u[0..] == u;
    }
  }

  /** `Pascalize` is idempotent. */
  lemma PascalizeIdempotent(s: seq<char>)
    ensures Pascalize(Pascalize(s)) == Pascalize(s)
  {
    PascalizeIsCapitalized(s);
    CapitalizedNoSeparatorBeforeLetter(s, 0);
    CapitalizedFirstNotLower(s, 0);
    PascalizeFixedPoints(Pascalize(s));
  }

  // ---------------------------------------------------------------------------------
  // Word by word
  // ---------------------------------------------------------------------------------

  /** Where `a + b` is cut between a character that is not a separator and one that is,
      neither side can see across the cut. */
  predicate IsCleanCut(a: seq<char>, b: seq<char>) {
    |a| > 0 && !IsWordSeparator(a[|a| - 1]) && (|b| > 0 ==> IsWordSeparator(b[0]))
  }

  lemma {:induction false} LetterFollowsBeforeCut(a: seq<char>, b: seq<char>, j: nat)
    requires IsCleanCut(a, b) && j < |a|
    ensures LetterFollows(a + b, j) == LetterFollows(a, j)
    decreases |a| - j
  {
    assert (a + b)[j] == a[j];
    if IsWordSeparator(a[j]) {
      LetterFollowsBeforeCut(a, b, j + 1);
    }
  }

  lemma {:induction false} LetterFollowsAfterCut(a: seq<char>, b: seq<char>, m: nat)
    requires m <= |b|
    ensures LetterFollows(a + b, |a| + m) == LetterFollows(b, m)
    decreases |b| - m
  {
    if m < |b| {
      assert (a + b)[|a| + m] == b[m];
      LetterFollowsAfterCut(a, b, m + 1);
    }
  }

  lemma {:induction false} CapitalizedAfterCut(a: seq<char>, b: seq<char>, m: nat)
    requires IsCleanCut(a, b) && m <= |b|
    ensures Capitalized(a + b, |a| + m) == Capitalized(b, m)
    decreases |b| - m
  {
    if m < |b| {
      var s := a + b;
      assert s[|a| + m] == b[m];
      assert s[|a| + m - 1] == if m == 0 then a[|a| - 1] else b[m - 1];
      LetterFollowsAfterCut(a, b, m + 1);
      assert IsDropped(s, |a| + m) == IsDropped(b, m);
      assert IsWordStart(s, |a| + m) == IsWordStart(b, m);
      CapitalizedAfterCut(a, b, m + 1);
    }
  }

  lemma {:induction false} CapitalizedBeforeCut(a: seq<char>, b: seq<char>, k: nat)
    requires IsCleanCut(a, b) && k <= |a|
    ensures Capitalized(a + b, k) == Capitalized(a, k) + Capitalized(a + b, |a|)
    decreases |a| - k
  {
    if k < |a| {
      var s := a + b;
      assert s[k] == a[k] && (k > 0 ==> s[k - 1] == a[k - 1]);
      if IsWordSeparator(a[k]) {
        LetterFollowsBeforeCut(a, b, k + 1);
      }
      assert IsDropped(s, k) == IsDropped(a, k);
      assert IsWordStart(s, k) == IsWordStart(a, k);
      CapitalizedBeforeCut(a, b, k + 1);
    }
  }

  lemma CapitalizedSplitsAtCut(a: seq<char>, b: seq<char>)
    requires IsCleanCut(a, b)
    ensures Capitalized(a + b, 0) == Capitalized(a, 0) + Capitalized(b, 0)
  {
    CapitalizedBeforeCut(a, b, 0);
    CapitalizedAfterCut(a, b, 0);
  }

  /** PascalCase works word by word: cutting the input just before a separator that follows
      some other character, the two parts are converted as if each stood alone. */
  lemma PascalizeSplitsAtCut(a: seq<char>, b: seq<char>)
    requires IsCleanCut(a, b)
    ensures Pascalize(a + b) == Pascalize(a) + Pascalize(b)
  {
    PascalizeIsCapitalized(a + b);
    PascalizeIsCapitalized(a);
    PascalizeIsCapitalized(b);
    CapitalizedSplitsAtCut(a, b);
  }

  lemma {:induction false} CapitalizedCopiesWord(s: seq<char>, i: nat)
    requires 1 <= i <= |s| && forall k :: 0 <= k < |s| ==> !IsWordSeparator(s[k])
    ensures Capitalized(s, i) == s[i..]
    decreases |s| - i
  {
    if i < |s| {
      assert !IsDropped(s, i) && !IsWordStart(s, i);
      CapitalizedCopiesWord(s, i + 1);
      assert s[i..] == [s[i]] + s[i + 1..];
    } else {
      assert s[i..] == [];
    }
  }

  /** A single word, with no separator in it, keeps every character but the first, which
      is uppercased. */
  lemma PascalizeOfWord(s: seq<char>)
    requires |s| > 0 && forall k :: 0 <= k < |s| ==> !IsWordSeparator(s[k])
    ensures Pascalize(s) == [ToUpper(s[0])] + s[1..]
  {
    PascalizeIsCapitalized(s);
    CapitalizedCopiesWord(s, 1);
    assert !IsDropped(s, 0);
  }
}
