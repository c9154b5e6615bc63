/** The text operations the engine borrows from Rust's standard library:
    `str::replace` (leftmost, non-overlapping, every occurrence) and
    `str::lines().count()`, with the facts about them the engine relies on. */
module Strings {

  /** `s` begins with `p`. */
  predicate StartsWith(s: string, p: string) {
    |p| <= |s| && s[..|p|] == p
  }

  /** `s` ends with `p`. */
  predicate EndsWith(s: string, p: string) {
    |p| <= |s| && s[|s| - |p|..] == p
  }

  /** `s` is non-empty and its last character is `c` (`str::ends_with(char)`). */
  predicate EndsWithChar(s: string, c: char) {
    |s| > 0 && s[|s| - 1] == c
  }

  /** `p` occurs in `s` starting at index `i`. */
  predicate OccursAt(s: string, p: string, i: int) {
    0 <= i && i + |p| <= |s| && s[i..i + |p|] == p
  }

  /** `p` is a substring of `s`. */
  predicate Contains(s: string, p: string) {
    exists i | 0 <= i <= |s| - |p| :: OccursAt(s, p, i)
  }

  /** Rust's `str::replace(s, pat, rep)` for a non-empty pattern: scanning from
      the left, every occurrence of `pat` that does not overlap an earlier
      replaced one is replaced by `rep`. */
  function ReplaceAll(s: string, pat: string, rep: string): (r: string)
    requires |pat| > 0
    ensures |s| < |pat| ==> r == s
    ensures |rep| == |pat| ==> |r| == |s|
    decreases |s|
  {
    if |s| == 0 then ""
    else if StartsWith(s, pat) then rep + ReplaceAll(s[|pat|..], pat, rep)
    else [s[0]] + ReplaceAll(s[1..], pat, rep)
  }

  /** Number of lines `str::lines` yields: one per '\n', plus one for a last
      line that is not terminated; the empty string has no lines. */
  function LineCount(s: string): nat {
    multiset(s)['\n'] + (if |s| > 0 && s[|s| - 1] != '\n' then 1 else 0)
  }

  /** Occurrence of `p` in a non-empty `s` either starts at its head or lies in its tail. */
  lemma ContainsStep(s: string, p: string)
    requires |s| > 0
    ensures Contains(s, p) <==> StartsWith(s, p) || Contains(s[1..], p)
  {
    if Contains(s, p) {
      var i :| 0 <= i <= |s| - |p| && OccursAt(s, p, i);
      if i > 0 {
        assert s[1..][i - 1..i - 1 + |p|] == s[i..i + |p|];
        assert OccursAt(s[1..], p, i - 1);
      }
    }
    if StartsWith(s, p) {
      assert OccursAt(s, p, 0);
    }
    if Contains(s[1..], p) {
      var j :| 0 <= j <= |s[1..]| - |p| && OccursAt(s[1..], p, j);
      assert s[1..][j..j + |p|] == s[j + 1..j + 1 + |p|];
      assert OccursAt(s, p, j + 1);
    }
  }

  /** Text without an occurrence of the pattern comes back unchanged. */
  lemma {:induction false} ReplaceAllNoMatch(s: string, pat: string, rep: string)
    requires |pat| > 0
    requires !Contains(s, pat)
    ensures ReplaceAll(s, pat, rep) == s
    decreases |s|
  {
    if |s| > 0 {
      ContainsStep(s, pat);
      ReplaceAllNoMatch(s[1..], pat, rep);
      assert s == [s[0]] + s[1..];
    }
  }

  /** Replacing a pattern by itself changes nothing. */
  lemma {:induction false} ReplaceAllBySelf(s: string, pat: string)
    requires |pat| > 0
    ensures ReplaceAll(s, pat, pat) == s
    decreases |s|
  {
    if |s| > 0 {
      if StartsWith(s, pat) {
        ReplaceAllBySelf(s[|pat|..], pat);
        assert s == s[..|pat|] + s[|pat|..];
      } else {
        ReplaceAllBySelf(s[1..], pat);
        assert s == [s[0]] + s[1..];
      }
    }
  }

  /** Replacement keeps the length when pattern and replacement are equally long,
      and otherwise moves it strictly in the direction of the replacement as soon
      as there is an occurrence. */
  lemma {:induction false} ReplaceAllLength(s: string, pat: string, rep: string)
    requires |pat| > 0
    ensures |rep| == |pat| ==> |ReplaceAll(s, pat, rep)| == |s|
    ensures |rep| > |pat| ==> |ReplaceAll(s, pat, rep)| >= |s|
    ensures |rep| > |pat| && Contains(s, pat) ==> |ReplaceAll(s, pat, rep)| > |s|
    ensures |rep| < |pat| ==> |ReplaceAll(s, pat, rep)| <= |s|
    ensures |rep| < |pat| && Contains(s, pat) ==> |ReplaceAll(s, pat, rep)| < |s|
    decreases |s|
  {
    if |s| > 0 {
      ContainsStep(s, pat);
      if StartsWith(s, pat) {
        ReplaceAllLength(s[|pat|..], pat, rep);
      } else {
        ReplaceAllLength(s[1..], pat, rep);
      }
    }
  }

  /** An equal-length replacement different from the pattern changes any text
      that holds the pattern. */
  lemma {:induction false} ReplaceAllSameLengthChanges(s: string, pat: string, rep: string)
    requires |pat| > 0 && |rep| == |pat| && rep != pat
    requires Contains(s, pat)
    ensures ReplaceAll(s, pat, rep) != s
    decreases |s|
  {
    ContainsStep(s, pat);
    var r := ReplaceAll(s, pat, rep);
    if StartsWith(s, pat) {
      ReplaceAllLength(s[|pat|..], pat, rep);
      assert r[..|pat|] == rep;
      assert s[..|pat|] == pat;
    } else {
      ReplaceAllSameLengthChanges(s[1..], pat, rep);
      assert r == [s[0]] + ReplaceAll(s[1..], pat, rep);
      assert r[1..] == ReplaceAll(s[1..], pat, rep);
    }
  }

  /** `str::replace` leaves the text unchanged exactly when the pattern does not
      occur in it or the replacement equals the pattern. */
  lemma ReplaceAllUnchanged(s: string, pat: string, rep: string)
    requires |pat| > 0
    ensures ReplaceAll(s, pat, rep) == s <==> !Contains(s, pat) || rep == pat
  {
    if !Contains(s, pat) {
      ReplaceAllNoMatch(s, pat, rep);
    } else if rep == pat {
      ReplaceAllBySelf(s, pat);
    } else if |rep| == |pat| {
      ReplaceAllSameLengthChanges(s, pat, rep);
    } else {
      ReplaceAllLength(s, pat, rep);
    }
  }

  /** No occurrence of `p` in `s` starts before index `n`. */
  predicate NoOccurrenceBefore(s: string, p: string, n: int) {
    forall i :: 0 <= i < n ==> !OccursAt(s, p, i)
  }

  /** Text in which no occurrence of the pattern starts is copied verbatim, even
      when it holds the pattern's characters. */
  lemma {:induction false} ReplaceAllKeepsPrefix(x: string, y: string, pat: string, rep: string)
    requires |pat| > 0 && NoOccurrenceBefore(x + y, pat, |x|)
    ensures ReplaceAll(x + y, pat, rep) == x + ReplaceAll(y, pat, rep)
    decreases |x|
  {
    if |x| > 0 {
      var s := x + y;
      assert !OccursAt(s, pat, 0);
      assert !StartsWith(s, pat);
      assert s[1..] == x[1..] + y;
      forall i | 0 <= i < |x[1..]|
        ensures !OccursAt(x[1..] + y, pat, i)
      {
        assert !OccursAt(s, pat, i + 1);
        if i + |pat| <= |s[1..]| {
          assert s[1..][i..i + |pat|] == s[i + 1..i + 1 + |pat|];
        }
      }
      ReplaceAllKeepsPrefix(x[1..], y, pat, rep);
    } else {
      assert x + y == y;
    }
  }

  /** An occurrence of `p` at `i` starts with `p`'s first character. */
  lemma OccursAtHead(s: string, p: string, i: int)
    requires |p| > 0 && OccursAt(s, p, i)
    ensures s[i] == p[0]
  {
    assert s[i..i + |p|][0] == s[i];
  }

  /** Text lacking the pattern's first character holds no occurrence of it. */
  lemma NoStartNoOccurrence(x: string, y: string, pat: string)
    requires |pat| > 0 && pat[0] !in x
    ensures NoOccurrenceBefore(x + y, pat, |x|)
  {
    forall i | 0 <= i < |x|
      ensures !OccursAt(x + y, pat, i)
    {
      if OccursAt(x + y, pat, i) {
        OccursAtHead(x + y, pat, i);
      }
    }
  }

  /** Text lacking the pattern's first character does not contain it. */
  lemma NoStartNotContains(s: string, pat: string)
    requires |pat| > 0 && pat[0] !in s
    ensures !Contains(s, pat)
  {
    NoStartNoOccurrence(s, "", pat);
    assert s + "" == s;
  }

  /** A pattern at the head of the text is replaced. */
  lemma ReplaceAllAtHead(y: string, pat: string, rep: string)
    requires |pat| > 0
    ensures ReplaceAll(pat + y, pat, rep) == rep + ReplaceAll(y, pat, rep)
  {
    var s := pat + y;
    assert s[..|pat|] == pat;
    assert s[|pat|..] == y;
  }

  /** Text in which no character could start the pattern is left unchanged. */
  lemma ReplaceAllNoStart(s: string, pat: string, rep: string)
    requires |pat| > 0 && pat[0] !in s
    ensures ReplaceAll(s, pat, rep) == s
  {
    NoStartNoOccurrence(s, "", pat);
    ReplaceAllKeepsPrefix(s, "", pat, rep);
    assert s + "" == s;
  }

  /** A last character that the pattern cannot end with survives replacement. */
  lemma {:induction false} ReplaceAllKeepsLastChar(s: string, pat: string, rep: string, c: char)
    requires |pat| > 0 && pat[|pat| - 1] != c
    requires EndsWithChar(s, c)
    ensures EndsWithChar(ReplaceAll(s, pat, rep), c)
    decreases |s|
  {
    if StartsWith(s, pat) {
      var rest := s[|pat|..];
      assert |rest| > 0;
      assert rest[|rest| - 1] == s[|s| - 1];
      ReplaceAllKeepsLastChar(rest, pat, rep, c);
    } else {
      if |s| == 1 {
        assert ReplaceAll(s, pat, rep) == [s[0]] + ReplaceAll(s[1..], pat, rep);
      } else {
        assert s[1..][|s[1..]| - 1] == s[|s| - 1];
        ReplaceAllKeepsLastChar(s[1..], pat, rep, c);
      }
    }
  }

  /** A character occurring in neither pattern nor replacement occurs as often
      after replacement as before. */
  lemma {:induction false} ReplaceAllKeepsCount(s: string, pat: string, rep: string, c: char)
    requires |pat| > 0 && c !in pat && c !in rep
    ensures multiset(ReplaceAll(s, pat, rep))[c] == multiset(s)[c]
    decreases |s|
  {
    if |s| > 0 {
      if StartsWith(s, pat) {
        ReplaceAllKeepsCount(s[|pat|..], pat, rep, c);
        assert s == s[..|pat|] + s[|pat|..];
        assert multiset(s) == multiset(pat) + multiset(s[|pat|..]);
      } else {
        ReplaceAllKeepsCount(s[1..], pat, rep, c);
        assert s == [s[0]] + s[1..];
      }
    }
  }

  /** A character that does not occur has multiplicity zero. */
  lemma {:induction false} AbsentCount(s: string, c: char)
    requires c !in s
    ensures multiset(s)[c] == 0
    decreases |s|
  {
    if |s| > 0 {
      assert s == [s[0]] + s[1..];
      AbsentCount(s[1..], c);
    }
  }

  /** Text without a newline, then a newline, is one terminated line. */
  lemma TerminatedLine(x: string)
    requires '\n' !in x
    ensures EndsWithChar(x + "\n", '\n') && multiset(x + "\n")['\n'] == 1
  {
    AbsentCount(x, '\n');
    assert multiset(x + "\n") == multiset(x) + multiset("\n");
  }

  /** Lines of a concatenation whose first part is empty or newline-terminated. */
  lemma LineCountAppend(a: string, b: string)
    requires a == "" || EndsWithChar(a, '\n')
    ensures LineCount(a + b) == multiset(a)['\n'] + LineCount(b)
  {
    if |b| == 0 {
      assert a + b == a;
    } else {
      assert (a + b)[|a + b| - 1] == b[|b| - 1];
    }
  }

  /** Two newline-terminated texts: their lines add up and the result is terminated. */
  lemma LineCountConcat(x: string, y: string)
    requires EndsWithChar(x, '\n') && EndsWithChar(y, '\n')
    ensures LineCount(x + y) == LineCount(x) + LineCount(y)
    ensures EndsWithChar(x + y, '\n')
  {
    LineCountAppend(x, y);
    assert (x + y)[|x + y| - 1] == y[|y| - 1];
  }

  /** A prefix of the first part is a prefix of the concatenation; a suffix of
      the second part is a suffix of it. */
  lemma ConcatKeepsEnds(x: string, y: string, p: string, q: string)
    ensures StartsWith(x, p) ==> StartsWith(x + y, p)
    ensures EndsWith(y, q) ==> EndsWith(x + y, q)
  {
    if StartsWith(x, p) {
      assert (x + y)[..|p|] == x[..|p|];
    }
    if EndsWith(y, q) {
      assert (x + y)[|x + y| - |q|..] == y[|y| - |q|..];
    }
  }
}
