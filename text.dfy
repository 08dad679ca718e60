/**
 * Python's `str.replace(old, new)` (every occurrence, scanned left to right,
 * matches never overlapping) and `str.lower()` on ASCII text, with the facts
 * about them that the templating and the command rewrite rely on.
 *
 * `Replace` agrees with `rep.join(s.split(pat))`, a Python identity
 * (`ReplaceIsJoinOfSplit`). The pieces of the split contain no `pat`
 * (`SplitPiecesFree`) and rejoin to `s` (`JoinSplitRoundTrip`).
 */
module Text {

  /** `pat` occurs at the very start of `s`. */
  predicate StartsWith(s: string, pat: string) {
    |pat| <= |s| && s[..|pat|] == pat
  }

  /** `pat` occurs somewhere in `s` (Python's `pat in s`). */
  predicate Contains(s: string, pat: string) {
    exists i | 0 <= i <= |s| - |pat| :: StartsWith(s[i..], pat)
  }

  /** `s.replace(pat, rep)`: leftmost occurrences first, never overlapping. */
  function Replace(s: string, pat: string, rep: string): string
    requires pat != []
    decreases |s|
  {
    if s == [] then []
    else if StartsWith(s, pat) then rep + Replace(s[|pat|..], pat, rep)
    else [s[0]] + Replace(s[1..], pat, rep)
  }

  /** `s.count(pat)`: the number of occurrences `Replace` rewrites. */
  function Count(s: string, pat: string): nat
    requires pat != []
    decreases |s|
  {
    if s == [] then 0
    else if StartsWith(s, pat) then 1 + Count(s[|pat|..], pat)
    else Count(s[1..], pat)
  }

  /** `s.split(pat)`: the pieces between the occurrences `Replace` rewrites. */
  function Split(s: string, pat: string): (pieces: seq<string>)
    requires pat != []
    ensures |pieces| == Count(s, pat) + 1
    decreases |s|
  {
    if s == [] then [[]]
    else if StartsWith(s, pat) then [[]] + Split(s[|pat|..], pat)
    else
      var rest := Split(s[1..], pat);
      [[s[0]] + rest[0]] + rest[1..]
  }

  /** `sep.join(pieces)`. */
  function Join(pieces: seq<string>, sep: string): string
    requires pieces != []
  {
    if |pieces| == 1 then pieces[0] else pieces[0] + sep + Join(pieces[1..], sep)
  }

  /** `c.lower()` for one character: ASCII capitals only. */
  function LowerChar(c: char): char {
    if 'A' <= c <= 'Z' then (c as int - 'A' as int + 'a' as int) as char else c
  }

  /** `s.lower()` on ASCII text. */
  function Lower(s: string): string {
    seq(|s|, i requires 0 <= i < |s| => LowerChar(s[i]))
  }

  // ---------------------------------------------------------------------
  // Occurrences

  /** A match at the front fixes the characters of `s` one by one. */
  lemma StartsWithAt(s: string, pat: string, j: nat)
    requires j < |pat|
    ensures StartsWith(s, pat) ==> j < |s| && s[j] == pat[j]
  {
    if StartsWith(s, pat) {
      assert s[..|pat|][j] == pat[j];
    }
  }

  /** An occurrence in the tail is an occurrence in the whole text. */
  lemma ContainsTail(s: string, pat: string)
    requires s != []
    ensures Contains(s[1..], pat) ==> Contains(s, pat)
  {
    if Contains(s[1..], pat) {
      var i :| 0 <= i <= |s[1..]| - |pat| && StartsWith(s[1..][i..], pat);
      assert s[1..][i..] == s[i + 1..];
    }
  }

  /** Without a match at the front, every occurrence lies in the tail. */
  lemma ContainsNotAtStart(s: string, pat: string)
    requires s != []
    ensures !StartsWith(s, pat) && Contains(s, pat) ==> Contains(s[1..], pat)
  {
    assert s[0..] == s;
    if !StartsWith(s, pat) && Contains(s, pat) {
      var i :| 0 <= i <= |s| - |pat| && StartsWith(s[i..], pat);
      assert s[1..][i - 1..] == s[i..];
    }
  }

  /** A pattern occurs exactly when `Count` is positive. */
  lemma {:induction false} CountPositiveIff(s: string, pat: string)
    requires pat != []
    ensures Count(s, pat) > 0 <==> Contains(s, pat)
    decreases |s|
  {
    if s != [] {
      assert s[0..] == s;
      if !StartsWith(s, pat) {
        CountPositiveIff(s[1..], pat);
        ContainsNotAtStart(s, pat);
        ContainsTail(s, pat);
      }
    }
  }

  // ---------------------------------------------------------------------
  // What Replace does

  /** Replacing the whole text, when it is the pattern, gives the replacement. */
  lemma ReplaceWhole(pat: string, rep: string)
    requires pat != []
    ensures Replace(pat, pat, rep) == rep
  {
    assert StartsWith(pat, pat);
    assert pat[|pat|..] == [];
  }

  /** A pattern only fits in a text at least as long, and then must match it. */
  lemma ContainsShort(s: string, pat: string)
    requires |s| <= |pat| && s != pat
    ensures !Contains(s, pat)
  {
    assert forall i | 0 <= i <= |s| - |pat| :: i == 0 && s[i..] == s && s[..|pat|] == s;
  }

  /** Text in which the pattern does not occur comes back unchanged. */
  lemma {:induction false} ReplaceAbsent(s: string, pat: string, rep: string)
    requires pat != [] && !Contains(s, pat)
    ensures Replace(s, pat, rep) == s
    decreases |s|
  {
    if s != [] {
      assert s[0..] == s;
      ContainsTail(s, pat);
      ReplaceAbsent(s[1..], pat, rep);
    }
  }

  /** Each of the `Count` occurrences changes the length by `|rep| - |pat|`. */
  lemma {:induction false} ReplaceLength(s: string, pat: string, rep: string)
    requires pat != []
    ensures |Replace(s, pat, rep)| == |s| + Count(s, pat) * (|rep| - |pat|)
    decreases |s|
  {
    if s == [] {
    } else if StartsWith(s, pat) {
      var rest, d := s[|pat|..], |rep| - |pat|;
      ReplaceLength(rest, pat, rep);
      assert Replace(s, pat, rep) == rep + Replace(rest, pat, rep);
      assert Count(s, pat) == 1 + Count(rest, pat);
      assert (1 + Count(rest, pat)) * d == d + Count(rest, pat) * d;
    } else {
      ReplaceLength(s[1..], pat, rep);
      assert Replace(s, pat, rep) == [s[0]] + Replace(s[1..], pat, rep);
    }
  }

  /**
   * Replacing with something longer changes the text exactly when the
   * pattern occurs in it (both directions).
   */
  lemma ReplaceLongerChangesIff(s: string, pat: string, rep: string)
    requires pat != [] && |rep| > |pat|
    ensures Replace(s, pat, rep) == s <==> !Contains(s, pat)
  {
    var n, d := Count(s, pat), |rep| - |pat|;
    ReplaceLength(s, pat, rep);
    CountPositiveIff(s, pat);
    if n == 0 {
      ReplaceAbsent(s, pat, rep);
    } else {
      MulAtLeast(n, d);
      assert |Replace(s, pat, rep)| > |s|;
    }
  }

  lemma MulAtLeast(n: nat, d: nat)
    requires n >= 1
    ensures n * d >= d
  {
  }

  /** Replacing a pattern by itself is the identity. */
  lemma {:induction false} ReplaceSelf(s: string, pat: string)
    requires pat != []
    ensures Replace(s, pat, pat) == s
    decreases |s|
  {
    if s == [] {
    } else if StartsWith(s, pat) {
      ReplaceSelf(s[|pat|..], pat);
      assert s == pat + s[|pat|..];
    } else {
      ReplaceSelf(s[1..], pat);
      assert s == [s[0]] + s[1..];
    }
  }

  /**
   * Text before a character that is not in the pattern is rewritten
   * independently of the text after it: no occurrence spans the character.
   */
  lemma {:induction false} ReplaceSeparator(a: string, c: char, b: string, pat: string, rep: string)
    requires pat != [] && c !in pat
    ensures Replace(a + [c] + b, pat, rep) == Replace(a, pat, rep) + [c] + Replace(b, pat, rep)
    decreases |a|
  {
    var s := a + [c] + b;
    assert s[|a|] == c;
    if |a| < |pat| {
      StartsWithAt(s, pat, |a|);
      assert pat[|a|] in pat;
    }
    if a == [] {
      assert s[1..] == b;
    } else if StartsWith(s, pat) {
      assert a[..|pat|] == s[..|pat|];
      assert s[|pat|..] == a[|pat|..] + [c] + b;
      ReplaceSeparator(a[|pat|..], c, b, pat, rep);
    } else {
      if |pat| <= |a| {
        assert a[..|pat|] == s[..|pat|];
      }
      assert s[1..] == a[1..] + [c] + b;
      ReplaceSeparator(a[1..], c, b, pat, rep);
    }
  }

  /** A prefix free of the pattern's first character is copied as is. */
  lemma {:induction false} ReplaceFreePrefix(a: string, b: string, pat: string, rep: string)
    requires pat != [] && pat[0] !in a
    ensures Replace(a + b, pat, rep) == a + Replace(b, pat, rep)
    decreases |a|
  {
    if a == [] {
      assert a + b == b;
    } else {
      var s := a + b;
      StartsWithAt(s, pat, 0);
      assert s[0] == a[0];
      assert s[1..] == a[1..] + b;
      ReplaceFreePrefix(a[1..], b, pat, rep);
    }
  }

  /**
   * A prefix that starts with the pattern's first character but continues
   * with something other than its second character, and is otherwise free
   * of the first character, is copied as is.
   */
  lemma ReplaceLeadPrefix(a: string, b: string, pat: string, rep: string)
    requires |pat| >= 2 && |a| >= 2 && a[1] != pat[1] && pat[0] !in a[1..]
    ensures Replace(a + b, pat, rep) == a + Replace(b, pat, rep)
  {
    var s := a + b;
    StartsWithAt(s, pat, 1);
    assert s[1] == a[1];
    assert s[1..] == a[1..] + b;
    ReplaceFreePrefix(a[1..], b, pat, rep);
    assert a == [a[0]] + a[1..];
  }

  // ---------------------------------------------------------------------
  // Replace against its reference definition

  lemma JoinCons(x: char, pieces: seq<string>, sep: string)
    requires pieces != []
    ensures Join([[x] + pieces[0]] + pieces[1..], sep) == [x] + Join(pieces, sep)
  {
    var p := [[x] + pieces[0]] + pieces[1..];
    assert p[1..] == pieces[1..];
  }

  /** `s.replace(pat, rep) == rep.join(s.split(pat))`. */
  lemma {:induction false} ReplaceIsJoinOfSplit(s: string, pat: string, rep: string)
    requires pat != []
    ensures Replace(s, pat, rep) == Join(Split(s, pat), rep)
    decreases |s|
  {
    if s == [] {
    } else if StartsWith(s, pat) {
      ReplaceIsJoinOfSplit(s[|pat|..], pat, rep);
      var p := [[]] + Split(s[|pat|..], pat);
      assert p[1..] == Split(s[|pat|..], pat);
    } else {
      ReplaceIsJoinOfSplit(s[1..], pat, rep);
      JoinCons(s[0], Split(s[1..], pat), rep);
    }
  }

  /** Splitting on a pattern and joining with it gives the text back. */
  lemma JoinSplitRoundTrip(s: string, pat: string)
    requires pat != []
    ensures Join(Split(s, pat), pat) == s
  {
    ReplaceIsJoinOfSplit(s, pat, pat);
    ReplaceSelf(s, pat);
  }

  /** The first piece of a split is a prefix of the text. */
  lemma {:induction false} SplitFirstIsPrefix(s: string, pat: string)
    requires pat != []
    ensures |Split(s, pat)[0]| <= |s| && s[..|Split(s, pat)[0]|] == Split(s, pat)[0]
    decreases |s|
  {
    if s != [] && !StartsWith(s, pat) {
      SplitFirstIsPrefix(s[1..], pat);
    }
  }

  /** No piece of a split contains the pattern it was split on. */
  lemma {:induction false} SplitPiecesFree(s: string, pat: string, k: nat)
    requires pat != [] && k < |Split(s, pat)|
    ensures !Contains(Split(s, pat)[k], pat)
    decreases |s|
  {
    if s == [] {
    } else if StartsWith(s, pat) {
      if k > 0 {
        SplitPiecesFree(s[|pat|..], pat, k - 1);
      }
    } else {
      var rest := Split(s[1..], pat);
      if k > 0 {
        SplitPiecesFree(s[1..], pat, k);
      } else {
        var first := [s[0]] + rest[0];
        SplitPiecesFree(s[1..], pat, 0);
        SplitFirstIsPrefix(s[1..], pat);
        assert first == s[..|first|];
        if |pat| <= |first| {
          assert first[..|pat|] == s[..|pat|];
        }
        assert first[1..] == rest[0];
        ContainsNotAtStart(first, pat);
      }
    }
  }
}
