/** String operations the protocol hook relies on, with the semantics of the
    JavaScript built-ins it calls: `split("\n")` and `join("\n")` on lines,
    `indexOf` on a literal, and case-insensitive regular-expression literals
    whose patterns are ASCII. Without the `u` flag, the `i` flag compares
    characters after upper-casing them, and no character at 128 or above
    is ever upper-cased to an ASCII one; so for an ASCII pattern the match
    is exactly the ASCII case folding below. */
module Strings {

  datatype Option<+T> = None | Some(value: T)

  /** Lower-cases an ASCII letter and leaves every other character alone. */
  function LowerAscii(c: char): (d: char)
    ensures 'A' <= c <= 'Z' ==> 'a' <= d <= 'z' && d as int == c as int + 32
    ensures !('A' <= c <= 'Z') ==> d == c
  {
    if 'A' <= c <= 'Z' then (c as int + 32) as char else c
  }

  /** A line character matches a pattern character that is not an ASCII
      capital exactly when it is that character or, for a letter, its
      capital: the `i` comparison for an ASCII pattern. */
  lemma FoldMatchIff(c: char, p: char)
    requires !('A' <= p <= 'Z')
    ensures LowerAscii(c) == p <==> c == p || ('a' <= p <= 'z' && c as int == p as int - 32)
  {
  }

  /** `s` holds `pat` at position `p`, ignoring the case of ASCII letters;
      `pat` is written in lower case. */
  predicate MatchesAt(s: string, p: int, pat: string)
  {
    0 <= p && p + |pat| <= |s| &&
    forall k :: 0 <= k < |pat| ==> LowerAscii(s[p + k]) == pat[k]
  }

  /** The leftmost position at or after `from` where `pat` matches
      case-insensitively: what a regular-expression search finds. */
  function FindFrom(s: string, pat: string, from: nat): (r: Option<nat>)
    ensures r.Some? ==> from <= r.value && MatchesAt(s, r.value, pat)
    ensures forall q :: from <= q && (r.None? || q < r.value) ==> !MatchesAt(s, q, pat)
    decreases |s| - from
  {
    if from + |pat| > |s| then None
    else if MatchesAt(s, from, pat) then Some(from)
    else FindFrom(s, pat, from + 1)
  }

  /** `s.match(/pat/i)` succeeds. */
  predicate Contains(s: string, pat: string)
  {
    FindFrom(s, pat, 0).Some?
  }

  lemma ContainsIff(s: string, pat: string)
    ensures Contains(s, pat) <==> exists q :: MatchesAt(s, q, pat)
  {
    if Contains(s, pat) {
      assert MatchesAt(s, FindFrom(s, pat, 0).value, pat);
    }
  }

  /** `s.indexOf(sub) > -1`: an exact, case-sensitive occurrence. */
  predicate HasSubstring(s: string, sub: string)
  {
    exists i | 0 <= i <= |s| - |sub| :: SubstringAt(s, i, sub)
  }

  predicate SubstringAt(s: string, i: int, sub: string)
  {
    0 <= i <= |s| - |sub| && s[i..i + |sub|] == sub
  }

  /** A text holds exactly what was put into it, wherever it was put. */
  lemma SubstringOfConcat(a: string, sub: string, b: string)
    ensures HasSubstring(a + sub + b, sub)
  {
    var s := a + sub + b;
    assert s[|a|..|a| + |sub|] == sub;
    assert SubstringAt(s, |a|, sub);
  }

  /** `s.split("\n")`: the pieces between newlines, always at least one. */
  function Split(s: string): (lines: seq<string>)
    ensures |lines| >= 1
    ensures forall i :: 0 <= i < |lines| ==> '\n' !in lines[i]
  {
    if s == [] then [""]
    else
      var rest := Split(s[1..]);
      if s[0] == '\n' then [""] + rest
      else [[s[0]] + rest[0]] + rest[1..]
  }

  /** `lines.join("\n")`: the first line, then a newline when more follow. */
  function Join(lines: seq<string>): (r: string)
    ensures |lines| >= 1 ==> |lines[0]| <= |r| && r[..|lines[0]|] == lines[0]
    ensures |lines| >= 2 ==> |lines[0]| < |r| && r[|lines[0]|] == '\n'
  {
    if |lines| == 0 then ""
    else if |lines| == 1 then lines[0]
    else lines[0] + "\n" + Join(lines[1..])
  }

  /** Joining the pieces of a split gives back the original text. */
  lemma {:induction false} JoinOfSplit(s: string)
    ensures Join(Split(s)) == s
  {
    if s != [] {
      var rest := Split(s[1..]);
      JoinOfSplit(s[1..]);
      if s[0] == '\n' {
        assert [""] + rest == [""] + rest[0..];
        assert ([""] + rest)[1..] == rest;
        assert Join([""] + rest) == "" + "\n" + Join(rest);
      } else if |rest| == 1 {
        assert Join([[s[0]] + rest[0]] + rest[1..]) == [s[0]] + rest[0];
        assert s == [s[0]] + s[1..];
      } else {
        var first := [s[0]] + rest[0];
        assert ([first] + rest[1..])[1..] == rest[1..];
        assert Join([first] + rest[1..]) == first + "\n" + Join(rest[1..]);
        assert Join(rest) == rest[0] + "\n" + Join(rest[1..]);
        assert s == [s[0]] + s[1..];
      }
    }
  }

  lemma {:induction false} SplitWithoutNewline(a: string)
    requires '\n' !in a
    ensures Split(a) == [a]
  {
    if a != [] {
      assert '\n' !in a[1..] by {
        forall k | 0 <= k < |a[1..]| ensures a[1..][k] != '\n' { assert a[1..][k] == a[k + 1]; }
      }
      SplitWithoutNewline(a[1..]);
      assert [a[0]] + a[1..] == a;
    }
  }

  lemma {:induction false} SplitAfterLine(a: string, b: string)
    requires '\n' !in a
    ensures Split(a + "\n" + b) == [a] + Split(b)
  {
    var s := a + "\n" + b;
    if a == [] {
      assert s[0] == '\n' && s[1..] == b;
    } else {
      assert '\n' !in a[1..] by {
        forall k | 0 <= k < |a[1..]| ensures a[1..][k] != '\n' { assert a[1..][k] == a[k + 1]; }
      }
      assert s[0] == a[0] && s[1..] == a[1..] + "\n" + b;
      SplitAfterLine(a[1..], b);
      assert [a[0]] + a[1..] == a;
    }
  }

  /** Splitting a join of newline-free lines gives back those lines: the
      line structure survives a round trip through text. */
  lemma {:induction false} SplitOfJoin(lines: seq<string>)
    requires |lines| >= 1
    requires forall i :: 0 <= i < |lines| ==> '\n' !in lines[i]
    ensures Split(Join(lines)) == lines
  {
    if |lines| == 1 {
      SplitWithoutNewline(lines[0]);
    } else {
      SplitOfJoin(lines[1..]);
      SplitAfterLine(lines[0], Join(lines[1..]));
      assert [lines[0]] + lines[1..] == lines;
    }
  }

  /** The lines of `a + "\n" + b` are `a` followed by the lines of `b`, so a
      property of `a` and of every line of `b` holds of every line. */
  lemma FirstLineThenRest(a: string, b: string)
    requires '\n' !in a
    ensures |Split(a + "\n" + b)| == |Split(b)| + 1
    ensures Split(a + "\n" + b)[0] == a
    ensures forall j :: 1 <= j < |Split(a + "\n" + b)| ==> Split(a + "\n" + b)[j] == Split(b)[j - 1]
  {
    SplitAfterLine(a, b);
  }

  /** Replacing one line before a join changes the text's length by exactly
      the difference between the two lines. */
  lemma {:induction false} JoinLengthUpdate(lines: seq<string>, k: nat, line: string)
    requires k < |lines|
    ensures |Join(lines[k := line])| == |Join(lines)| + |line| - |lines[k]|
  {
    if |lines| >= 2 {
      var t := lines[k := line];
      assert t[1..] == if k == 0 then lines[1..] else lines[1..][k - 1 := line];
      if k > 0 {
        JoinLengthUpdate(lines[1..], k - 1, line);
      }
    }
  }

  /** Every ASCII letter of `s` in lower case. */
  function LowerString(s: string): (t: string)
    ensures |t| == |s| && forall i :: 0 <= i < |s| ==> t[i] == LowerAscii(s[i])
  {
    seq(|s|, i requires 0 <= i < |s| => LowerAscii(s[i]))
  }

  predicate EndsWith(s: string, suffix: string)
  {
    |suffix| <= |s| && s[|s| - |suffix|..] == suffix
  }

  /** A case-insensitive match anchored at the end is a suffix test on the
      lower-cased text. */
  lemma MatchesAtEndIff(s: string, pat: string)
    requires |pat| <= |s|
    ensures MatchesAt(s, |s| - |pat|, pat) <==> EndsWith(LowerString(s), pat)
  {
    var t := LowerString(s);
    if EndsWith(t, pat) {
      forall k | 0 <= k < |pat| ensures LowerAscii(s[|s| - |pat| + k]) == pat[k] {
        assert t[|s| - |pat|..][k] == pat[k];
      }
    }
    if MatchesAt(s, |s| - |pat|, pat) {
      assert t[|s| - |pat|..] == pat;
    }
  }
}
