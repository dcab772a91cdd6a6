/**
 * util.ts: the all-asterisk test and the wildcard matcher that
 * `convertStringToPattern` compiles to a regular expression, plus the
 * `\uXXXX` unescaping used before matching in actions.ts.
 *
 * The regular expression is `^` + pattern + `$` with `?` rewritten to `.` and
 * `*` to `.*?`, compiled with the `i` flag. `Matches` is its meaning for a
 * pattern whose other characters are ASCII and free of regular-expression
 * syntax (`SafePattern`): `?` is one character, `*` any run of characters,
 * neither of them a line terminator (the regular-expression `.` does not
 * match those), every other character matches itself ignoring ASCII case,
 * and the whole text must be consumed.
 */
module Wildcard {
  import opened Text

  /** `allAsterisksPattern`, /^\*+$/: one or more `*` and nothing else */
  predicate AllAsterisks(s: string) {
    |s| > 0 && forall i :: 0 <= i < |s| ==> s[i] == '*'
  }

  /** The line terminators of ECMA-262, which `.` does not match */
  predicate IsLineTerminator(c: char) {
    c == '\n' || c == '\r' || c as int == 0x2028 || c as int == 0x2029
  }

  predicate NoLineTerminator(t: string) {
    forall i :: 0 <= i < |t| ==> !IsLineTerminator(t[i])
  }

  /** A character that stands for itself in a regular expression and folds case as ASCII */
  predicate SafeLiteral(c: char) {
    c as int < 128 && !IsLineTerminator(c) && c !in "^$\\.*+?()[]{}|"
  }

  /** A pattern whose only special characters are the two wildcards */
  predicate SafePattern(p: string) {
    forall i :: 0 <= i < |p| ==> SafeLiteral(p[i]) || p[i] == '*' || p[i] == '?'
  }

  /** One pattern character that is not `*` against one text character */
  predicate CharMatches(pc: char, tc: char) {
    if pc == '?' then !IsLineTerminator(tc) else Lower(pc) == Lower(tc)
  }

  /** `convertStringToPattern(p).test(t)` for `SafePattern(p)` */
  predicate Matches(p: string, t: string)
    decreases |p| + |t|
  {
    if |p| == 0 then |t| == 0
    else if p[0] == '*' then
      Matches(p[1..], t) || (|t| > 0 && !IsLineTerminator(t[0]) && Matches(p, t[1..]))
    else
      |t| > 0 && CharMatches(p[0], t[0]) && Matches(p[1..], t[1..])
  }

  /**
   * The inline matcher of expand.ts:178-179, which rewrites only `*`: a `?`
   * there would be a regular-expression quantifier, so its callers exclude it.
   */
  predicate StarMatches(p: string, t: string)
    decreases |p| + |t|
  {
    if |p| == 0 then |t| == 0
    else if p[0] == '*' then
      StarMatches(p[1..], t) || (|t| > 0 && !IsLineTerminator(t[0]) && StarMatches(p, t[1..]))
    else
      |t| > 0 && Lower(p[0]) == Lower(t[0]) && StarMatches(p[1..], t[1..])
  }

  /** On patterns without `?` the two matchers agree */
  lemma {:induction false} StarMatchesAgree(p: string, t: string)
    requires '?' !in p
    ensures StarMatches(p, t) == Matches(p, t)
    decreases |p| + |t|
  {
    if |p| > 0 {
      assert '?' !in p[1..] by { assert forall i | 0 <= i < |p[1..]| :: p[1..][i] == p[i + 1]; }
      if p[0] == '*' {
        StarMatchesAgree(p[1..], t);
        if |t| > 0 {
          StarMatchesAgree(p, t[1..]);
        }
      } else if |t| > 0 {
        assert p[0] != '?' by { assert p[0] == p[0..1][0]; }
        StarMatchesAgree(p[1..], t[1..]);
      }
    }
  }

  /** An all-asterisk pattern accepts exactly the texts without line terminators */
  lemma {:induction false} AllAsterisksMatchEverything(p: string, t: string)
    requires AllAsterisks(p)
    ensures Matches(p, t) <==> NoLineTerminator(t)
    decreases |p| + |t|
  {
    if |t| == 0 {
      if |p| > 1 {
        AllAsterisksMatchEverything(p[1..], t);
      }
    } else {
      AllAsterisksMatchEverything(p, t[1..]);
      if |p| > 1 {
        AllAsterisksMatchEverything(p[1..], t);
      } else {
        assert !Matches(p[1..], t);
      }
      if NoLineTerminator(t) {
        assert NoLineTerminator(t[1..]);
      }
      if Matches(p, t) {
        assert forall i | 0 < i < |t| :: t[i] == t[1..][i - 1];
      }
    }
  }

  function Repeat(c: char, n: nat): (r: string)
    ensures |r| == n && forall i :: 0 <= i < n ==> r[i] == c
  {
    if n == 0 then "" else [c] + Repeat(c, n - 1)
  }

  /** A run of n `?` accepts exactly the texts of n characters with no line terminator */
  lemma {:induction false} QuestionMarksCount(n: nat, t: string)
    ensures Matches(Repeat('?', n), t) <==> |t| == n && NoLineTerminator(t)
  {
    var p := Repeat('?', n);
    if n > 0 && |t| > 0 {
      assert p[1..] == Repeat('?', n - 1);
      QuestionMarksCount(n - 1, t[1..]);
      if NoLineTerminator(t) {
        assert NoLineTerminator(t[1..]);
      }
      if |t| == n && NoLineTerminator(t[1..]) && !IsLineTerminator(t[0]) {
        assert forall i | 0 < i < |t| :: t[i] == t[1..][i - 1];
      }
    }
  }

  /** A leading `*` consumes any prefix without line terminators, including the empty one */
  lemma LeadingStar(p: string, t: string)
    ensures Matches(['*'] + p, t) <==>
            exists k | 0 <= k <= |t| :: NoLineTerminator(t[..k]) && Matches(p, t[k..])
  {
    if Matches(['*'] + p, t) {
      LeadingStarSplits(p, t);
    }
    if exists k | 0 <= k <= |t| :: NoLineTerminator(t[..k]) && Matches(p, t[k..]) {
      var k :| 0 <= k <= |t| && NoLineTerminator(t[..k]) && Matches(p, t[k..]);
      LeadingStarJoins(p, t, k);
    }
  }

  /** What a leading `*` matches splits into a terminator-free prefix and a match of the rest */
  lemma {:induction false} LeadingStarSplits(p: string, t: string)
    requires Matches(['*'] + p, t)
    ensures exists k | 0 <= k <= |t| :: NoLineTerminator(t[..k]) && Matches(p, t[k..])
    decreases |t|
  {
    LeadingStarStep(p, t);
    if Matches(p, t) {
      assert t[..0] == [] && t[0..] == t;
    } else {
      var tail := t[1..];
      LeadingStarSplits(p, tail);
      var k :| 0 <= k <= |tail| && NoLineTerminator(tail[..k]) && Matches(p, tail[k..]);
      assert tail[k..] == t[k + 1..];
      var pre, inner := t[..k + 1], tail[..k];
      forall i | 0 <= i < k + 1 ensures !IsLineTerminator(pre[i]) {
        if i > 0 {
          assert pre[i] == inner[i - 1];
        }
      }
      assert NoLineTerminator(pre) && Matches(p, t[k + 1..]);
    }
  }

  /** One unfolding of a leading `*`: it matches nothing more, or one more character */
  lemma LeadingStarStep(p: string, t: string)
    ensures Matches(['*'] + p, t) <==>
              Matches(p, t) || (|t| > 0 && !IsLineTerminator(t[0]) && Matches(['*'] + p, t[1..]))
  {
    assert (['*'] + p)[1..] == p;
  }

  /** A terminator-free prefix followed by a match of `p` is matched by `*` then `p` */
  lemma {:induction false} LeadingStarJoins(p: string, t: string, k: nat)
    requires k <= |t| && NoLineTerminator(t[..k]) && Matches(p, t[k..])
    ensures Matches(['*'] + p, t)
    decreases k
  {
    var sp := ['*'] + p;
    assert sp[1..] == p;
    if k == 0 {
      assert t[k..] == t;
    } else {
      assert t[..k][0] == t[0];
      var pre, inner := t[..k], t[1..][..k - 1];
      forall i | 0 <= i < k - 1 ensures !IsLineTerminator(inner[i]) {
        assert inner[i] == pre[i + 1];
      }
      assert t[1..][k - 1..] == t[k..];
      LeadingStarJoins(p, t[1..], k - 1);
    }
  }

  /** Matching composes: a text matched piecewise by two patterns is matched by their concatenation */
  lemma {:induction false} MatchesConcat(p1: string, t1: string, p2: string, t2: string)
    requires Matches(p1, t1) && Matches(p2, t2)
    ensures Matches(p1 + p2, t1 + t2)
    decreases |p1| + |t1|
  {
    if |p1| == 0 {
      assert p1 + p2 == p2 && t1 + t2 == t2;
    } else {
      assert (p1 + p2)[0] == p1[0] && (p1 + p2)[1..] == p1[1..] + p2;
      if p1[0] == '*' {
        if Matches(p1[1..], t1) {
          MatchesConcat(p1[1..], t1, p2, t2);
        } else {
          MatchesConcat(p1, t1[1..], p2, t2);
          assert (t1 + t2)[1..] == t1[1..] + t2;
        }
      } else {
        MatchesConcat(p1[1..], t1[1..], p2, t2);
        assert (t1 + t2)[1..] == t1[1..] + t2;
      }
    }
  }

  lemma LowerFacts(c: char)
    ensures Lower(Lower(c)) == Lower(c)
    ensures Lower(c) == '*' <==> c == '*'
    ensures Lower(c) == '?' <==> c == '?'
    ensures IsLineTerminator(Lower(c)) <==> IsLineTerminator(c)
  {
  }

  /** The `i` flag: matching ignores ASCII case in both the pattern and the text */
  lemma {:induction false} CaseInsensitive(p: string, t: string)
    ensures Matches(p, t) == Matches(LowerStr(p), LowerStr(t))
    decreases |p| + |t|
  {
    var lp, lt := LowerStr(p), LowerStr(t);
    if |p| > 0 {
      LowerFacts(p[0]);
      assert lp[0] == Lower(p[0]) && lp[1..] == LowerStr(p[1..]);
      if |t| > 0 {
        LowerFacts(t[0]);
        assert lt[0] == Lower(t[0]) && lt[1..] == LowerStr(t[1..]);
        CaseInsensitive(p, t[1..]);
        CaseInsensitive(p[1..], t[1..]);
      }
      CaseInsensitive(p[1..], t);
    }
  }

  /** Without wildcards a pattern accepts exactly the texts equal to it ignoring case, so never a longer or shorter one */
  lemma {:induction false} LiteralPattern(p: string, t: string)
    requires '*' !in p && '?' !in p
    ensures Matches(p, t) <==> LowerStr(p) == LowerStr(t)
    decreases |p|
  {
    if |p| > 0 && |t| > 0 {
      assert p[0] != '*' && p[0] != '?';
      assert '*' !in p[1..] && '?' !in p[1..] by {
        assert forall i | 0 <= i < |p[1..]| :: p[1..][i] == p[i + 1];
      }
      LiteralPattern(p[1..], t[1..]);
      var lp, lt := LowerStr(p), LowerStr(t);
      assert lp[0] == Lower(p[0]) && lp[1..] == LowerStr(p[1..]);
      assert lt[0] == Lower(t[0]) && lt[1..] == LowerStr(t[1..]);
      assert lp == [lp[0]] + lp[1..] && lt == [lt[0]] + lt[1..];
    } else if |p| > 0 {
      assert |LowerStr(p)| != |LowerStr(t)|;
    } else if |t| > 0 {
      assert |LowerStr(p)| != |LowerStr(t)|;
    }
  }

  predicate IsHexDigit(c: char) {
    '0' <= c <= '9' || 'a' <= c <= 'f' || 'A' <= c <= 'F'
  }

  function HexValue(c: char): (n: nat)
    requires IsHexDigit(c)
    ensures n < 16
  {
    if '0' <= c <= '9' then c as int - '0' as int
    else if 'a' <= c <= 'f' then c as int - 'a' as int + 10
    else c as int - 'A' as int + 10
  }

  /** The character code written by the four hex digits after `\u` */
  function EscapedCode(s: string): (n: nat)
    requires |s| >= 6 && IsHexDigit(s[2]) && IsHexDigit(s[3]) && IsHexDigit(s[4]) && IsHexDigit(s[5])
    ensures n < 0x10000
  {
    ((HexValue(s[2]) * 16 + HexValue(s[3])) * 16 + HexValue(s[4])) * 16 + HexValue(s[5])
  }

  /** `s` starts with `\uXXXX` naming a character (a UTF-16 surrogate code names none on its own) */
  predicate StartsWithEscape(s: string) {
    && |s| >= 6 && s[0] == '\\' && s[1] == 'u'
    && IsHexDigit(s[2]) && IsHexDigit(s[3]) && IsHexDigit(s[4]) && IsHexDigit(s[5])
    && (EscapedCode(s) < 0xD800 || 0xE000 <= EscapedCode(s))
  }

  /** `unescapeUnicodeCharacters`: every `\uXXXX` becomes the character with that code */
  function Unescape(s: string): string {
    if |s| == 0 then ""
    else if StartsWithEscape(s) then [EscapedCode(s) as char] + Unescape(s[6..])
    else [s[0]] + Unescape(s[1..])
  }

  /** The example of util.test.ts:5-13 */
  lemma UnescapeExample()
    ensures Unescape("\\u0041\\u0042\\u0043") == "ABC"
  {
    var s := "\\u0041\\u0042\\u0043";
    assert StartsWithEscape(s) && EscapedCode(s) == 0x41;
    assert s[6..] == "\\u0042\\u0043";
    assert StartsWithEscape(s[6..]) && EscapedCode(s[6..]) == 0x42;
    assert s[6..][6..] == "\\u0043";
    assert StartsWithEscape(s[6..][6..]) && EscapedCode(s[6..][6..]) == 0x43;
    assert s[6..][6..][6..] == "";
  }

  /** Text without a backslash has nothing to unescape */
  lemma {:induction false} UnescapeNoBackslash(s: string)
    requires '\\' !in s
    ensures Unescape(s) == s
  {
    if |s| > 0 {
      assert '\\' !in s[1..];
      UnescapeNoBackslash(s[1..]);
    }
  }

  function HexDigit(d: nat): (c: char)
    requires d < 16
    ensures IsHexDigit(c) && HexValue(c) == d
  {
    if d < 10 then ('0' as int + d) as char else ('a' as int + d - 10) as char
  }

  /** `\uXXXX` for a character of the Basic Multilingual Plane */
  function EscapeChar(c: char): (e: string)
    requires c as int < 0x10000
    ensures |e| == 6 && StartsWithEscape(e) && EscapedCode(e) == c as int
  {
    var n := c as int;
    var m := n / 16;
    var m2 := m / 16;
    assert n == m * 16 + n % 16 && m == m2 * 16 + m % 16 && m2 == (m2 / 16) * 16 + m2 % 16;
    assert m2 / 16 < 16;
    var e := ['\\', 'u', HexDigit(m2 / 16), HexDigit(m2 % 16), HexDigit(m % 16), HexDigit(n % 16)];
    assert EscapedCode(e) == n;
    e
  }

  function Escape(s: string): string
    requires forall i :: 0 <= i < |s| ==> s[i] as int < 0x10000
  {
    if |s| == 0 then "" else EscapeChar(s[0]) + Escape(s[1..])
  }

  /** Unescaping undoes escaping every character */
  lemma {:induction false} UnescapeEscape(s: string)
    requires forall i :: 0 <= i < |s| ==> s[i] as int < 0x10000
    ensures Unescape(Escape(s)) == s
  {
    if |s| > 0 {
      var e := Escape(s);
      var head := EscapeChar(s[0]);
      assert e[..6] == head;
      assert StartsWithEscape(e) && EscapedCode(e) == s[0] as int by {
        assert e[0] == head[0] && e[1] == head[1] && e[2] == head[2];
        assert e[3] == head[3] && e[4] == head[4] && e[5] == head[5];
      }
      assert e[6..] == Escape(s[1..]);
      UnescapeEscape(s[1..]);
      assert (s[0] as int) as char == s[0];
      assert s == [s[0]] + s[1..];
    }
  }
}
