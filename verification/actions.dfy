/**
 * actions.ts: testing one action against one pattern, and asking whether a
 * pattern matches anything in the catalog.
 */
module Actions {
  import opened Text
  import opened Wildcard
  import opened Catalog

  /**
   * `actionMatchesPattern(action, pattern)`: both sides are unescaped, then
   * the pattern is compiled and its `test` is applied to the action.
   */
  function ActionMatchesPattern(action: string, pattern: string): bool
    requires SafePattern(Unescape(pattern))
  {
    Matches(Unescape(pattern), Unescape(action))
  }

  /** Without escapes, testing an action is plain wildcard matching ignoring case */
  lemma ActionMatchesPatternPlain(action: string, pattern: string)
    requires '\\' !in action && '\\' !in pattern
    requires SafePattern(pattern)
    ensures SafePattern(Unescape(pattern))
    ensures ActionMatchesPattern(action, pattern) == Matches(LowerStr(pattern), LowerStr(action))
  {
    UnescapeNoBackslash(action);
    UnescapeNoBackslash(pattern);
    CaseInsensitive(pattern, action);
  }

  /**
   * Escapes are decoded before the pattern is compiled: writing every
   * character of a pattern as `\uXXXX` (the wildcards included) tests the
   * same actions as the pattern itself.
   */
  lemma ActionMatchesPatternEscaped(action: string, pattern: string)
    requires SafePattern(pattern)
    ensures forall i :: 0 <= i < |pattern| ==> pattern[i] as int < 0x10000
    ensures SafePattern(Unescape(pattern)) && SafePattern(Unescape(Escape(pattern)))
    ensures ActionMatchesPattern(action, Escape(pattern)) == ActionMatchesPattern(action, pattern)
  {
    assert forall i :: 0 <= i < |pattern| ==> pattern[i] as int < 0x10000 by {
      forall i | 0 <= i < |pattern| ensures pattern[i] as int < 0x10000 {
        assert pattern[i] in pattern;
      }
    }
    UnescapeEscape(pattern);
    UnescapeNoBackslash(pattern);
  }

  /**
   * A pattern made of a literal prefix and a trailing `*` matches every
   * action that starts with that prefix, whatever the case of either
   * (actions.test.ts:157-167 is the instance `s3:ListA*`).
   */
  lemma ActionMatchesPatternPrefix(prefix: string, lit: string, rest: string)
    requires SafePattern(lit) && '*' !in lit && '?' !in lit
    requires '\\' !in prefix && '\\' !in rest && NoLineTerminator(rest)
    requires LowerStr(prefix) == LowerStr(lit)
    ensures SafePattern(Unescape(lit + "*"))
    ensures ActionMatchesPattern(prefix + rest, lit + "*")
  {
    var p := lit + "*";
    assert SafePattern(p) by {
      forall i | 0 <= i < |p| ensures SafeLiteral(p[i]) || p[i] == '*' || p[i] == '?' {
        if i < |lit| { assert p[i] == lit[i]; }
      }
    }
    assert '\\' !in p by {
      forall i | 0 <= i < |p| ensures p[i] != '\\' {
        if i < |lit| { assert p[i] == lit[i]; }
      }
    }
    UnescapeNoBackslash(p);
    UnescapeNoBackslash(prefix + rest);
    LiteralPattern(lit, prefix);
    AllAsterisksMatchEverything("*", rest);
    MatchesConcat(lit, prefix, "*", rest);
  }

  /** A test that `matchesAnyAction` can carry out: a wildcard action part must be a safe pattern once unescaped */
  predicate MatchesAnyAdmissible(action: string) {
    var parts := Split(action, ':');
    |parts| == 2 && ('*' in parts[1] || '?' in parts[1]) ==> SafePattern(Unescape(parts[1]))
  }

  /**
   * `matchesAnyAction(action)`: false unless the text is `service:action`
   * with a known service (taken verbatim); a wildcard action part must match
   * some action of that service, any other must exist in it.
   */
  function MatchesAnyAction(cat: Catalog, action: string): (r: bool)
    requires MatchesAnyAdmissible(action)
    ensures |Split(action, ':')| != 2 ==> !r
  {
    var parts := Split(action, ':');
    if |parts| != 2 then false
    else
      var service, actionName := parts[0], parts[1];
      if !ServiceExists(cat, service) then false
      else if '*' in actionName || '?' in actionName then
        exists a | a in ActionsFor(cat, service) :: ActionMatchesPattern(a, actionName)
      else ActionExists(cat, service, actionName)
  }

  /**
   * For `service:name` with no further `:`, the result is true exactly when
   * the service key is in the catalog as written and either the wildcard
   * name matches one of its actions or the plain name is one of them,
   * ignoring case.
   */
  lemma MatchesAnyActionSpec(cat: Catalog, service: string, name: string)
    requires ':' !in service && ':' !in name
    requires ('*' in name || '?' in name) ==> SafePattern(Unescape(name))
    ensures MatchesAnyAdmissible(service + ":" + name)
    ensures MatchesAnyAction(cat, service + ":" + name) <==>
              && service in ServiceKeys(cat)
              && if '*' in name || '?' in name
                 then exists a | a in ActionsFor(cat, service) :: Matches(Unescape(name), Unescape(a))
                 else exists a | a in ActionsFor(cat, service) :: LowerStr(a) == LowerStr(name)
  {
    SplitPair(service, name, ':');
    assert service + ":" + name == service + [':'] + name;
  }
}
