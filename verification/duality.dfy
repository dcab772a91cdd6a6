/**
 * How `invert` answers `expandIamActions`: an action that some element of
 * the list expands to is never in the list's inversion.
 *
 * `invert` splits its elements without trimming them, so the statement is
 * about elements that carry no surrounding white space.
 */
module Duality {
  import opened Text
  import opened Wildcard
  import opened Catalog
  import opened Json
  import Expand
  import Invert

  /** The element `service:name` removes action `a` of service `k` from the inversion */
  ghost predicate Removes(s: string, k: string, a: string) {
    Invert.WholeService(Str(s), k) || exists p | Invert.KeptPattern(Str(s), k, p) :: Matches(p, a)
  }

  /** What both sides require of `service:name`, spelled out for the branch lemmas below */
  predicate Qualified(s: string, service: string, name: string) {
    && s == service + ":" + name && ':' !in service && ':' !in name
    && Trim(s) == s && IsAscii(s)
  }

  /** The element names `service`, lower-cased, with pattern `name`, lower-cased */
  lemma PatternOf(s: string, service: string, name: string)
    requires Qualified(s, service, name)
    ensures Invert.PatternFor(Str(s), LowerStr(service), LowerStr(name))
    ensures ':' !in LowerStr(service)
  {
    Expand.QualifiedShape(s, service, name);
    LowerStrKeeps(service, ':');
  }

  /** `service:***` removes every action of the service it names */
  lemma WholeServiceRemoves(cat: Catalog, s: string, service: string, name: string, k: string, a: string, b: string)
    requires WellFormed(cat) && Qualified(s, service, name) && AllAsterisks(name)
    requires k in ServiceKeys(cat) && Qualify(k, a) == Qualify(LowerStr(service), b)
    ensures Removes(s, k, a)
  {
    PatternOf(s, service, name);
    KeyFacts(cat, k);
    QualifyInjective(k, a, LowerStr(service), b);
    Expand.LowerAsterisks(name);
  }

  /** `service:***` with a known service removes every action the branch gives */
  lemma RemovesServiceAsterisk(cat: Catalog, o: Expand.Options, s: string, service: string, name: string, k: string, a: string)
    requires WellFormed(cat) && Qualified(s, service, name) && Expand.Admissible(cat, s)
    requires ServiceExists(cat, LowerStr(service)) && AllAsterisks(name)
    requires k in ServiceKeys(cat)
    requires Expand.ExpandString(cat, o, s).Success? && Qualify(k, a) in Expand.ExpandString(cat, o, s).value
    ensures Removes(s, k, a)
  {
    var key := LowerStr(service);
    Expand.ServiceAsteriskOutputs(cat, o, s, service, name);
    var b :| Qualify(k, a) == Qualify(key, b);
    WholeServiceRemoves(cat, s, service, name, k, a, b);
  }

  /** A wildcard-free `service:name` removes the catalog action it names */
  lemma LiteralRemoves(cat: Catalog, s: string, service: string, name: string, k: string, a: string, b: string)
    requires WellFormed(cat) && Qualified(s, service, name) && '*' !in s
    requires k in ServiceKeys(cat) && b in ActionsFor(cat, LowerStr(service)) && LowerStr(b) == LowerStr(name)
    requires Qualify(k, a) == Qualify(LowerStr(service), b)
    ensures Removes(s, k, a)
  {
    var key, p := LowerStr(service), LowerStr(name);
    PatternOf(s, service, name);
    KeyFacts(cat, k);
    QualifyInjective(k, a, key, b);
    ActionFacts(cat, key, b);
    NameFacts(b);
    LowerStrKeeps(b, '?');
    LowerStrKeeps(b, '*');
    LiteralPattern(p, a);
    LowerIdempotent(b);
    assert Invert.KeptPattern(Str(s), key, p);
  }

  /** A catalog action spelled `service:name` is one the catalog knows under the lower-cased service */
  lemma CatalogSpelling(cat: Catalog, s: string, service: string, name: string, k: string, a: string)
    requires WellFormed(cat) && Qualified(s, service, name)
    requires k in ServiceKeys(cat) && a in ActionsFor(cat, k) && Qualify(k, a) == s
    ensures a in ActionsFor(cat, LowerStr(service)) && LowerStr(a) == LowerStr(name)
    ensures Qualify(k, a) == Qualify(LowerStr(service), a)
  {
    KeyFacts(cat, k);
    QualifyInjective(k, a, service, name);
  }

  /** What a wildcard-free `service:name` expands to is the catalog action it names */
  lemma LiteralOutput(cat: Catalog, o: Expand.Options, s: string, service: string, name: string, k: string, a: string)
    requires WellFormed(cat) && Qualified(s, service, name) && Expand.Admissible(cat, s)
    requires ServiceExists(cat, LowerStr(service)) && '*' !in s
    requires k in ServiceKeys(cat) && a in ActionsFor(cat, k)
    requires Expand.ExpandString(cat, o, s).Success? && Qualify(k, a) in Expand.ExpandString(cat, o, s).value
    ensures exists b | b in ActionsFor(cat, LowerStr(service)) && LowerStr(b) == LowerStr(name) :: Qualify(k, a) == Qualify(LowerStr(service), b)
  {
    Expand.ExpandLiteralOutputs(cat, o, s, service, name);
    if Qualify(k, a) == s {
      CatalogSpelling(cat, s, service, name, k, a);
    }
  }

  /** A wildcard-free `service:name` removes the one catalog action it expands to */
  lemma RemovesLiteral(cat: Catalog, o: Expand.Options, s: string, service: string, name: string, k: string, a: string)
    requires WellFormed(cat) && Qualified(s, service, name) && Expand.Admissible(cat, s)
    requires ServiceExists(cat, LowerStr(service)) && '*' !in s
    requires k in ServiceKeys(cat) && a in ActionsFor(cat, k)
    requires Expand.ExpandString(cat, o, s).Success? && Qualify(k, a) in Expand.ExpandString(cat, o, s).value
    ensures Removes(s, k, a)
  {
    LiteralOutput(cat, o, s, service, name, k, a);
    var b :| b in ActionsFor(cat, LowerStr(service)) && LowerStr(b) == LowerStr(name) && Qualify(k, a) == Qualify(LowerStr(service), b);
    LiteralRemoves(cat, s, service, name, k, a, b);
  }

  /** `service:pattern` with a `*` removes every action the pattern matches */
  lemma RemovesWildcard(cat: Catalog, o: Expand.Options, s: string, service: string, name: string, k: string, a: string)
    requires WellFormed(cat) && Qualified(s, service, name) && Expand.Admissible(cat, s)
    requires ServiceExists(cat, LowerStr(service)) && '*' in s && !AllAsterisks(name)
    requires k in ServiceKeys(cat)
    requires Expand.ExpandString(cat, o, s).Success? && Qualify(k, a) in Expand.ExpandString(cat, o, s).value
    ensures Removes(s, k, a)
  {
    Expand.QualifiedShape(s, service, name);
    var key, p := LowerStr(service), LowerStr(name);
    assert exists b | b in ActionsFor(cat, key) && Matches(p, b) :: Qualify(k, a) == Qualify(key, b) by {
      Expand.ExpandWildcard(cat, o, s, service, name);
    }
    var b :| b in ActionsFor(cat, key) && Matches(p, b) && Qualify(k, a) == Qualify(key, b);
    LowerStrKeeps(service, ':');
    KeyFacts(cat, k);
    QualifyInjective(k, a, key, b);
    Expand.LowerAsterisks(name);
    assert Invert.KeptPattern(Str(s), key, p);
  }

  /** Whatever catalog action an element expands to, the element removes it */
  lemma ExpansionRemoved(cat: Catalog, o: Expand.Options, s: string, k: string, a: string)
    requires WellFormed(cat)
    requires Trim(s) == s && !AllAsterisks(s)
    requires Expand.Admissible(cat, s)
    requires k in ServiceKeys(cat) && a in ActionsFor(cat, k)
    requires Expand.ExpandString(cat, o, s).Success? && Qualify(k, a) in Expand.ExpandString(cat, o, s).value
    ensures Removes(s, k, a)
  {
    if multiset(s)[':'] != 1 {
      Expand.ExpandBadFormat(cat, o, s);
    } else {
      var parts := Split(s, ':');
      var service, name := parts[0], parts[1];
      SplitTwo(s, ':');
      assert parts[0] in parts && parts[1] in parts;
      assert Qualified(s, service, name);
      if !ServiceExists(cat, LowerStr(service)) {
        Expand.ExpandUnknownService(cat, o, s, service, name);
      } else if AllAsterisks(name) {
        RemovesServiceAsterisk(cat, o, s, service, name, k, a);
      } else if '*' !in s {
        RemovesLiteral(cat, o, s, service, name, k, a);
      } else {
        RemovesWildcard(cat, o, s, service, name, k, a);
      }
    }
  }

  /**
   * `invert(list)` shares no action with the expansion of any of its
   * elements: inverting undoes what each pattern selects.
   */
  lemma InvertExcludesExpansion(cat: Catalog, o: Expand.Options, v: Value, s: string)
    requires WellFormed(cat) && Invert.PlainKeys(cat)
    requires Invert.AdmissibleItems(Invert.ItemsOf(v))
    requires Str(s) in Invert.ItemsOf(v) && Trim(s) == s
    requires Expand.Admissible(cat, s)
    requires Invert.InvertActions(cat, v).Success?
    requires Expand.ExpandString(cat, o, s).Success?
    ensures forall x | x in Expand.ExpandString(cat, o, s).value :: x !in Invert.InvertActions(cat, v).value
  {
    var items := Invert.ItemsOf(v);
    if u :| u in items && u.Str? && AllAsterisks(u.s) {
      Invert.InvertAsteriskEmpty(cat, v, u);
    } else {
      Invert.InvertMembership(cat, v);
      forall x | x in Expand.ExpandString(cat, o, s).value ensures x !in Invert.InvertActions(cat, v).value {
        if x in Invert.InvertActions(cat, v).value {
          var k, a :| k in ServiceKeys(cat) && a in ActionsFor(cat, k) && x == Qualify(k, a) && !Invert.Excluded(items, k, a);
          ExpansionRemoved(cat, o, s, k, a);
        }
      }
    }
  }
}
