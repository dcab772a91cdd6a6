/**
 * expand.ts: `expandIamActions`, which turns an IAM action pattern, or a
 * list of them, into the catalog actions it stands for.
 *
 * The options record keeps the source's field names, `expandAsterik`
 * spelling included. A `throw` is a `Failure` carrying the error's kind and
 * the text its message quotes.
 */
module Expand {
  import opened Wrappers
  import Errors
  import opened Text
  import opened Ordering
  import opened Wildcard
  import opened Catalog
  import opened Json

  /** What to do with a wildcard-free action the catalog does not know */
  datatype InvalidActionBehavior = Remove | Error | Include

  /** `ExpandIamActionsOptions` */
  datatype Options = Options(
    expandAsterik: bool,
    expandServiceAsterik: bool,
    errorOnInvalidFormat: bool,
    errorOnMissingService: bool,
    distinct: bool,
    invalidActionBehavior: InvalidActionBehavior,
    sort: bool)

  /** `defaultOptions` */
  const Defaults := Options(false, false, false, false, false, Remove, false)

  /** `Partial<ExpandIamActionsOptions>`: a field left out is `None` */
  datatype Overrides = Overrides(
    expandAsterik: Option<bool>,
    expandServiceAsterik: Option<bool>,
    errorOnInvalidFormat: Option<bool>,
    errorOnMissingService: Option<bool>,
    distinct: Option<bool>,
    invalidActionBehavior: Option<InvalidActionBehavior>,
    sort: Option<bool>)

  const NoOverrides := Overrides(None, None, None, None, None, None, None)

  /** `{...defaultOptions, ...overrideOptions}`: a given field wins, a missing one keeps its default */
  function Resolve(ov: Overrides): (o: Options)
    ensures ov.expandAsterik.Some? ==> o.expandAsterik == ov.expandAsterik.value
    ensures ov.expandAsterik.None? ==> !o.expandAsterik
    ensures ov.expandServiceAsterik.Some? ==> o.expandServiceAsterik == ov.expandServiceAsterik.value
    ensures ov.expandServiceAsterik.None? ==> !o.expandServiceAsterik
    ensures ov.errorOnInvalidFormat.Some? ==> o.errorOnInvalidFormat == ov.errorOnInvalidFormat.value
    ensures ov.errorOnInvalidFormat.None? ==> !o.errorOnInvalidFormat
    ensures ov.errorOnMissingService.Some? ==> o.errorOnMissingService == ov.errorOnMissingService.value
    ensures ov.errorOnMissingService.None? ==> !o.errorOnMissingService
    ensures ov.distinct.Some? ==> o.distinct == ov.distinct.value
    ensures ov.distinct.None? ==> !o.distinct
    ensures ov.invalidActionBehavior.Some? ==> o.invalidActionBehavior == ov.invalidActionBehavior.value
    ensures ov.invalidActionBehavior.None? ==> o.invalidActionBehavior == Remove
    ensures ov.sort.Some? ==> o.sort == ov.sort.value
    ensures ov.sort.None? ==> !o.sort
  {
    Options(
      ov.expandAsterik.GetOr(Defaults.expandAsterik),
      ov.expandServiceAsterik.GetOr(Defaults.expandServiceAsterik),
      ov.errorOnInvalidFormat.GetOr(Defaults.errorOnInvalidFormat),
      ov.errorOnMissingService.GetOr(Defaults.errorOnMissingService),
      ov.distinct.GetOr(Defaults.distinct),
      ov.invalidActionBehavior.GetOr(Defaults.invalidActionBehavior),
      ov.sort.GetOr(Defaults.sort))
  }

  /** A complete options record passed where overrides are expected */
  function Given(o: Options): Overrides {
    Overrides(Some(o.expandAsterik), Some(o.expandServiceAsterik), Some(o.errorOnInvalidFormat),
              Some(o.errorOnMissingService), Some(o.distinct), Some(o.invalidActionBehavior), Some(o.sort))
  }

  /**
   * Spreading a complete record over the defaults gives it back, so the
   * recursive call of expand.ts:100, which passes the resolved options,
   * sees the options of the outer call.
   */
  lemma ResolveGiven(o: Options)
    ensures Resolve(Given(o)) == o
    ensures Resolve(NoOverrides) == Defaults
  {
  }

  type Outcome = Result<seq<string>, Errors.Error>

  /**
   * The pattern the regular expression of expand.ts:178 is built from:
   * only `*` is rewritten there, so every other character must stand for
   * itself.
   */
  predicate StarPattern(p: string) {
    forall i :: 0 <= i < |p| ==> SafeLiteral(p[i]) || p[i] == '*'
  }

  /**
   * The inputs whose behaviour the model states exactly: a `service:action`
   * text is ASCII, where `toLowerCase` is ASCII case mapping, and the action
   * part that reaches the regular expression is a `StarPattern`.
   */
  predicate Admissible(cat: Catalog, s: string) {
    var t := Trim(s);
    var parts := Split(t, ':');
    |parts| == 2 ==>
      && IsAscii(t)
      && ('*' in t && ServiceExists(cat, LowerStr(parts[0])) ==> StarPattern(LowerStr(parts[1])))
  }

  /** `allActions.filter(action => regex.test(action))` */
  function MatchingActions(actions: seq<string>, pattern: string): (r: seq<string>)
    ensures Subsequence(r, actions)
    ensures forall a :: a in r <==> a in actions && StarMatches(pattern, a)
  {
    if |actions| == 0 then []
    else if StarMatches(pattern, actions[0]) then [actions[0]] + MatchingActions(actions[1..], pattern)
    else MatchingActions(actions[1..], pattern)
  }

  function BadFormat(o: Options, t: string): Outcome {
    if o.errorOnInvalidFormat then Failure(Errors.InvalidFormat(t)) else Success([])
  }

  /** expand.ts:117-185: one action string */
  function ExpandString(cat: Catalog, o: Options, s: string): (r: Outcome)
    requires Admissible(cat, s)
    ensures r.Failure? ==>
              || (o.errorOnInvalidFormat && r.error == Errors.InvalidFormat(Trim(s)))
              || (o.errorOnMissingService && r.error.ServiceNotFound?)
              || (o.invalidActionBehavior == Error && r.error == Errors.InvalidAction(Trim(s)))
  {
    var t := Trim(s);
    if AllAsterisks(t) then
      Success(if o.expandAsterik then AllQualified(cat) else ["*"])
    else if ':' !in t then BadFormat(o, t)
    else
      var parts := Split(t, ':');
      if |parts| != 2 then BadFormat(o, t)
      else
        ExpandParts(cat, o, t, LowerStr(parts[0]), LowerStr(parts[1]))
  }

  /** expand.ts:145-185: the trimmed input `t` split into a lower-cased service and action pattern */
  function ExpandParts(cat: Catalog, o: Options, t: string, service: string, wildcardActions: string): (r: Outcome)
    requires '*' in t && ServiceExists(cat, service) ==> StarPattern(wildcardActions)
    ensures r.Failure? ==>
              || (o.errorOnMissingService && r.error == Errors.ServiceNotFound(service))
              || (o.invalidActionBehavior == Error && r.error == Errors.InvalidAction(t))
  {
    if !ServiceExists(cat, service) then
      if o.errorOnMissingService then Failure(Errors.ServiceNotFound(service)) else Success([])
    else if AllAsterisks(wildcardActions) then
      Success(if o.expandServiceAsterik then QualifyAll(service, ActionsFor(cat, service)) else [service + ":*"])
    else if '*' !in t then
      if ActionExists(cat, service, wildcardActions) then
        Success([service + ":" + CanonicalName(cat, service, wildcardActions)])
      else
        match o.invalidActionBehavior
        case Remove => Success([])
        case Include => Success([t])
        case Error => Failure(Errors.InvalidAction(t))
    else
      var matching := QualifyAll(service, MatchingActions(ActionsFor(cat, service), wildcardActions));
      Success(if o.sort then Sort(matching) else matching)
  }

  /** Every string in `v`, list elements included, is admissible */
  predicate AllAdmissible(cat: Catalog, v: Value)
    decreases v
  {
    match v
    case Str(s) => Admissible(cat, s)
    case Arr(items) => forall i | 0 <= i < |items| :: AllAdmissible(cat, items[i])
    case _ => true
  }

  /**
   * expand.ts:91-186 with resolved options. The argument is any JavaScript
   * value: a falsy one gives `[]`, a list is expanded element by element
   * and then de-duplicated and sorted as the options ask, and a value that
   * is neither a string nor a list fails at `.trim()` with a TypeError.
   */
  function ExpandValue(cat: Catalog, o: Options, v: Value): (r: Outcome)
    requires AllAdmissible(cat, v)
    decreases v, 1
  {
    if !Truthy(v) then Success([])
    else
      match v
      case Str(s) => ExpandString(cat, o, s)
      case Arr(items) =>
        var all :- ExpandItems(cat, o, items);
        var unique := if o.distinct then Dedupe(all) else all;
        Success(if o.sort then Sort(unique) else unique)
      case _ => Failure(Errors.TypeError)
  }

  /** `flatMap` of the expansion over a list: the first failure is the list's */
  function ExpandItems(cat: Catalog, o: Options, items: seq<Value>): (r: Outcome)
    requires forall i | 0 <= i < |items| :: AllAdmissible(cat, items[i])
    ensures r.Success? <==> forall i | 0 <= i < |items| :: ExpandValue(cat, o, items[i]).Success?
    decreases items, 0
  {
    if |items| == 0 then Success([])
    else
      var head :- ExpandValue(cat, o, items[0]);
      var rest :- ExpandItems(cat, o, items[1..]);
      Success(head + rest)
  }

  /** `expandIamActions(actionStringOrStrings, overrideOptions)` */
  function ExpandIamActions(cat: Catalog, overrides: Overrides, v: Value): (r: Outcome)
    requires AllAdmissible(cat, v)
    ensures !Truthy(v) ==> r == Success([])
    ensures overrides == NoOverrides && v.Str? ==> r.Success?
  {
    var r := ExpandValue(cat, Resolve(overrides), v);
    r
  }

  // The branches of expand.ts:117-185, each stated for the trimmed input.

  /** The trimmed input `service:name` splits into its two parts and is not all asterisks */
  lemma QualifiedShape(t: string, service: string, name: string)
    requires t == service + ":" + name && ':' !in service && ':' !in name
    ensures Split(t, ':') == [service, name]
    ensures ':' in t && !AllAsterisks(t)
    ensures '*' in t <==> '*' in service || '*' in name
  {
    assert t == service + [':'] + name;
    SplitPair(service, name, ':');
    assert t[|service|] == ':';
  }

  lemma UnfoldSplit(cat: Catalog, o: Options, s: string)
    requires Admissible(cat, s)
    requires !AllAsterisks(Trim(s)) && ':' in Trim(s) && |Split(Trim(s), ':')| == 2
    ensures ExpandString(cat, o, s) == ExpandParts(cat, o, Trim(s), LowerStr(Split(Trim(s), ':')[0]), LowerStr(Split(Trim(s), ':')[1]))
  {
  }

  /** For a trimmed input `service:name` the expansion is that of its lower-cased parts */
  lemma UnfoldQualified(cat: Catalog, o: Options, s: string, service: string, name: string)
    requires Trim(s) == service + ":" + name && ':' !in service && ':' !in name
    requires IsAscii(Trim(s))
    requires '*' in Trim(s) && ServiceExists(cat, LowerStr(service)) ==> StarPattern(LowerStr(name))
    ensures Split(Trim(s), ':') == [service, name]
    ensures '*' in Trim(s) <==> '*' in service || '*' in name
    ensures Admissible(cat, s)
    ensures ExpandString(cat, o, s) == ExpandParts(cat, o, Trim(s), LowerStr(service), LowerStr(name))
  {
    QualifiedShape(Trim(s), service, name);
    UnfoldSplit(cat, o, s);
  }

  lemma LowerAsterisks(s: string)
    ensures AllAsterisks(LowerStr(s)) <==> AllAsterisks(s)
    ensures '*' in LowerStr(s) <==> '*' in s
  {
    var l := LowerStr(s);
    assert forall i | 0 <= i < |s| :: l[i] == '*' <==> s[i] == '*';
    if '*' in l {
      var i :| 0 <= i < |l| && l[i] == '*';
      assert s[i] == '*';
    }
    if '*' in s {
      var i :| 0 <= i < |s| && s[i] == '*';
      assert l[i] == '*';
    }
  }

  /**
   * An all-asterisk input is `["*"]`, or with `expandAsterik` every
   * `service:action` of the catalog in catalog order (expand.ts:119-127).
   */
  lemma ExpandAllAsterisks(cat: Catalog, o: Options, s: string)
    requires AllAsterisks(Trim(s))
    ensures Admissible(cat, s)
    ensures var r := ExpandString(cat, o, s);
      && r.Success?
      && (!o.expandAsterik ==> r.value == ["*"])
      && (o.expandAsterik ==> r.value == AllQualified(cat))
      && (o.expandAsterik ==> forall x :: x in r.value <==>
            exists k, a | k in ServiceKeys(cat) && a in ActionsFor(cat, k) :: x == Qualify(k, a))
  {
    var t := Trim(s);
    assert multiset(t)[':'] == 0;
  }

  /**
   * Without exactly one `:` the input is malformed: `[]`, or an
   * InvalidFormat failure quoting the trimmed input (expand.ts:129-142).
   */
  lemma ExpandBadFormat(cat: Catalog, o: Options, s: string)
    requires !AllAsterisks(Trim(s)) && multiset(Trim(s))[':'] != 1
    ensures Admissible(cat, s)
    ensures ExpandString(cat, o, s) ==
              if o.errorOnInvalidFormat then Failure(Errors.InvalidFormat(Trim(s))) else Success([])
  {
  }

  /**
   * A service the catalog does not know, after lower-casing, gives `[]`, or
   * a ServiceNotFound failure naming it (expand.ts:144-150).
   */
  lemma ExpandUnknownService(cat: Catalog, o: Options, s: string, service: string, name: string)
    requires Trim(s) == service + ":" + name && ':' !in service && ':' !in name
    requires IsAscii(Trim(s))
    requires !ServiceExists(cat, LowerStr(service))
    ensures Admissible(cat, s)
    ensures ExpandString(cat, o, s) ==
              if o.errorOnMissingService then Failure(Errors.ServiceNotFound(LowerStr(service))) else Success([])
  {
    UnfoldQualified(cat, o, s, service, name);
  }

  /**
   * `service:***` gives `service:*` with the service lower-cased, or with
   * `expandServiceAsterik` every action of the service (expand.ts:152-157).
   */
  lemma ExpandServiceAsterisk(cat: Catalog, o: Options, s: string, service: string, name: string)
    requires Trim(s) == service + ":" + name && ':' !in service && ':' !in name
    requires IsAscii(Trim(s))
    requires ServiceExists(cat, LowerStr(service)) && AllAsterisks(name)
    ensures Admissible(cat, s)
    ensures var key := LowerStr(service);
      ExpandString(cat, o, s) ==
        Success(if o.expandServiceAsterik then QualifyAll(key, ActionsFor(cat, key)) else [key + ":*"])
  {
    LowerAsterisks(name);
    assert StarPattern(LowerStr(name));
    UnfoldQualified(cat, o, s, service, name);
  }

  /** Everything `service:***` expands to is qualified by the lower-cased service */
  lemma ServiceAsteriskOutputs(cat: Catalog, o: Options, s: string, service: string, name: string)
    requires Trim(s) == service + ":" + name && ':' !in service && ':' !in name
    requires IsAscii(Trim(s))
    requires ServiceExists(cat, LowerStr(service)) && AllAsterisks(name)
    ensures Admissible(cat, s) && ExpandString(cat, o, s).Success?
    ensures forall x | x in ExpandString(cat, o, s).value :: exists b :: x == Qualify(LowerStr(service), b)
  {
    LowerAsterisks(name);
    assert StarPattern(LowerStr(name));
    UnfoldQualified(cat, o, s, service, name);
    PartsAsteriskOutputs(cat, o, Trim(s), LowerStr(service), LowerStr(name));
  }

  lemma PartsAsteriskOutputs(cat: Catalog, o: Options, t: string, key: string, p: string)
    requires ServiceExists(cat, key) && AllAsterisks(p)
    ensures ExpandParts(cat, o, t, key, p).Success?
    ensures forall x | x in ExpandParts(cat, o, t, key, p).value :: exists b :: x == Qualify(key, b)
  {
    var r := ExpandParts(cat, o, t, key, p).value;
    forall x | x in r ensures exists b :: x == Qualify(key, b) {
      if o.expandServiceAsterik {
        var i :| 0 <= i < |r| && r[i] == x;
        assert x == Qualify(key, ActionsFor(cat, key)[i]);
      } else {
        assert Qualify(key, "*") == key + ":*" by { assert ":" + "*" == ":*"; }
        assert r == [Qualify(key, "*")];
      }
    }
  }

  /**
   * An input without `*` gives at most one action: the catalog's own
   * spelling of the action named, ignoring case, or else what
   * `invalidActionBehavior` asks for (expand.ts:159-175).
   */
  lemma ExpandLiteral(cat: Catalog, o: Options, s: string, service: string, name: string)
    requires Trim(s) == service + ":" + name && ':' !in service && ':' !in name
    requires IsAscii(Trim(s)) && '*' !in Trim(s)
    requires ServiceExists(cat, LowerStr(service))
    ensures Admissible(cat, s)
    ensures var key, r := LowerStr(service), ExpandString(cat, o, s);
      if exists a | a in ActionsFor(cat, key) :: LowerStr(a) == LowerStr(name) then
        && r.Success? && |r.value| == 1
        && exists a | a in ActionsFor(cat, key) && LowerStr(a) == LowerStr(name) :: r.value[0] == Qualify(key, a)
      else
        match o.invalidActionBehavior
        case Remove => r == Success([])
        case Include => r == Success([Trim(s)])
        case Error => r == Failure(Errors.InvalidAction(Trim(s)))
  {
    UnfoldQualified(cat, o, s, service, name);
    LowerAsterisks(name);
    LowerIdempotent(name);
    PartsLiteral(cat, o, Trim(s), LowerStr(service), LowerStr(name));
  }

  lemma PartsLiteral(cat: Catalog, o: Options, t: string, key: string, p: string)
    requires ServiceExists(cat, key) && !AllAsterisks(p) && '*' !in t
    ensures var r := ExpandParts(cat, o, t, key, p);
      if exists a | a in ActionsFor(cat, key) :: LowerStr(a) == LowerStr(p) then
        && r.Success? && |r.value| == 1
        && exists a | a in ActionsFor(cat, key) && LowerStr(a) == LowerStr(p) :: r.value[0] == Qualify(key, a)
      else
        match o.invalidActionBehavior
        case Remove => r == Success([])
        case Include => r == Success([t])
        case Error => r == Failure(Errors.InvalidAction(t))
  {
    if ActionExists(cat, key, p) {
      var a := CanonicalName(cat, key, p);
      assert ExpandParts(cat, o, t, key, p).value == [Qualify(key, a)];
    }
  }

  /** Whatever a wildcard-free `service:name` expands to is the catalog spelling of the action or the input itself */
  lemma ExpandLiteralOutputs(cat: Catalog, o: Options, s: string, service: string, name: string)
    requires Trim(s) == service + ":" + name && ':' !in service && ':' !in name
    requires IsAscii(Trim(s)) && '*' !in Trim(s)
    requires ServiceExists(cat, LowerStr(service))
    ensures Admissible(cat, s)
    ensures ExpandString(cat, o, s).Success? ==>
      forall x | x in ExpandString(cat, o, s).value ::
        || x == Trim(s)
        || exists a | a in ActionsFor(cat, LowerStr(service)) && LowerStr(a) == LowerStr(name) :: x == Qualify(LowerStr(service), a)
  {
    UnfoldQualified(cat, o, s, service, name);
    LowerAsterisks(name);
    LowerIdempotent(name);
    PartsLiteralOutputs(cat, o, Trim(s), LowerStr(service), LowerStr(name));
  }

  lemma PartsLiteralOutputs(cat: Catalog, o: Options, t: string, key: string, p: string)
    requires ServiceExists(cat, key) && !AllAsterisks(p) && '*' !in t
    ensures ExpandParts(cat, o, t, key, p).Success? ==>
      forall x | x in ExpandParts(cat, o, t, key, p).value ::
        || x == t
        || exists a | a in ActionsFor(cat, key) && LowerStr(a) == LowerStr(p) :: x == Qualify(key, a)
  {
    if ActionExists(cat, key, p) {
      var a := CanonicalName(cat, key, p);
      assert ExpandParts(cat, o, t, key, p).value == [Qualify(key, a)];
    }
  }

  /**
   * An input with `*` gives `service:action` for exactly the actions of the
   * (lower-cased) service that the wildcard pattern matches, in catalog
   * order, or sorted when `sort` is set (expand.ts:177-185).
   */
  lemma ExpandWildcard(cat: Catalog, o: Options, s: string, service: string, name: string)
    requires Trim(s) == service + ":" + name && ':' !in service && ':' !in name
    requires IsAscii(Trim(s)) && '*' in Trim(s) && !AllAsterisks(name)
    requires ServiceExists(cat, LowerStr(service)) && StarPattern(LowerStr(name))
    ensures Admissible(cat, s)
    ensures var key, r, unsorted := LowerStr(service), ExpandString(cat, o, s), ExpandString(cat, o.(sort := false), s);
      && r.Success? && unsorted.Success?
      && (forall x :: x in r.value <==>
            exists a | a in ActionsFor(cat, key) && Matches(LowerStr(name), a) :: x == Qualify(key, a))
      && (!o.sort ==> Subsequence(r.value, QualifyAll(key, ActionsFor(cat, key))))
      && (o.sort ==> Sorted(r.value))
      && multiset(r.value) == multiset(unsorted.value)
  {
    var key, p := LowerStr(service), LowerStr(name);
    UnfoldQualified(cat, o, s, service, name);
    UnfoldQualified(cat, o.(sort := false), s, service, name);
    LowerAsterisks(name);
    var acts := ActionsFor(cat, key);
    WildcardBranch(cat, o, Trim(s), key, p);
    WildcardBranch(cat, o.(sort := false), Trim(s), key, p);
    WildcardOutput(key, acts, p);
    SortMembers(QualifyAll(key, MatchingActions(acts, p)));
  }

  lemma WildcardBranch(cat: Catalog, o: Options, t: string, key: string, p: string)
    requires ServiceExists(cat, key) && !AllAsterisks(p) && '*' in t && StarPattern(p)
    ensures var q := QualifyAll(key, MatchingActions(ActionsFor(cat, key), p));
      ExpandParts(cat, o, t, key, p) == Success(if o.sort then Sort(q) else q)
  {
  }

  /** The wildcard branch's unsorted output, judged by the matcher of util.ts */
  lemma WildcardOutput(key: string, acts: seq<string>, p: string)
    requires StarPattern(p)
    ensures var q := QualifyAll(key, MatchingActions(acts, p));
      && (forall x :: x in q <==> exists a | a in acts && Matches(p, a) :: x == Qualify(key, a))
      && Subsequence(q, QualifyAll(key, acts))
  {
    var m := MatchingActions(acts, p);
    forall a ensures StarMatches(p, a) == Matches(p, a) {
      StarMatchesAgree(p, a);
    }
    var q := QualifyAll(key, m);
    forall x ensures x in q <==> exists a | a in acts && Matches(p, a) :: x == Qualify(key, a) {
      if x in q {
        var i :| 0 <= i < |q| && q[i] == x;
        assert m[i] in m;
      }
      if exists a | a in acts && Matches(p, a) :: x == Qualify(key, a) {
        var a :| a in acts && Matches(p, a) && x == Qualify(key, a);
        var i :| 0 <= i < |m| && m[i] == a;
        assert q[i] == x;
      }
    }
    SubsequenceQualify(key, m, acts);
  }

  /** Qualifying every element keeps a subsequence a subsequence */
  lemma {:induction false} SubsequenceQualify(key: string, a: seq<string>, b: seq<string>)
    requires Subsequence(a, b)
    ensures Subsequence(QualifyAll(key, a), QualifyAll(key, b))
    decreases |b|
  {
    var qa, qb := QualifyAll(key, a), QualifyAll(key, b);
    if |a| > 0 {
      assert qb[1..] == QualifyAll(key, b[1..]);
      if a[0] == b[0] && Subsequence(a[1..], b[1..]) {
        assert qa[1..] == QualifyAll(key, a[1..]);
        SubsequenceQualify(key, a[1..], b[1..]);
      } else {
        SubsequenceQualify(key, a, b[1..]);
      }
    }
  }

  /**
   * In a well-formed catalog a qualified catalog action expands to itself,
   * whatever the options: the expansion's output is a fixed point.
   */
  lemma ExpandQualifiedAction(cat: Catalog, o: Options, key: string, a: string)
    requires WellFormed(cat) && a in ActionsFor(cat, key)
    ensures Admissible(cat, Qualify(key, a))
    ensures ExpandString(cat, o, Qualify(key, a)) == Success([Qualify(key, a)])
  {
    var t := Qualify(key, a);
    QualifiedActionShape(cat, key, a);
    UnfoldQualified(cat, o, t, key, a);
    LowerAsterisks(a);
    CanonicalNameOfAction(cat, key, a);
  }

  /** A qualified catalog action is trimmed ASCII text of two `:`- and `*`-free parts under a known, lower-case service */
  lemma QualifiedActionShape(cat: Catalog, key: string, a: string)
    requires WellFormed(cat) && a in ActionsFor(cat, key)
    ensures ServiceExists(cat, key) && LowerStr(key) == key
    ensures ':' !in key && ':' !in a && '*' !in key && '*' !in a
    ensures Trim(Qualify(key, a)) == Qualify(key, a) && IsAscii(Qualify(key, a))
  {
    KeyFacts(cat, key);
    ActionFacts(cat, key, a);
    NameFacts(key);
    NameFacts(a);
    var t := Qualify(key, a);
    assert forall i | 0 <= i < |t| :: t[i] in key || t[i] == ':' || t[i] in a;
    TrimNoop(Qualify(key, a));
  }

  // The list level of expand.ts:99-115.

  /** The expansion of a concatenated list is the concatenation of the expansions, or the first failure */
  lemma {:induction false} ExpandItemsAppend(cat: Catalog, o: Options, a: seq<Value>, b: seq<Value>)
    requires forall i | 0 <= i < |a| :: AllAdmissible(cat, a[i])
    requires forall i | 0 <= i < |b| :: AllAdmissible(cat, b[i])
    ensures forall i | 0 <= i < |a + b| :: AllAdmissible(cat, (a + b)[i])
    ensures var ra, rb, r := ExpandItems(cat, o, a), ExpandItems(cat, o, b), ExpandItems(cat, o, a + b);
      && (ra.Failure? ==> r == Failure(ra.error))
      && (ra.Success? && rb.Failure? ==> r == Failure(rb.error))
      && (ra.Success? && rb.Success? ==> r == Success(ra.value + rb.value))
    decreases |a|
  {
    if |a| == 0 {
      assert a + b == b;
      if ExpandItems(cat, o, b).Success? {
        assert [] + ExpandItems(cat, o, b).value == ExpandItems(cat, o, b).value;
      }
    } else {
      assert (a + b)[0] == a[0] && (a + b)[1..] == a[1..] + b;
      ExpandItemsAppend(cat, o, a[1..], b);
      var head, ra, rb := ExpandValue(cat, o, a[0]), ExpandItems(cat, o, a[1..]), ExpandItems(cat, o, b);
      if head.Success? && ra.Success? && rb.Success? {
        assert head.value + (ra.value + rb.value) == (head.value + ra.value) + rb.value;
      }
    }
  }

  /**
   * A list expands to the concatenation of its elements' expansions; with
   * `distinct` the result has no repeats, the same elements and
   * first-occurrence order; with `sort` it is ascending; with neither it is
   * the concatenation itself (expand.ts:99-115).
   */
  lemma ExpandList(cat: Catalog, o: Options, items: seq<Value>)
    requires forall i | 0 <= i < |items| :: AllAdmissible(cat, items[i])
    ensures AllAdmissible(cat, Arr(items))
    ensures var all, r := ExpandItems(cat, o, items), ExpandValue(cat, o, Arr(items));
      && (all.Failure? ==> r == Failure(all.error))
      && (all.Success? ==>
            && r.Success?
            && Elements(r.value) == Elements(all.value)
            && (!o.distinct ==> multiset(r.value) == multiset(all.value))
            && (!o.distinct && !o.sort ==> r.value == all.value)
            && (o.distinct ==> NoDuplicates(r.value))
            && (o.distinct && !o.sort ==>
                  forall i, j | 0 <= i < j < |r.value| :: FirstIndex(all.value, r.value[i]) < FirstIndex(all.value, r.value[j]))
            && (o.sort ==> Sorted(r.value))
            && (o.distinct && o.sort ==> StrictlySorted(r.value)))
  {
    var all := ExpandItems(cat, o, items);
    if all.Success? {
      var unique := if o.distinct then Dedupe(all.value) else all.value;
      if o.sort {
        SortMembers(unique);
        assert Elements(Sort(unique)) == Elements(unique);
        if o.distinct {
          NoDuplicatesMultiset(unique, Sort(unique));
          assert Sort(unique) == SortedSet(all.value);
        }
      }
    }
  }

  /**
   * With `distinct` and `sort` the result depends only on which actions
   * the elements expand to: expanding `a + b` and `b + a` agree.
   */
  lemma ExpandUnionCommutes(cat: Catalog, o: Options, a: seq<Value>, b: seq<Value>)
    requires o.distinct && o.sort
    requires forall i | 0 <= i < |a| :: AllAdmissible(cat, a[i])
    requires forall i | 0 <= i < |b| :: AllAdmissible(cat, b[i])
    requires ExpandItems(cat, o, a).Success? && ExpandItems(cat, o, b).Success?
    ensures AllAdmissible(cat, Arr(a + b)) && AllAdmissible(cat, Arr(b + a))
    ensures ExpandValue(cat, o, Arr(a + b)) == ExpandValue(cat, o, Arr(b + a))
  {
    ExpandItemsAppend(cat, o, a, b);
    ExpandItemsAppend(cat, o, b, a);
    ExpandList(cat, o, a + b);
    ExpandList(cat, o, b + a);
    var ra, rb := ExpandItems(cat, o, a).value, ExpandItems(cat, o, b).value;
    assert Elements(ra + rb) == Elements(rb + ra);
    StrictlySortedUnique(ExpandValue(cat, o, Arr(a + b)).value, ExpandValue(cat, o, Arr(b + a)).value);
  }

  /** A qualified catalog action: `service:action` for an action the catalog lists under `service` */
  predicate CatalogAction(cat: Catalog, x: string) {
    exists k, a | k in ServiceKeys(cat) && a in ActionsFor(cat, k) :: x == Qualify(k, a)
  }

  /** A list of qualified catalog actions expands element by element to itself */
  lemma {:induction false} ExpandCatalogActions(cat: Catalog, o: Options, xs: seq<string>)
    requires WellFormed(cat)
    requires forall x | x in xs :: CatalogAction(cat, x)
    ensures forall i | 0 <= i < |xs| :: AllAdmissible(cat, Strs(xs)[i])
    ensures ExpandItems(cat, o, Strs(xs)) == Success(xs)
  {
    CatalogActionsAdmissible(cat, xs);
    if |xs| > 0 {
      assert forall x | x in xs[1..] :: x in xs;
      ExpandCatalogActions(cat, o, xs[1..]);
      ExpandCatalogAction(cat, o, xs[0]);
      ExpandCatalogActionsStep(cat, o, xs);
    }
  }

  lemma ExpandCatalogActionsStep(cat: Catalog, o: Options, xs: seq<string>)
    requires |xs| > 0
    requires forall i | 0 <= i < |xs| :: AllAdmissible(cat, Strs(xs)[i])
    requires forall i | 0 <= i < |xs| - 1 :: AllAdmissible(cat, Strs(xs[1..])[i])
    requires ExpandValue(cat, o, Strs(xs)[0]) == Success([xs[0]])
    requires ExpandItems(cat, o, Strs(xs[1..])) == Success(xs[1..])
    ensures ExpandItems(cat, o, Strs(xs)) == Success(xs)
  {
    StrsCons(xs);
    ExpandItemsCons(cat, o, Strs(xs), [xs[0]], xs[1..]);
  }

  /** `Strs` of a non-empty list is its head's string before the rest's `Strs` */
  lemma StrsCons(xs: seq<string>)
    requires |xs| > 0
    ensures Strs(xs)[0] == Str(xs[0]) && Strs(xs)[1..] == Strs(xs[1..]) && [xs[0]] + xs[1..] == xs
  {
    assert Strs(xs)[1..] == Strs(xs[1..]);
  }

  lemma CatalogActionsAdmissible(cat: Catalog, xs: seq<string>)
    requires WellFormed(cat)
    requires forall x | x in xs :: CatalogAction(cat, x)
    ensures forall i | 0 <= i < |xs| :: AllAdmissible(cat, Strs(xs)[i])
  {
    forall i | 0 <= i < |xs| ensures AllAdmissible(cat, Strs(xs)[i]) {
      ExpandCatalogAction(cat, Defaults, xs[i]);
    }
  }

  lemma ExpandItemsCons(cat: Catalog, o: Options, v: seq<Value>, head: seq<string>, rest: seq<string>)
    requires |v| > 0 && forall i | 0 <= i < |v| :: AllAdmissible(cat, v[i])
    requires ExpandValue(cat, o, v[0]) == Success(head) && ExpandItems(cat, o, v[1..]) == Success(rest)
    ensures ExpandItems(cat, o, v) == Success(head + rest)
  {
  }

  lemma ExpandCatalogAction(cat: Catalog, o: Options, x: string)
    requires WellFormed(cat) && CatalogAction(cat, x)
    ensures AllAdmissible(cat, Str(x)) && ExpandValue(cat, o, Str(x)) == Success([x])
  {
    var k, a :| k in ServiceKeys(cat) && a in ActionsFor(cat, k) && x == Qualify(k, a);
    ExpandQualifiedAction(cat, o, k, a);
    assert Truthy(Str(x)) by {
      assert x[|k|] == ':';
    }
  }

  /**
   * Expanding is idempotent on lists: when a list expands to qualified
   * catalog actions only, expanding that output again with the same
   * options gives it back unchanged.
   */
  lemma ExpandIdempotent(cat: Catalog, o: Options, items: seq<Value>)
    requires WellFormed(cat)
    requires forall i | 0 <= i < |items| :: AllAdmissible(cat, items[i])
    requires ExpandValue(cat, o, Arr(items)).Success?
    requires forall x | x in ExpandValue(cat, o, Arr(items)).value :: CatalogAction(cat, x)
    ensures var r := ExpandValue(cat, o, Arr(items)).value;
      AllAdmissible(cat, Arr(Strs(r))) && ExpandValue(cat, o, Arr(Strs(r))) == Success(r)
  {
    ExpandList(cat, o, items);
    var r := ExpandValue(cat, o, Arr(items)).value;
    ExpandCatalogActions(cat, o, r);
    if o.distinct {
      DedupeNoDuplicates(r);
    }
    if o.sort {
      SortSorted(r);
    }
  }
}
