/**
 * invert.ts: `invert`, every catalog action that none of the given
 * patterns matches, de-duplicated and sorted.
 *
 * The loop of invert.ts:21-39 gathers an `Exclusions` value; the catalog is
 * then walked service by service (invert.ts:45-58).
 */
module Invert {
  import opened Wrappers
  import Errors
  import opened Text
  import opened Ordering
  import opened Wildcard
  import opened Catalog
  import opened Json

  /**
   * `allActionsFound`, `servicesToExclude` and `excludePatterns`; a
   * pattern is kept as the lower-cased text `convertStringToPattern`
   * compiles.
   */
  datatype Exclusions = Exclusions(everything: bool, services: set<string>, patterns: map<string, seq<string>>)

  const Nothing := Exclusions(false, {}, map[])

  /** `excludePatterns[service] || []` */
  function Patterns(ex: Exclusions, service: string): seq<string> {
    if service in ex.patterns then ex.patterns[service] else []
  }

  /**
   * The lower-case names `excludePatterns`, a plain object, inherits from
   * `Object.prototype`: there `excludePatterns[service]` is already set, to
   * something that is not an array.
   */
  const InheritedLowerNames: set<string> := {"constructor", "__proto__"}

  /** Every property name of `Object.prototype` */
  const InheritedNames: set<string> := InheritedLowerNames + {
    "__defineGetter__", "__defineSetter__", "__lookupGetter__", "__lookupSetter__",
    "hasOwnProperty", "isPrototypeOf", "propertyIsEnumerable", "toLocaleString", "toString", "valueOf"}

  /** The `service` and lower-cased pattern of an element `service:pattern` */
  predicate PatternFor(v: Value, service: string, pattern: string) {
    && v.Str?
    && var parts := Split(v.s, ':');
    && |parts| == 2
    && LowerStr(parts[0]) == service && LowerStr(parts[1]) == pattern
  }

  /** `service:***`: every action of the service is to go */
  ghost predicate WholeService(v: Value, service: string) {
    exists p | PatternFor(v, service, p) :: AllAsterisks(p)
  }

  /** A pattern that is compiled and kept for `service` */
  predicate KeptPattern(v: Value, service: string, pattern: string) {
    PatternFor(v, service, pattern) && !AllAsterisks(pattern)
  }

  /** An element the loop throws on: not a string, or a kept pattern whose service is an inherited name */
  ghost predicate Throws(v: Value) {
    || !v.Str?
    || (!AllAsterisks(v.s) && exists s, p | s in InheritedLowerNames :: KeptPattern(v, s, p))
  }

  /**
   * The elements whose handling the model states exactly: the text of a
   * `service:pattern` element is ASCII and its pattern is a `SafePattern`.
   */
  predicate Admissible(v: Value) {
    v.Str? ==>
      var parts := Split(v.s, ':');
      |parts| == 2 ==> IsAscii(v.s) && SafePattern(LowerStr(parts[1]))
  }

  /** How the loop of invert.ts:21-39 treats one element */
  datatype Treatment = Throw | Stop | Continue

  function Classify(v: Value): (t: Treatment)
    ensures t == Throw <==> Throws(v)
    ensures t == Stop <==> v.Str? && AllAsterisks(v.s)
  {
    if !v.Str? then Throw
    else if AllAsterisks(v.s) then Stop
    else
      var parts := Split(v.s, ':');
      if |parts| != 2 then Continue
      else
        var service, pattern := LowerStr(parts[0]), LowerStr(parts[1]);
        if AllAsterisks(pattern) || service !in InheritedLowerNames then Continue
        else
          assert KeptPattern(v, service, pattern);
          Throw
  }

  predicate AdmissibleItems(items: seq<Value>) {
    forall v | v in items :: Admissible(v)
  }

  /**
   * The loop of invert.ts:21-39 from exclusions `ex` onwards. It stops at an
   * all-asterisk element, skips one that is not `service:pattern`, excludes
   * the service of `service:***`, and otherwise appends the pattern to its
   * service's list. `.match` on a non-string throws, and so does `.push`
   * on what an inherited name holds.
   */
  function Collect(items: seq<Value>, ex: Exclusions): (r: Result<Exclusions, Errors.Error>)
    requires AdmissibleItems(items)
    ensures r.Failure? ==> r.error == Errors.TypeError
  {
    if |items| == 0 then Success(ex)
    else
      match Classify(items[0])
      case Throw => Failure(Errors.TypeError)
      case Stop => Success(ex.(everything := true))
      case Continue => Collect(items[1..], Step(items[0], ex))
  }

  /**
   * What the loop's outcome `r` says about `items`, run from exclusions
   * `ex`: it failed only on an element that throws; it excluded everything
   * only from an all-asterisk element; otherwise every element was a
   * string, and the excluded services and the kept patterns are those of
   * `ex` together with those the elements name.
   */
  ghost predicate Gathers(items: seq<Value>, ex: Exclusions, r: Result<Exclusions, Errors.Error>) {
    && (r.Failure? ==> r.error == Errors.TypeError && exists v | v in items :: Throws(v))
    && (r.Success? && r.value.everything ==>
          ex.everything || exists v | v in items :: v.Str? && AllAsterisks(v.s))
    && (r.Success? && !r.value.everything ==>
          && !ex.everything
          && (forall v | v in items :: v.Str? && !AllAsterisks(v.s))
          && (forall k :: k in r.value.services <==>
                k in ex.services || exists v | v in items :: WholeService(v, k))
          && (forall k, p :: p in Patterns(r.value, k) <==>
                p in Patterns(ex, k) || exists v | v in items :: KeptPattern(v, k, p)))
  }

  /** The loop gathers exactly what its elements name */
  lemma {:induction false} CollectMeaning(items: seq<Value>, ex: Exclusions)
    requires AdmissibleItems(items)
    ensures Gathers(items, ex, Collect(items, ex))
    decreases |items|
  {
    if |items| > 0 {
      assert items[0] in items;
      if Classify(items[0]) == Continue {
        var next := Step(items[0], ex);
        assert forall v | v in items[1..] :: v in items;
        CollectMeaning(items[1..], next);
        CollectShift(items, Collect(items[1..], next), ex);
      }
    }
  }

  /** What the head element of the loop adds to the exclusions */
  function Step(v: Value, ex: Exclusions): Exclusions
    requires v.Str?
  {
    var parts := Split(v.s, ':');
    if |parts| != 2 then ex
    else
      var service, pattern := LowerStr(parts[0]), LowerStr(parts[1]);
      if AllAsterisks(pattern) then ex.(services := ex.services + {service})
      else ex.(patterns := ex.patterns[service := Patterns(ex, service) + [pattern]])
  }

  lemma StepFacts(v: Value, ex: Exclusions)
    requires v.Str?
    ensures forall k :: k in Step(v, ex).services <==> k in ex.services || WholeService(v, k)
    ensures forall k, p :: p in Patterns(Step(v, ex), k) <==> p in Patterns(ex, k) || KeptPattern(v, k, p)
    ensures Step(v, ex).everything == ex.everything
  {
    StepServices(v, ex);
    StepPatterns(v, ex);
  }

  lemma StepServices(v: Value, ex: Exclusions)
    requires v.Str?
    ensures forall k :: k in Step(v, ex).services <==> k in ex.services || WholeService(v, k)
  {
    var parts := Split(v.s, ':');
    if |parts| == 2 {
      var service, pattern := LowerStr(parts[0]), LowerStr(parts[1]);
      assert forall k, p :: PatternFor(v, k, p) <==> k == service && p == pattern;
      if AllAsterisks(pattern) {
        assert WholeService(v, service);
      }
    }
  }

  lemma StepPatterns(v: Value, ex: Exclusions)
    requires v.Str?
    ensures forall k, p :: p in Patterns(Step(v, ex), k) <==> p in Patterns(ex, k) || KeptPattern(v, k, p)
  {
    var parts := Split(v.s, ':');
    var next := Step(v, ex);
    if |parts| == 2 {
      var service, pattern := LowerStr(parts[0]), LowerStr(parts[1]);
      assert forall k, p :: KeptPattern(v, k, p) <==> k == service && p == pattern && !AllAsterisks(pattern);
      if !AllAsterisks(pattern) {
        assert next.patterns == ex.patterns[service := Patterns(ex, service) + [pattern]];
        forall k, p ensures p in Patterns(next, k) <==> p in Patterns(ex, k) || KeptPattern(v, k, p) {
          if k == service {
            assert Patterns(next, k) == Patterns(ex, k) + [pattern];
          } else {
            assert Patterns(next, k) == Patterns(ex, k);
          }
        }
      } else {
        assert next.patterns == ex.patterns;
      }
    } else {
      assert next == ex;
      assert forall k, p :: !KeptPattern(v, k, p);
    }
  }

  /** The step of `Collect` from the rest of the list to the whole of it */
  lemma CollectShift(items: seq<Value>, r: Result<Exclusions, Errors.Error>, ex: Exclusions)
    requires |items| > 0 && Classify(items[0]) == Continue
    requires Gathers(items[1..], Step(items[0], ex), r)
    ensures Gathers(items, ex, r)
  {
    var head, rest := items[0], items[1..];
    assert items == [head] + rest;
    assert forall v :: v in items <==> v == head || v in rest;
    StepFacts(head, ex);
  }

  /** `excludePatternsForService.some(pattern => action.match(pattern))` */
  predicate MatchesAny(patterns: seq<string>, action: string) {
    exists p | p in patterns :: Matches(p, action)
  }

  /** The actions of one service that no pattern matches, in catalog order */
  function Unmatched(actions: seq<string>, patterns: seq<string>): (r: seq<string>)
    ensures Subsequence(r, actions)
    ensures forall a :: a in r <==> a in actions && !MatchesAny(patterns, a)
  {
    if |actions| == 0 then []
    else if MatchesAny(patterns, actions[0]) then Unmatched(actions[1..], patterns)
    else [actions[0]] + Unmatched(actions[1..], patterns)
  }

  /** invert.ts:46-58 for one catalog service */
  function ServiceRemainder(cat: Catalog, ex: Exclusions, key: string): (r: seq<string>)
    ensures forall x :: x in r <==>
              exists a | a in ActionsFor(cat, key) :: key !in ex.services && !MatchesAny(Patterns(ex, key), a) && x == Qualify(key, a)
  {
    if key in ex.services then []
    else
      var actions, patterns := ActionsFor(cat, key), Patterns(ex, key);
      var kept := if |patterns| == 0 then actions else Unmatched(actions, patterns);
      assert forall a :: a in kept <==> a in actions && !MatchesAny(patterns, a);
      var r := QualifyAll(key, kept);
      QualifyAllMembers(key, kept);
      r
  }

  /** `actionLists.flat()` over the given service keys */
  function Remaining(cat: Catalog, ex: Exclusions, keys: seq<string>): (r: seq<string>)
    ensures forall x :: x in r <==>
              exists k, a | k in keys && a in ActionsFor(cat, k) ::
                k !in ex.services && !MatchesAny(Patterns(ex, k), a) && x == Qualify(k, a)
  {
    if |keys| == 0 then []
    else
      var head, rest := ServiceRemainder(cat, ex, keys[0]), Remaining(cat, ex, keys[1..]);
      assert forall k | k in keys :: k == keys[0] || k in keys[1..];
      head + rest
  }

  /**
   * Catalog keys that a lookup in a plain object would confuse with an
   * inherited property are left out of the model.
   */
  predicate PlainKeys(cat: Catalog) {
    forall k | k in ServiceKeys(cat) :: k !in InheritedNames
  }

  /** The argument as the list invert.ts:20 walks */
  function ItemsOf(v: Value): seq<Value> {
    if v.Arr? then v.items else [v]
  }

  /**
   * `invert(actionStringOrStrings)`: a falsy argument is rejected; an
   * all-asterisk element leaves nothing; otherwise every catalog action
   * that survives the exclusions, de-duplicated and sorted.
   */
  function InvertActions(cat: Catalog, v: Value): (r: Result<seq<string>, Errors.Error>)
    requires PlainKeys(cat)
    requires AdmissibleItems(ItemsOf(v))
    ensures r.Failure? <==> !Truthy(v) || Collect(ItemsOf(v), Nothing).Failure?
    ensures r.Failure? ==>
              || (!Truthy(v) && r.error == Errors.InvalidInput)
              || (r.error == Errors.TypeError && exists x | x in ItemsOf(v) :: Throws(x))
    ensures r.Success? ==> StrictlySorted(r.value)
  {
    if !Truthy(v) then Failure(Errors.InvalidInput)
    else
      CollectMeaning(ItemsOf(v), Nothing);
      var ex :- Collect(ItemsOf(v), Nothing);
      Success(Survivors(cat, ex))
  }

  /** invert.ts:41-60: nothing once everything is excluded, else the catalog actions the exclusions spare */
  function Survivors(cat: Catalog, ex: Exclusions): (r: seq<string>)
    ensures StrictlySorted(r)
  {
    if ex.everything then [] else SortedSet(Remaining(cat, ex, ServiceKeys(cat)))
  }

  /** Whether some element of `items` removes action `a` of service `k` */
  ghost predicate Excluded(items: seq<Value>, k: string, a: string) {
    exists u | u in items :: WholeService(u, k) || exists p | KeptPattern(u, k, p) :: Matches(p, a)
  }

  /** A successful `invert` with no all-asterisk element walks the catalog */
  lemma InvertUnfold(cat: Catalog, v: Value)
    requires PlainKeys(cat)
    requires AdmissibleItems(ItemsOf(v))
    requires InvertActions(cat, v).Success?
    requires forall u | u in ItemsOf(v) :: !(u.Str? && AllAsterisks(u.s))
    ensures Collect(ItemsOf(v), Nothing).Success? && !Collect(ItemsOf(v), Nothing).value.everything
    ensures InvertActions(cat, v).value == SortedSet(Remaining(cat, Collect(ItemsOf(v), Nothing).value, ServiceKeys(cat)))
  {
    CollectMeaning(ItemsOf(v), Nothing);
  }

  /** What the exclusions gathered from `items` mean for one action */
  lemma ExclusionsMeaning(items: seq<Value>, ex: Exclusions)
    requires forall k :: k in ex.services <==> exists u | u in items :: WholeService(u, k)
    requires forall k, p :: p in Patterns(ex, k) <==> exists u | u in items :: KeptPattern(u, k, p)
    ensures forall k, a :: (k !in ex.services && !MatchesAny(Patterns(ex, k), a)) <==> !Excluded(items, k, a)
  {
    forall k, a ensures (k !in ex.services && !MatchesAny(Patterns(ex, k), a)) <==> !Excluded(items, k, a) {
      if MatchesAny(Patterns(ex, k), a) {
        var p :| p in Patterns(ex, k) && Matches(p, a);
        var u :| u in items && KeptPattern(u, k, p);
        assert Excluded(items, k, a);
      }
      if Excluded(items, k, a) && k !in ex.services {
        var u :| u in items && (WholeService(u, k) || exists p | KeptPattern(u, k, p) :: Matches(p, a));
        var p :| KeptPattern(u, k, p) && Matches(p, a);
        assert p in Patterns(ex, k);
      }
    }
  }

  /**
   * The result of a successful `invert` with no all-asterisk element holds
   * exactly the catalog actions that no element excludes.
   */
  lemma InvertMembership(cat: Catalog, v: Value)
    requires PlainKeys(cat)
    requires AdmissibleItems(ItemsOf(v))
    requires InvertActions(cat, v).Success?
    requires forall u | u in ItemsOf(v) :: !(u.Str? && AllAsterisks(u.s))
    ensures forall x :: x in InvertActions(cat, v).value <==>
              exists k, a | k in ServiceKeys(cat) && a in ActionsFor(cat, k) ::
                x == Qualify(k, a) && !Excluded(ItemsOf(v), k, a)
  {
    InvertUnfold(cat, v);
    var items := ItemsOf(v);
    var ex := Collect(items, Nothing).value;
    CollectFromNothing(items);
    RemainingMeaning(cat, items, ex);
    var flat := Remaining(cat, ex, ServiceKeys(cat));
    assert forall x :: x in InvertActions(cat, v).value <==> x in flat by {
      assert forall x :: x in SortedSet(flat) <==> x in Elements(flat);
    }
  }

  /** Run from no exclusions, the loop excludes the services and keeps the patterns the elements name */
  lemma CollectFromNothing(items: seq<Value>)
    requires AdmissibleItems(items)
    requires Collect(items, Nothing).Success? && !Collect(items, Nothing).value.everything
    ensures var ex := Collect(items, Nothing).value;
      && (forall k :: k in ex.services <==> exists u | u in items :: WholeService(u, k))
      && (forall k, p :: p in Patterns(ex, k) <==> exists u | u in items :: KeptPattern(u, k, p))
  {
    CollectMeaning(items, Nothing);
  }

  /** The catalog walk keeps exactly the actions that no element of `items` excludes */
  lemma RemainingMeaning(cat: Catalog, items: seq<Value>, ex: Exclusions)
    requires forall k :: k in ex.services <==> exists u | u in items :: WholeService(u, k)
    requires forall k, p :: p in Patterns(ex, k) <==> exists u | u in items :: KeptPattern(u, k, p)
    ensures forall x :: x in Remaining(cat, ex, ServiceKeys(cat)) <==>
              exists k, a | k in ServiceKeys(cat) && a in ActionsFor(cat, k) ::
                x == Qualify(k, a) && !Excluded(items, k, a)
  {
    ExclusionsMeaning(items, ex);
  }

  /** Everything goes once the loop reaches an all-asterisk element */
  lemma {:induction false} CollectStops(items: seq<Value>, ex: Exclusions, i: nat)
    requires AdmissibleItems(items)
    requires i < |items| && items[i].Str? && AllAsterisks(items[i].s)
    requires forall j | 0 <= j < i :: !Throws(items[j])
    ensures Collect(items, ex).Success? && Collect(items, ex).value.everything
    decreases i
  {
    if i > 0 {
      if Classify(items[0]) == Continue {
        CollectStops(items[1..], Step(items[0], ex), i - 1);
      }
    }
  }

  /**
   * invert.ts:24-26: once every element before an all-asterisk one is
   * handled without an exception, the result is empty.
   */
  lemma InvertAllAsterisks(cat: Catalog, v: Value, i: nat)
    requires PlainKeys(cat)
    requires AdmissibleItems(ItemsOf(v))
    requires i < |ItemsOf(v)| && ItemsOf(v)[i].Str? && AllAsterisks(ItemsOf(v)[i].s)
    requires forall j | 0 <= j < i :: !Throws(ItemsOf(v)[j])
    requires Truthy(v)
    ensures InvertActions(cat, v) == Success([])
  {
    CollectStops(ItemsOf(v), Nothing, i);
  }

  /** The list without its element at `i` */
  function Without<T>(xs: seq<T>, i: nat): (r: seq<T>)
    requires i < |xs|
    ensures |r| == |xs| - 1
    ensures forall j | 0 <= j < |r| :: r[j] == if j < i then xs[j] else xs[j + 1]
    ensures forall x | x in r :: x in xs
  {
    xs[..i] + xs[i + 1..]
  }

  /** One turn of the loop */
  lemma CollectCons(items: seq<Value>, ex: Exclusions)
    requires AdmissibleItems(items) && |items| > 0
    ensures AdmissibleItems(items[1..])
    ensures Collect(items, ex) ==
              match Classify(items[0])
              case Throw => Failure(Errors.TypeError)
              case Stop => Success(ex.(everything := true))
              case Continue => Collect(items[1..], Step(items[0], ex))
  {
    assert forall v | v in items[1..] :: v in items;
  }

  /** An element that is not `service:pattern` leaves the loop's state as it was */
  lemma {:induction false} CollectSkip(items: seq<Value>, ex: Exclusions, i: nat)
    requires AdmissibleItems(items)
    requires i < |items| && items[i].Str? && !AllAsterisks(items[i].s) && |Split(items[i].s, ':')| != 2
    ensures AdmissibleItems(Without(items, i))
    ensures Collect(items, ex) == Collect(Without(items, i), ex)
    decreases i
  {
    if i == 0 {
      CollectSkipHead(items, ex);
    } else {
      if Classify(items[0]) == Continue {
        CollectSkip(items[1..], Step(items[0], ex), i - 1);
      }
      CollectSkipLater(items, ex, i);
    }
  }

  lemma CollectSkipHead(items: seq<Value>, ex: Exclusions)
    requires AdmissibleItems(items)
    requires 0 < |items| && items[0].Str? && !AllAsterisks(items[0].s) && |Split(items[0].s, ':')| != 2
    ensures AdmissibleItems(Without(items, 0))
    ensures Collect(items, ex) == Collect(Without(items, 0), ex)
  {
    assert Without(items, 0) == items[1..];
    assert Classify(items[0]) == Continue && Step(items[0], ex) == ex;
  }

  lemma CollectSkipLater(items: seq<Value>, ex: Exclusions, i: nat)
    requires AdmissibleItems(items)
    requires 0 < i < |items|
    requires AdmissibleItems(Without(items[1..], i - 1))
    requires Classify(items[0]) == Continue ==>
               Collect(items[1..], Step(items[0], ex)) == Collect(Without(items[1..], i - 1), Step(items[0], ex))
    ensures AdmissibleItems(Without(items, i))
    ensures Collect(items, ex) == Collect(Without(items, i), ex)
  {
    var rest := Without(items, i);
    assert rest[0] == items[0] && rest[1..] == Without(items[1..], i - 1);
    CollectCons(items, ex);
    CollectCons(rest, ex);
  }

  /** invert.ts:29-30: an element that is not `service:pattern` changes nothing */
  lemma InvertSkipsMalformed(cat: Catalog, xs: seq<Value>, i: nat)
    requires PlainKeys(cat)
    requires AdmissibleItems(xs)
    requires i < |xs| && xs[i].Str? && !AllAsterisks(xs[i].s) && |Split(xs[i].s, ':')| != 2
    ensures AdmissibleItems(Without(xs, i))
    ensures InvertActions(cat, Arr(xs)) == InvertActions(cat, Arr(Without(xs, i)))
  {
    CollectSkip(xs, Nothing, i);
    InvertOfCollect(cat, xs, Without(xs, i));
  }

  /** `invert` sees a list only through the loop's outcome */
  lemma InvertOfCollect(cat: Catalog, xs: seq<Value>, ys: seq<Value>)
    requires PlainKeys(cat)
    requires AdmissibleItems(xs) && AdmissibleItems(ys)
    requires Collect(xs, Nothing) == Collect(ys, Nothing)
    ensures InvertActions(cat, Arr(xs)) == InvertActions(cat, Arr(ys))
  {
    assert ItemsOf(Arr(xs)) == xs && ItemsOf(Arr(ys)) == ys;
  }

  /**
   * invert.ts:50-52: a service that no element names keeps every one of
   * its actions.
   */
  lemma InvertUntouchedService(cat: Catalog, v: Value, k: string)
    requires PlainKeys(cat)
    requires AdmissibleItems(ItemsOf(v))
    requires InvertActions(cat, v).Success?
    requires forall u | u in ItemsOf(v) :: !(u.Str? && AllAsterisks(u.s))
    requires forall u, p | u in ItemsOf(v) :: !PatternFor(u, k, p)
    requires k in ServiceKeys(cat)
    ensures forall a | a in ActionsFor(cat, k) :: Qualify(k, a) in InvertActions(cat, v).value
  {
    InvertMembership(cat, v);
    forall a | a in ActionsFor(cat, k) ensures Qualify(k, a) in InvertActions(cat, v).value {
      assert !Excluded(ItemsOf(v), k, a);
    }
  }

  /** invert.ts:31-33: `service:*` removes every action of the service */
  lemma InvertWholeService(cat: Catalog, v: Value, u: Value, k: string)
    requires WellFormed(cat) && PlainKeys(cat)
    requires AdmissibleItems(ItemsOf(v))
    requires InvertActions(cat, v).Success?
    requires u in ItemsOf(v) && WholeService(u, k)
    ensures forall a :: Qualify(k, a) !in InvertActions(cat, v).value
  {
    var items := ItemsOf(v);
    var ex := Collect(items, Nothing).value;
    CollectMeaning(items, Nothing);
    if !ex.everything {
      var flat := Remaining(cat, ex, ServiceKeys(cat));
      assert InvertActions(cat, v).value == SortedSet(flat);
      assert k in ex.services;
      forall a ensures Qualify(k, a) !in InvertActions(cat, v).value {
        if Qualify(k, a) in InvertActions(cat, v).value {
          assert Qualify(k, a) in Elements(flat);
          var k', a' :| k' in ServiceKeys(cat) && a' in ActionsFor(cat, k') && k' !in ex.services && Qualify(k, a) == Qualify(k', a');
          var p :| PatternFor(u, k, p) && AllAsterisks(p);
          var parts := Split(u.s, ':');
          assert parts[0] in parts;
          LowerStrKeeps(parts[0], ':');
          KeyFacts(cat, k');
          QualifyInjective(k, a, k', a');
        }
      }
    }
  }

  /** invert.ts:24-26 from the other side: a successful `invert` of a list with an all-asterisk element is empty */
  lemma InvertAsteriskEmpty(cat: Catalog, v: Value, u: Value)
    requires PlainKeys(cat)
    requires AdmissibleItems(ItemsOf(v))
    requires InvertActions(cat, v).Success?
    requires u in ItemsOf(v) && u.Str? && AllAsterisks(u.s)
    ensures InvertActions(cat, v).value == []
  {
    var ex := Collect(ItemsOf(v), Nothing).value;
    CollectMeaning(ItemsOf(v), Nothing);
    assert ex.everything;
  }
}
