/**
 * The permission catalog, which the code reads through the
 * `@cloud-copilot/iam-data` package. The package is outside this model: the
 * catalog is an ordinary value handed to every operation, and each lookup
 * the code makes is a function of that value.
 */
module Catalog {
  import opened Text

  /** One service: its key and its action names, in catalog casing and catalog order */
  datatype Service = Service(key: string, actions: seq<string>)

  datatype Catalog = Catalog(services: seq<Service>)

  /** `iamServiceKeys()`: the service keys in catalog order */
  function ServiceKeys(cat: Catalog): seq<string> {
    seq(|cat.services|, i requires 0 <= i < |cat.services| => cat.services[i].key)
  }

  /** `iamServiceExists(key)`: the key is compared exactly */
  predicate ServiceExists(cat: Catalog, key: string) {
    key in ServiceKeys(cat)
  }

  function ActionsIn(services: seq<Service>, key: string): seq<string> {
    if |services| == 0 then []
    else if services[0].key == key then services[0].actions
    else ActionsIn(services[1..], key)
  }

  /** `iamActionsForService(key)`: the actions of the first service with that key, none for an unknown key */
  function ActionsFor(cat: Catalog, key: string): (acts: seq<string>)
    ensures !ServiceExists(cat, key) ==> acts == []
    ensures ServiceExists(cat, key) ==>
              exists i | 0 <= i < |cat.services| :: cat.services[i].key == key && acts == cat.services[i].actions
  {
    ActionsInFacts(cat.services, key);
    assert forall i | 0 <= i < |cat.services| :: ServiceKeys(cat)[i] == cat.services[i].key;
    ActionsIn(cat.services, key)
  }

  lemma {:induction false} ActionsInFacts(services: seq<Service>, key: string)
    ensures (forall i | 0 <= i < |services| :: services[i].key != key) ==> ActionsIn(services, key) == []
    ensures (exists i | 0 <= i < |services| :: services[i].key == key) ==>
              exists i | 0 <= i < |services| :: services[i].key == key && ActionsIn(services, key) == services[i].actions
  {
    if |services| > 0 {
      ActionsInFacts(services[1..], key);
      if services[0].key != key {
        if exists i | 0 <= i < |services| :: services[i].key == key {
          var i :| 0 <= i < |services| && services[i].key == key;
          assert services[1..][i - 1].key == key;
          var j :| 0 <= j < |services[1..]| && services[1..][j].key == key && ActionsIn(services[1..], key) == services[1..][j].actions;
          assert services[j + 1] == services[1..][j];
        }
      }
    }
  }

  /** `iamActionExists(service, action)`: some action of the service equals `action` ignoring case */
  predicate ActionExists(cat: Catalog, key: string, action: string) {
    exists a | a in ActionsFor(cat, key) :: LowerStr(a) == LowerStr(action)
  }

  function FirstSameCase(actions: seq<string>, action: string): (name: string)
    requires exists a | a in actions :: LowerStr(a) == LowerStr(action)
    ensures name in actions && LowerStr(name) == LowerStr(action)
    ensures forall j | 0 <= j < |actions| && actions[j] != name :: LowerStr(actions[j]) == LowerStr(action) ==> exists i | 0 <= i < j :: actions[i] == name
  {
    if LowerStr(actions[0]) == LowerStr(action) then actions[0]
    else
      var name := FirstSameCase(actions[1..], action);
      assert forall j | 1 <= j < |actions| :: actions[j] == actions[1..][j - 1];
      name
  }

  /** `iamActionDetails(service, action).name`: the catalog casing of the action */
  function CanonicalName(cat: Catalog, key: string, action: string): (name: string)
    requires ActionExists(cat, key, action)
    ensures name in ActionsFor(cat, key) && LowerStr(name) == LowerStr(action)
  {
    FirstSameCase(ActionsFor(cat, key), action)
  }

  /** The `${service}:${action}` template */
  function Qualify(service: string, action: string): string {
    service + ":" + action
  }

  /** `actions.map(action => `${service}:${action}`)` */
  function QualifyAll(service: string, actions: seq<string>): (r: seq<string>)
    ensures |r| == |actions| && forall i :: 0 <= i < |r| ==> r[i] == Qualify(service, actions[i])
  {
    seq(|actions|, i requires 0 <= i < |actions| => Qualify(service, actions[i]))
  }

  /** The qualified names are those of the given actions */
  lemma QualifyAllMembers(service: string, actions: seq<string>)
    ensures forall x :: x in QualifyAll(service, actions) <==> exists a | a in actions :: x == Qualify(service, a)
  {
    var r := QualifyAll(service, actions);
    forall x ensures x in r <==> exists a | a in actions :: x == Qualify(service, a) {
      if x in r {
        var i :| 0 <= i < |r| && r[i] == x;
        assert actions[i] in actions;
      }
      if exists a | a in actions :: x == Qualify(service, a) {
        var a :| a in actions && x == Qualify(service, a);
        var i :| 0 <= i < |actions| && actions[i] == a;
        assert r[i] == x;
      }
    }
  }

  /** `${service}:${action}` for the given keys, key by key and each key's actions in catalog order */
  function QualifiedFrom(cat: Catalog, keys: seq<string>): (r: seq<string>)
    ensures forall x :: x in r <==> exists k, a | k in keys && a in ActionsFor(cat, k) :: x == Qualify(k, a)
  {
    if |keys| == 0 then []
    else
      var head := QualifyAll(keys[0], ActionsFor(cat, keys[0]));
      var rest := QualifiedFrom(cat, keys[1..]);
      QualifyAllMembers(keys[0], ActionsFor(cat, keys[0]));
      assert forall k | k in keys :: k == keys[0] || k in keys[1..];
      head + rest
  }

  /** Every `${service}:${action}` of the catalog, in catalog order (expand.ts:122-124) */
  function AllQualified(cat: Catalog): (r: seq<string>)
    ensures forall x :: x in r <==> exists k, a | k in ServiceKeys(cat) && a in ActionsFor(cat, k) :: x == Qualify(k, a)
  {
    QualifiedFrom(cat, ServiceKeys(cat))
  }

  /** A qualified name determines its parts when the service key has no `:` */
  lemma QualifyInjective(k1: string, a1: string, k2: string, a2: string)
    requires ':' !in k1 && ':' !in k2
    requires Qualify(k1, a1) == Qualify(k2, a2)
    ensures k1 == k2 && a1 == a2
  {
    var s := Qualify(k1, a1);
    assert s[|k1|] == ':' && s[..|k1|] == k1;
    assert s[|k2|] == ':' && Qualify(k2, a2)[..|k2|] == k2;
    assert s[|k1| + 1..] == a1;
    assert Qualify(k2, a2)[|k2| + 1..] == a2;
  }

  predicate NameChar(c: char) {
    IsUpperAscii(c) || IsLowerAscii(c) || IsDigit(c) || c == '-'
  }

  /** The shape of every IAM service key and action name: letters, digits and `-` */
  predicate IamName(s: string) {
    |s| > 0 && forall i :: 0 <= i < |s| ==> NameChar(s[i])
  }

  /**
   * What the catalog package is relied on for where a property needs it:
   * keys are lower-case names, actions are names, and no two actions of a
   * service differ only in case.
   */
  predicate WellFormed(cat: Catalog) {
    forall i | 0 <= i < |cat.services| ::
      && IamName(cat.services[i].key)
      && LowerStr(cat.services[i].key) == cat.services[i].key
      && (forall j | 0 <= j < |cat.services[i].actions| :: IamName(cat.services[i].actions[j]))
      && (forall j, k | 0 <= j < k < |cat.services[i].actions| ::
            LowerStr(cat.services[i].actions[j]) != LowerStr(cat.services[i].actions[k]))
  }

  /** In a well-formed catalog an action is its own canonical name */
  lemma CanonicalNameOfAction(cat: Catalog, key: string, a: string)
    requires WellFormed(cat)
    requires a in ActionsFor(cat, key)
    ensures ActionExists(cat, key, LowerStr(a))
    ensures CanonicalName(cat, key, LowerStr(a)) == a
  {
    LowerIdempotent(a);
    var acts := ActionsFor(cat, key);
    var name := CanonicalName(cat, key, LowerStr(a));
    var i :| 0 <= i < |cat.services| && cat.services[i].key == key && acts == cat.services[i].actions;
    LowerIdempotent(name);
  }

  /** In a well-formed catalog a service key is a lower-case name without `:` */
  lemma KeyFacts(cat: Catalog, key: string)
    requires WellFormed(cat)
    requires key in ServiceKeys(cat)
    ensures IamName(key) && LowerStr(key) == key && ':' !in key
  {
    var i :| 0 <= i < |cat.services| && ServiceKeys(cat)[i] == key;
    assert cat.services[i].key == key;
  }

  /** A name is ASCII and free of `:`, `*`, `?` and white space */
  lemma NameFacts(s: string)
    requires IamName(s)
    ensures IsAscii(s) && ':' !in s && '*' !in s && '?' !in s
    ensures !IsJsSpace(s[0]) && !IsJsSpace(s[|s| - 1])
  {
    assert forall c | c in s :: NameChar(c);
  }

  /** In a well-formed catalog every action of a service is a name */
  lemma ActionFacts(cat: Catalog, key: string, a: string)
    requires WellFormed(cat)
    requires a in ActionsFor(cat, key)
    ensures IamName(a)
  {
    var i :| 0 <= i < |cat.services| && cat.services[i].key == key && ActionsFor(cat, key) == cat.services[i].actions;
    var j :| 0 <= j < |cat.services[i].actions| && cat.services[i].actions[j] == a;
  }
}
