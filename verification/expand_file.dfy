/**
 * expand_file.ts: `expandJsonDocument`, which walks a JSON document and
 * replaces the value of every `Action` and `NotAction` key that holds a
 * string, or a list that starts with a string, by its expansion.
 *
 * The walk is asynchronous in the source; here it is a plain recursive
 * function and the first failure met in document order is the result.
 */
module ExpandFile {
  import opened Wrappers
  import Errors
  import opened Catalog
  import opened Json
  import opened Ordering
  import opened Expand

  /** `key === 'Action' || key === 'NotAction'`; an array element has no key */
  predicate ActionKey(key: Option<string>) {
    key == Some("Action") || key == Some("NotAction")
  }

  /** A string, or a non-empty list whose first element is a string */
  predicate ActionValue(v: Value) {
    v.Str? || (v.Arr? && |v.items| > 0 && v.items[0].Str?)
  }

  /** The value under `key` is handed to `expandIamActions` */
  predicate Expandable(key: Option<string>, v: Value) {
    ActionKey(key) && ActionValue(v)
  }

  /** The options with `distinct` forced on, as expand_file.ts:17 passes them */
  function ForceDistinct(ov: Overrides): (r: Overrides)
    ensures Resolve(r).distinct
    ensures Resolve(r) == Resolve(ov).(distinct := true)
  {
    ov.(distinct := Some(true))
  }

  /**
   * The documents the model covers: every value handed to
   * `expandIamActions` is admissible, and every object has distinct keys,
   * none of them `__proto__` (assigning that key would set the new
   * object's prototype instead of a property).
   */
  predicate AdmissibleDocument(cat: Catalog, v: Value, key: Option<string>)
    decreases v
  {
    if Expandable(key, v) then AllAdmissible(cat, v)
    else
      match v
      case Arr(items) => forall i | 0 <= i < |items| :: AdmissibleDocument(cat, items[i], None)
      case Obj(fields) =>
        && (forall i | 0 <= i < |fields| :: fields[i].key != "__proto__")
        && (forall i, j | 0 <= i < j < |fields| :: fields[i].key != fields[j].key)
        && (forall i | 0 <= i < |fields| :: AdmissibleDocument(cat, fields[i].value, Some(fields[i].key)))
      case _ => true
  }

  /**
   * `expandJsonDocument(options, document, key)`. `typeof null` is
   * `"object"`, so `Object.keys(null)` throws a TypeError; booleans and
   * numbers come back unchanged.
   */
  function ExpandDocument(cat: Catalog, ov: Overrides, v: Value, key: Option<string>): (r: Result<Value, Errors.Error>)
    requires AdmissibleDocument(cat, v, key)
    ensures r.Success? && Expandable(key, v) ==> r.value.Arr? && forall x | x in r.value.items :: x.Str?
    ensures r.Success? && !Expandable(key, v) && v.Arr? ==> r.value.Arr? && |r.value.items| == |v.items|
    ensures r.Success? && !Expandable(key, v) && v.Obj? ==> r.value.Obj? && Keys(r.value.fields) == Keys(v.fields)
    ensures !Expandable(key, v) && (v.Bool? || v.Num? || v.Str?) ==> r == Success(v)
    ensures !Expandable(key, v) && v.Null? ==> r == Failure(Errors.TypeError)
    decreases v, 1
  {
    if ActionKey(key) && v.Str? then
      var actions :- ExpandIamActions(cat, ov, v);
      Success(Arr(Strs(actions)))
    else if ActionKey(key) && v.Arr? && |v.items| > 0 && v.items[0].Str? then
      var actions :- ExpandIamActions(cat, ForceDistinct(ov), v);
      Success(Arr(Strs(actions)))
    else
      match v
      case Arr(items) =>
        var walked :- ExpandElements(cat, ov, items);
        Success(Arr(walked))
      case Obj(fields) =>
        var walked :- ExpandFields(cat, ov, fields);
        Success(Obj(walked))
      case Null => Failure(Errors.TypeError)
      case _ => Success(v)
  }

  /** `Promise.all(document.map(...))`: each element is walked without a key */
  function ExpandElements(cat: Catalog, ov: Overrides, items: seq<Value>): (r: Result<seq<Value>, Errors.Error>)
    requires forall i | 0 <= i < |items| :: AdmissibleDocument(cat, items[i], None)
    ensures r.Success? ==> |r.value| == |items|
    decreases items, 0
  {
    if |items| == 0 then Success([])
    else
      var head :- ExpandDocument(cat, ov, items[0], None);
      var rest :- ExpandElements(cat, ov, items[1..]);
      Success([head] + rest)
  }

  /** The loop of expand_file.ts:31-34: each field is walked under its own key, in order */
  function ExpandFields(cat: Catalog, ov: Overrides, fields: seq<Field>): (r: Result<seq<Field>, Errors.Error>)
    requires forall i | 0 <= i < |fields| :: AdmissibleDocument(cat, fields[i].value, Some(fields[i].key))
    ensures r.Success? ==> Keys(r.value) == Keys(fields)
    decreases fields, 0
  {
    if |fields| == 0 then Success([])
    else
      var head :- ExpandDocument(cat, ov, fields[0].value, Some(fields[0].key));
      var rest :- ExpandFields(cat, ov, fields[1..]);
      Success([Field(fields[0].key, head)] + rest)
  }

  /** The elements are walked one by one: the walk fails when one of them does, else gives each one's result */
  lemma {:induction false} ElementsMeaning(cat: Catalog, ov: Overrides, items: seq<Value>)
    requires forall i | 0 <= i < |items| :: AdmissibleDocument(cat, items[i], None)
    ensures var r := ExpandElements(cat, ov, items);
      && (r.Success? <==> forall i | 0 <= i < |items| :: ExpandDocument(cat, ov, items[i], None).Success?)
      && (r.Success? ==> forall i | 0 <= i < |items| :: r.value[i] == ExpandDocument(cat, ov, items[i], None).value)
    decreases |items|
  {
    if |items| > 0 {
      var tail := items[1..];
      ElementsMeaning(cat, ov, tail);
      var h, t := ExpandDocument(cat, ov, items[0], None), ExpandElements(cat, ov, tail);
      if h.Success? && t.Success? {
        assert ExpandElements(cat, ov, items).value == [h.value] + t.value;
      }
      assert forall i | 1 <= i < |items| :: items[i] == tail[i - 1];
    }
  }

  /** The fields are walked one by one under their own keys: the walk fails when one of them does, else gives each one's result */
  lemma {:induction false} FieldsMeaning(cat: Catalog, ov: Overrides, fields: seq<Field>)
    requires forall i | 0 <= i < |fields| :: AdmissibleDocument(cat, fields[i].value, Some(fields[i].key))
    ensures var r := ExpandFields(cat, ov, fields);
      && (r.Success? <==>
            forall i | 0 <= i < |fields| :: ExpandDocument(cat, ov, fields[i].value, Some(fields[i].key)).Success?)
      && (r.Success? ==>
            forall i | 0 <= i < |fields| ::
              r.value[i] == Field(fields[i].key, ExpandDocument(cat, ov, fields[i].value, Some(fields[i].key)).value))
    decreases |fields|
  {
    if |fields| > 0 {
      var tail := fields[1..];
      FieldsMeaning(cat, ov, tail);
      var h, t := ExpandDocument(cat, ov, fields[0].value, Some(fields[0].key)), ExpandFields(cat, ov, tail);
      if h.Success? && t.Success? {
        assert ExpandFields(cat, ov, fields).value == [Field(fields[0].key, h.value)] + t.value;
      }
      assert forall i | 1 <= i < |fields| :: fields[i] == tail[i - 1];
    }
  }

  /** The field `i` of a walked object is the walk of that field's value under its key */
  lemma FieldOf(cat: Catalog, ov: Overrides, fields: seq<Field>, i: nat)
    requires AdmissibleDocument(cat, Obj(fields), None)
    requires i < |fields| && ExpandDocument(cat, ov, Obj(fields), None).Success?
    ensures AdmissibleDocument(cat, fields[i].value, Some(fields[i].key))
    ensures ExpandDocument(cat, ov, fields[i].value, Some(fields[i].key)).Success?
    ensures ExpandDocument(cat, ov, Obj(fields), None).value.fields[i] ==
              Field(fields[i].key, ExpandDocument(cat, ov, fields[i].value, Some(fields[i].key)).value)
  {
    FieldsMeaning(cat, ov, fields);
  }

  /** `expandJsonDocument(options, document)`: the document's root has no key */
  function ExpandJsonDocument(cat: Catalog, ov: Overrides, doc: Value): (r: Result<Value, Errors.Error>)
    requires AdmissibleDocument(cat, doc, None)
    ensures doc.Bool? || doc.Num? || doc.Str? ==> r == Success(doc)
    ensures doc.Null? ==> r == Failure(Errors.TypeError)
  {
    ExpandDocument(cat, ov, doc, None)
  }

  /** No field anywhere in `v` is an `Action` or `NotAction` that would be expanded */
  predicate Untouched(v: Value)
    decreases v
  {
    match v
    case Arr(items) => forall i | 0 <= i < |items| :: Untouched(items[i])
    case Obj(fields) =>
      forall i | 0 <= i < |fields| :: !Expandable(Some(fields[i].key), fields[i].value) && Untouched(fields[i].value)
    case _ => true
  }

  /** A `null` appears somewhere in `v` */
  predicate HasNull(v: Value)
    decreases v
  {
    match v
    case Null => true
    case Arr(items) => exists i | 0 <= i < |items| :: HasNull(items[i])
    case Obj(fields) => exists i | 0 <= i < |fields| :: HasNull(fields[i].value)
    case _ => false
  }

  /**
   * A document with nothing to expand comes back as it was, unless it
   * holds a `null`, which makes the walk throw.
   */
  lemma {:induction false} DocumentIdentity(cat: Catalog, ov: Overrides, v: Value, key: Option<string>)
    requires AdmissibleDocument(cat, v, key)
    requires !Expandable(key, v) && Untouched(v)
    ensures ExpandDocument(cat, ov, v, key) == if HasNull(v) then Failure(Errors.TypeError) else Success(v)
    decreases v, 1
  {
    match v
    case Arr(items) =>
      ElementsIdentity(cat, ov, items);
    case Obj(fields) =>
      FieldsIdentity(cat, ov, fields);
    case _ =>
  }

  lemma {:induction false} ElementsIdentity(cat: Catalog, ov: Overrides, items: seq<Value>)
    requires forall i | 0 <= i < |items| :: AdmissibleDocument(cat, items[i], None)
    requires forall i | 0 <= i < |items| :: Untouched(items[i])
    ensures ExpandElements(cat, ov, items) ==
              if exists i | 0 <= i < |items| :: HasNull(items[i]) then Failure(Errors.TypeError) else Success(items)
    decreases items, 0
  {
    if |items| > 0 {
      DocumentIdentity(cat, ov, items[0], None);
      ElementsIdentity(cat, ov, items[1..]);
      NullInCons(items);
      assert items == [items[0]] + items[1..];
    }
  }

  /** A `null` is in a non-empty list when it is in the head or in the tail */
  lemma NullInCons(items: seq<Value>)
    requires |items| > 0
    ensures (exists i | 0 <= i < |items| :: HasNull(items[i])) <==>
              HasNull(items[0]) || exists i | 0 <= i < |items[1..]| :: HasNull(items[1..][i])
  {
    var tail := items[1..];
    assert forall i | 1 <= i < |items| :: items[i] == tail[i - 1];
  }

  lemma {:induction false} FieldsIdentity(cat: Catalog, ov: Overrides, fields: seq<Field>)
    requires forall i | 0 <= i < |fields| :: AdmissibleDocument(cat, fields[i].value, Some(fields[i].key))
    requires forall i | 0 <= i < |fields| :: !Expandable(Some(fields[i].key), fields[i].value) && Untouched(fields[i].value)
    ensures ExpandFields(cat, ov, fields) ==
              if exists i | 0 <= i < |fields| :: HasNull(fields[i].value) then Failure(Errors.TypeError) else Success(fields)
    decreases fields, 0
  {
    if |fields| > 0 {
      DocumentIdentity(cat, ov, fields[0].value, Some(fields[0].key));
      FieldsIdentity(cat, ov, fields[1..]);
      NullInFieldsCons(fields);
      assert fields == [Field(fields[0].key, fields[0].value)] + fields[1..];
    }
  }

  /** A `null` is in a non-empty field list when it is in the first field's value or in the rest */
  lemma NullInFieldsCons(fields: seq<Field>)
    requires |fields| > 0
    ensures (exists i | 0 <= i < |fields| :: HasNull(fields[i].value)) <==>
              HasNull(fields[0].value) || exists i | 0 <= i < |fields[1..]| :: HasNull(fields[1..][i].value)
  {
    var tail := fields[1..];
    assert forall i | 1 <= i < |fields| :: fields[i] == tail[i - 1];
  }

  /**
   * expand_file.ts:12-15: a string under `Action` or `NotAction` is replaced
   * by the list of actions it expands to under the caller's options.
   */
  lemma ActionString(cat: Catalog, ov: Overrides, fields: seq<Field>, i: nat)
    requires AdmissibleDocument(cat, Obj(fields), None)
    requires i < |fields| && ActionKey(Some(fields[i].key)) && fields[i].value.Str?
    requires ExpandDocument(cat, ov, Obj(fields), None).Success?
    ensures AllAdmissible(cat, fields[i].value)
    ensures ExpandIamActions(cat, ov, fields[i].value).Success?
    ensures ExpandDocument(cat, ov, Obj(fields), None).value.fields[i] ==
              Field(fields[i].key, Arr(Strs(ExpandIamActions(cat, ov, fields[i].value).value)))
  {
    FieldOf(cat, ov, fields, i);
  }

  /**
   * expand_file.ts:16-19: a list that starts with a string, under `Action`
   * or `NotAction`, is replaced by its expansion under the caller's options
   * with `distinct` forced on: the elements' expansions, concatenated and
   * de-duplicated in first-occurrence order, then sorted if `sort` is set.
   */
  lemma ActionList(cat: Catalog, ov: Overrides, fields: seq<Field>, i: nat)
    requires AdmissibleDocument(cat, Obj(fields), None)
    requires i < |fields| && ActionKey(Some(fields[i].key))
    requires fields[i].value.Arr? && |fields[i].value.items| > 0 && fields[i].value.items[0].Str?
    requires ExpandDocument(cat, ov, Obj(fields), None).Success?
    ensures forall j | 0 <= j < |fields[i].value.items| :: AllAdmissible(cat, fields[i].value.items[j])
    ensures ExpandIamActions(cat, ForceDistinct(ov), fields[i].value).Success?
    ensures ExpandDocument(cat, ov, Obj(fields), None).value.fields[i] ==
              Field(fields[i].key, Arr(Strs(ExpandIamActions(cat, ForceDistinct(ov), fields[i].value).value)))
    ensures var all, xs := ExpandItems(cat, Resolve(ForceDistinct(ov)), fields[i].value.items),
                           ExpandIamActions(cat, ForceDistinct(ov), fields[i].value).value;
      && all.Success?
      && NoDuplicates(xs)
      && Elements(xs) == Elements(all.value)
  {
    var v := fields[i].value;
    FieldOf(cat, ov, fields, i);
    ExpandList(cat, Resolve(ForceDistinct(ov)), v.items);
  }
}
