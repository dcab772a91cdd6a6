/**
 * cli_utils.ts: the pure string helpers of the command line: option names
 * from `--dash-case` to camelCase, option arguments to an options record,
 * and the scanner that picks IAM actions out of a line of free text.
 */
module CliUtils {
  import opened Wrappers
  import opened Text
  import opened Catalog
  import Expand

  // ---------------------------------------------------------------------
  // dashToCamelCase (cli_utils.ts:15-18)

  /** `str.replace(/-([a-z])/g, g => g[1].toUpperCase())` */
  function Camel(s: string): (r: string)
    ensures |r| <= |s|
    ensures |r| > 0 ==> |s| > 0 && (r[0] == s[0] || (|s| >= 2 && s[0] == '-' && IsLowerAscii(s[1]) && r[0] == Upper(s[1])))
    decreases |s|
  {
    if |s| >= 2 && s[0] == '-' && IsLowerAscii(s[1]) then [Upper(s[1])] + Camel(s[2..])
    else if |s| == 0 then []
    else [s[0]] + Camel(s[1..])
  }

  /** `dashToCamelCase(str)`: `substring(2)` drops the leading `--`, then every `-x` becomes `X` */
  function DashToCamelCase(str: string): string {
    Camel(if |str| >= 2 then str[2..] else "")
  }

  /** No `-` is followed by a lower-case letter */
  predicate CamelCased(r: string) {
    forall i | 0 <= i < |r| - 1 :: !(r[i] == '-' && IsLowerAscii(r[i + 1]))
  }

  /** The replacement leaves no `-x` behind: every one was consumed by the global replace */
  lemma {:induction false} CamelIsCamelCased(s: string)
    ensures CamelCased(Camel(s))
    decreases |s|
  {
    if |s| >= 2 && s[0] == '-' && IsLowerAscii(s[1]) {
      CamelIsCamelCased(s[2..]);
      var r := Camel(s);
      assert r == [Upper(s[1])] + Camel(s[2..]);
      assert forall i | 1 <= i < |r| :: r[i] == Camel(s[2..])[i - 1];
    } else if |s| > 0 {
      CamelIsCamelCased(s[1..]);
      var r := Camel(s);
      var tail := Camel(s[1..]);
      assert r == [s[0]] + tail;
      assert forall i | 1 <= i < |r| :: r[i] == tail[i - 1];
      if s[0] == '-' && |tail| > 0 {
        assert !IsLowerAscii(tail[0]);
      }
    }
  }

  lemma DashToCamelCaseIsCamelCased(str: string)
    ensures CamelCased(DashToCamelCase(str))
  {
    CamelIsCamelCased(if |str| >= 2 then str[2..] else "");
  }

  /** The dash-case spelling of a camelCase name: every capital `X` becomes `-x` */
  function Kebab(c: string): (r: string)
    ensures |r| >= |c|
  {
    if |c| == 0 then ""
    else if IsUpperAscii(c[0]) then ['-', Lower(c[0])] + Kebab(c[1..])
    else [c[0]] + Kebab(c[1..])
  }

  /**
   * `dashToCamelCase` undoes the dash-case spelling of a name without `-`:
   * `--expand-asterisk` names `expandAsterisk` (cli_utils.test.ts:28-35).
   */
  lemma {:induction false} CamelKebab(c: string)
    requires '-' !in c
    ensures Camel(Kebab(c)) == c
    decreases |c|
  {
    if |c| > 0 {
      CamelKebab(c[1..]);
      assert '-' !in c[1..] by { assert forall x | x in c[1..] :: x in c; }
      if IsUpperAscii(c[0]) {
        assert Kebab(c)[2..] == Kebab(c[1..]);
      } else {
        assert Kebab(c)[1..] == Kebab(c[1..]);
      }
    }
  }

  lemma DashToCamelCaseKebab(c: string)
    requires '-' !in c
    ensures DashToCamelCase("--" + Kebab(c)) == c
  {
    assert ("--" + Kebab(c))[2..] == Kebab(c);
    CamelKebab(c);
  }

  // ---------------------------------------------------------------------
  // convertOptions (cli_utils.ts:26-51)

  /** What an option holds: `true`, a string, an enum member, or what a lookup of `__proto__` finds */
  datatype OptionValue = Flag | Text(s: string) | Behavior(b: Expand.InvalidActionBehavior) | PrototypeObject

  type Options = map<string, OptionValue>

  const BehaviorKey := "invalidActionBehavior"

  /** Assigning to `__proto__` on a plain object sets no property */
  const ProtoKey := "__proto__"

  /** The key an option argument sets: its text before the first `=`, camel-cased */
  function OptionKey(option: string): string {
    DashToCamelCase(Split(option, '=')[0])
  }

  /** The value an option argument sets: `true` without `=`, else the text between the first and second `=` */
  function OptionValueOf(option: string): (v: OptionValue)
    ensures '=' !in option <==> v == Flag
  {
    if '=' in option then Text(Split(option, '=')[1]) else Flag
  }

  /** The loop of cli_utils.ts:29-37 from `options` onwards */
  function Gather(args: seq<string>, options: Options): (r: Options)
    ensures ProtoKey !in options ==> ProtoKey !in r
    decreases |args|
  {
    if |args| == 0 then options
    else
      var key := OptionKey(args[0]);
      Gather(args[1..], if key == ProtoKey then options else options[key := OptionValueOf(args[0])])
  }

  /** The value the last argument naming `key` gives, the reference for "later options win" */
  function LastValue(args: seq<string>, key: string): Option<OptionValue> {
    if |args| == 0 then None
    else if OptionKey(args[|args| - 1]) == key then Some(OptionValueOf(args[|args| - 1]))
    else LastValue(args[..|args| - 1], key)
  }

  /** Every key the loop set holds the value of the last argument that names it */
  lemma {:induction false} GatherLastWins(args: seq<string>, options: Options, key: string)
    requires key != ProtoKey
    ensures key in Gather(args, options) <==> key in options || LastValue(args, key).Some?
    ensures LastValue(args, key).Some? ==> Gather(args, options)[key] == LastValue(args, key).value
    ensures LastValue(args, key).None? && key in options ==> Gather(args, options)[key] == options[key]
    decreases |args|
  {
    if |args| > 0 {
      var k0 := OptionKey(args[0]);
      var next := if k0 == ProtoKey then options else options[k0 := OptionValueOf(args[0])];
      GatherLastWins(args[1..], next, key);
      LastValueCons(args, key);
    }
  }

  /** `LastValue` seen from the front of the list */
  lemma {:induction false} LastValueCons(args: seq<string>, key: string)
    requires |args| > 0
    ensures LastValue(args, key) ==
              if LastValue(args[1..], key).Some? then LastValue(args[1..], key)
              else if OptionKey(args[0]) == key then Some(OptionValueOf(args[0]))
              else None
    decreases |args|
  {
    if |args| > 1 {
      var last := |args| - 1;
      assert args[1..][..|args[1..]| - 1] == args[..last][1..];
      assert args[1..][|args[1..]| - 1] == args[last];
      LastValueCons(args[..last], key);
      assert args[..last][0] == args[0];
    }
  }

  /** `charAt(0).toUpperCase() + slice(1).toLowerCase()` */
  function Clean(s: string): (r: string)
    ensures |r| == |s|
  {
    if |s| == 0 then "" else [Upper(s[0])] + LowerStr(s[1..])
  }

  /** The member names of `InvalidActionBehavior` */
  function BehaviorName(b: Expand.InvalidActionBehavior): string {
    match b
    case Remove => "Remove"
    case Error => "Error"
    case Include => "Include"
  }

  /**
   * `InvalidActionBehavior[cleanedInput]`: a member name gives the member,
   * `__proto__` gives the enum object's (truthy) prototype, anything else
   * is undefined.
   */
  function ParseBehavior(s: string): Option<OptionValue> {
    var cleaned := Clean(s);
    if cleaned == "Remove" then Some(Behavior(Expand.Remove))
    else if cleaned == "Error" then Some(Behavior(Expand.Error))
    else if cleaned == "Include" then Some(Behavior(Expand.Include))
    else if cleaned == ProtoKey then Some(PrototypeObject)
    else None
  }

  /** `Clean` agrees with lower-casing on the first letter's case and the rest */
  lemma CleanLower(s: string, name: string)
    requires |name| > 0 && (IsUpperAscii(name[0]) || name[0] == '_')
    requires forall i | 1 <= i < |name| :: !IsUpperAscii(name[i])
    ensures Clean(s) == name <==> LowerStr(s) == LowerStr(name)
  {
    if Clean(s) == name {
      CleanThenLower(s, name);
    }
    if LowerStr(s) == LowerStr(name) {
      LowerThenClean(s, name);
    }
  }

  lemma CleanThenLower(s: string, name: string)
    requires Clean(s) == name
    ensures LowerStr(s) == LowerStr(name)
  {
    forall i | 0 <= i < |s| ensures LowerStr(s)[i] == LowerStr(name)[i] {
      if i > 0 {
        assert Clean(s)[i] == Lower(s[i]);
      }
    }
  }

  lemma LowerThenClean(s: string, name: string)
    requires |name| > 0 && (IsUpperAscii(name[0]) || name[0] == '_')
    requires forall i | 1 <= i < |name| :: !IsUpperAscii(name[i])
    requires LowerStr(s) == LowerStr(name)
    ensures Clean(s) == name
  {
    assert |s| == |LowerStr(s)| == |name|;
    assert Lower(s[0]) == Lower(name[0]) by { assert LowerStr(s)[0] == LowerStr(name)[0]; }
    forall i | 1 <= i < |s| ensures LowerStr(s[1..])[i - 1] == name[i] {
      assert LowerStr(s)[i] == LowerStr(name)[i];
    }
    assert LowerStr(s[1..]) == name[1..];
    assert name == [name[0]] + name[1..];
  }

  /** The member is chosen ignoring case, the check cli_utils.ts:41-42 makes */
  lemma ParseBehaviorIgnoresCase(s: string, b: Expand.InvalidActionBehavior)
    ensures ParseBehavior(s) == Some(Behavior(b)) <==> LowerStr(s) == LowerStr(BehaviorName(b))
  {
    CleanLower(s, "Remove");
    CleanLower(s, "Error");
    CleanLower(s, "Include");
    CleanLower(s, ProtoKey);
  }

  /** cli_utils.ts:39-48: a string `invalidActionBehavior` becomes a member, or the key goes */
  function NormalizeBehavior(options: Options): (r: Options)
    ensures forall k | k != BehaviorKey :: k in r <==> k in options
    ensures forall k | k != BehaviorKey && k in r :: r[k] == options[k]
    ensures BehaviorKey in options && options[BehaviorKey].Text? ==>
              (BehaviorKey in r <==> ParseBehavior(options[BehaviorKey].s).Some?)
    ensures BehaviorKey in options && !options[BehaviorKey].Text? ==> BehaviorKey in r && r[BehaviorKey] == options[BehaviorKey]
    ensures BehaviorKey !in options ==> BehaviorKey !in r
  {
    if BehaviorKey in options && options[BehaviorKey].Text? then
      match ParseBehavior(options[BehaviorKey].s)
      case Some(b) => options[BehaviorKey := b]
      case None => options - {BehaviorKey}
    else options
  }

  /** `convertOptions(optionArgs)` */
  function ConvertOptions(args: seq<string>): (r: Options)
    ensures ProtoKey !in r
  {
    NormalizeBehavior(Gather(args, map[]))
  }

  /**
   * What `convertOptions` returns, key by key: the last argument naming a
   * key sets it, except that `invalidActionBehavior` given as text is
   * replaced by the member it names ignoring case, or dropped.
   */
  lemma ConvertOptionsSpec(args: seq<string>, key: string)
    requires key != ProtoKey
    ensures key != BehaviorKey ==>
              && (key in ConvertOptions(args) <==> LastValue(args, key).Some?)
              && (key in ConvertOptions(args) ==> ConvertOptions(args)[key] == LastValue(args, key).value)
    ensures key == BehaviorKey ==>
              match LastValue(args, key)
              case None => key !in ConvertOptions(args)
              case Some(Text(s)) =>
                && (key in ConvertOptions(args) <==> ParseBehavior(s).Some?)
                && (key in ConvertOptions(args) ==> ConvertOptions(args)[key] == ParseBehavior(s).value)
              case Some(v) => key in ConvertOptions(args) && ConvertOptions(args)[key] == v
  {
    GatherLastWins(args, map[], key);
  }

  // ---------------------------------------------------------------------
  // extractActionsFromLineOfInput (cli_utils.ts:53-60)

  /** `[a-zA-Z0-9*]`, the character class of the action part */
  predicate ActionChar(c: char) {
    IsUpperAscii(c) || IsLowerAscii(c) || IsDigit(c) || c == '*'
  }

  /** The end of the run of `NameChar`s (`[a-zA-Z0-9-]`) that starts at `k` */
  function NameEnd(s: string, k: nat): (e: nat)
    requires k <= |s|
    ensures k <= e <= |s|
    decreases |s| - k
  {
    if k < |s| && NameChar(s[k]) then NameEnd(s, k + 1) else k
  }

  /** `NameEnd` stops at the first character past `k` that is not a `NameChar` */
  lemma {:induction false} NameEndSpec(s: string, k: nat)
    requires k <= |s|
    ensures forall i | k <= i < NameEnd(s, k) :: NameChar(s[i])
    ensures NameEnd(s, k) == |s| || !NameChar(s[NameEnd(s, k)])
    decreases |s| - k
  {
    if k < |s| && NameChar(s[k]) {
      NameEndSpec(s, k + 1);
    }
  }

  /** The end of the run of `ActionChar`s that starts at `k` */
  function ActionEnd(s: string, k: nat): (e: nat)
    requires k <= |s|
    ensures k <= e <= |s|
    decreases |s| - k
  {
    if k < |s| && ActionChar(s[k]) then ActionEnd(s, k + 1) else k
  }

  /** `ActionEnd` stops at the first character past `k` that is not a `ActionChar` */
  lemma {:induction false} ActionEndSpec(s: string, k: nat)
    requires k <= |s|
    ensures forall i | k <= i < ActionEnd(s, k) :: ActionChar(s[i])
    ensures ActionEnd(s, k) == |s| || !ActionChar(s[ActionEnd(s, k)])
    decreases |s| - k
  {
    if k < |s| && ActionChar(s[k]) {
      ActionEndSpec(s, k + 1);
    }
  }

  /** A match of the pattern: its start, where group 1 starts, and its end */
  datatype Match = Match(start: nat, group: nat, end: nat)

  /**
   * The match of `/\:?([a-zA-Z0-9-]+:[a-zA-Z0-9*]+)/` at `j`, if any.
   * Neither class holds `:`, so no backtracking can help: the optional
   * colon is taken when present and both runs are as long as they go.
   */
  function MatchAt(s: string, j: nat): (r: Option<Match>)
    requires j <= |s|
    ensures r.Some? ==> r.value.start == j && j <= r.value.group < r.value.end <= |s|
  {
    var g := if j < |s| && s[j] == ':' then j + 1 else j;
    var c := NameEnd(s, g);
    if c == g || c == |s| || s[c] != ':' then None
    else
      var e := ActionEnd(s, c + 1);
      if e == c + 1 then None else Some(Match(j, g, e))
  }

  /**
   * The pattern matches `s[j..e]` with group 1 `s[g..e]`: an optional `:`,
   * a name, `:`, and an action part.
   */
  ghost predicate IsMatch(s: string, j: nat, g: nat, e: nat) {
    && j <= g <= j + 1 && e <= |s|
    && (g == j + 1 ==> j < |s| && s[j] == ':')
    && exists c | g < c < e - 1 ::
         && s[c] == ':'
         && (forall i | g <= i < c :: NameChar(s[i]))
         && (forall i | c < i < e :: ActionChar(s[i]))
  }

  /** Greedy runs: the action part cannot be extended */
  predicate Maximal(s: string, e: nat) {
    e >= |s| || !ActionChar(s[e])
  }

  /** `MatchAt` is the pattern's match at `j`: the one with the longest action part, or none */
  lemma MatchAtSpec(s: string, j: nat)
    requires j <= |s|
    ensures MatchAt(s, j).Some? ==>
              IsMatch(s, j, MatchAt(s, j).value.group, MatchAt(s, j).value.end) && Maximal(s, MatchAt(s, j).value.end)
    ensures MatchAt(s, j).None? ==> forall g, e :: !IsMatch(s, j, g, e)
  {
    if MatchAt(s, j).Some? {
      var m := MatchAt(s, j).value;
      MatchAtParts(s, j);
      var c := NameEnd(s, m.group);
      assert IsMatch(s, j, m.group, m.end);
    }
    forall g, e | IsMatch(s, j, g, e) ensures MatchAt(s, j).Some? {
      MatchUnique(s, j, g, e);
    }
  }

  /** The pieces of the match `MatchAt` finds: the name ends at the first `:` after the group start */
  lemma MatchAtParts(s: string, j: nat)
    requires j <= |s| && MatchAt(s, j).Some?
    ensures var m := MatchAt(s, j).value; var c := NameEnd(s, m.group);
      && j <= m.group <= j + 1 && (m.group == j + 1 ==> s[j] == ':')
      && m.group < c < m.end - 1 && s[c] == ':'
      && (forall i | m.group <= i < c :: NameChar(s[i]))
      && (forall i | c < i < m.end :: ActionChar(s[i]))
      && Maximal(s, m.end)
  {
    var g := if j < |s| && s[j] == ':' then j + 1 else j;
    var c := NameEnd(s, g);
    NameEndSpec(s, g);
    ActionEndSpec(s, c + 1);
  }

  /** Any match of the pattern at `j` has the group `MatchAt` finds and ends no later than it */
  lemma MatchUnique(s: string, j: nat, g: nat, e: nat)
    requires j <= |s| && IsMatch(s, j, g, e)
    ensures MatchAt(s, j).Some? && MatchAt(s, j).value.group == g && e <= MatchAt(s, j).value.end
  {
    var d :| g < d < e - 1 && s[d] == ':'
             && (forall i | g <= i < d :: NameChar(s[i])) && (forall i | d < i < e :: ActionChar(s[i]));
    assert !NameChar(':') && !ActionChar(':');
    assert g == (if j < |s| && s[j] == ':' then j + 1 else j) by {
      assert NameChar(s[g]);
    }
    var c := NameEnd(s, g);
    NameEndSpec(s, g);
    assert c == d by {
      assert c <= d;
    }
    ActionEndSpec(s, c + 1);
    assert NameChar(s[g]) && ActionChar(s[d + 1]);
  }

  /** `ms` are matches, each starting at or after the end of the one before, the first at or after `i` */
  predicate Chained(s: string, ms: seq<Match>, i: nat)
    decreases |ms|
  {
    |ms| == 0 ||
    (i <= ms[0].start <= |s| && MatchAt(s, ms[0].start) == Some(ms[0]) && Chained(s, ms[1..], ms[0].end))
  }

  /** The pattern matches nowhere in `[a, b)` */
  predicate NoMatchBetween(s: string, a: nat, b: nat) {
    forall j | a <= j < b && j <= |s| :: NoMatchAt(s, j)
  }

  predicate NoMatchAt(s: string, j: nat)
    requires j <= |s|
  {
    MatchAt(s, j).None?
  }

  /**
   * Each match in `ms` is the leftmost one after the previous: nothing
   * matches between `i` and the first, between one and the next, or after
   * the last.
   */
  predicate Leftmost(s: string, ms: seq<Match>, i: nat)
    decreases |ms|
  {
    if |ms| == 0 then NoMatchBetween(s, i, |s| + 1)
    else NoMatchBetween(s, i, ms[0].start) && Leftmost(s, ms[1..], ms[0].end)
  }

  /** `line.matchAll(actionPattern)` from position `i`: the leftmost match, then on after it */
  function Scan(s: string, i: nat): (ms: seq<Match>)
    requires i <= |s|
    decreases |s| - i
  {
    if i == |s| then []
    else
      match MatchAt(s, i)
      case Some(m) => [m] + Scan(s, m.end)
      case None => Scan(s, i + 1)
  }

  /** Every match `Scan` returns is a match found where the previous one ended */
  lemma {:induction false} ScanChained(s: string, i: nat)
    requires i <= |s|
    ensures Chained(s, Scan(s, i), i)
    decreases |s| - i
  {
    if i < |s| {
      match MatchAt(s, i)
      case Some(m) =>
        ScanChained(s, m.end);
        var ms := Scan(s, i);
        assert ms[0] == m && ms[1..] == Scan(s, m.end);
      case None =>
        ScanChained(s, i + 1);
        ChainedEarlier(s, Scan(s, i + 1), i);
    }
  }

  /** A chain from `i + 1` is a chain from `i` */
  lemma ChainedEarlier(s: string, ms: seq<Match>, i: nat)
    requires Chained(s, ms, i + 1)
    ensures Chained(s, ms, i)
  {
  }

  /** `Scan` finds the leftmost non-overlapping matches */
  lemma {:induction false} ScanLeftmost(s: string, i: nat)
    requires i <= |s|
    ensures Leftmost(s, Scan(s, i), i)
    decreases |s| - i
  {
    if i == |s| {
      assert MatchAt(s, |s|).None?;
    } else {
      match MatchAt(s, i)
      case Some(m) =>
        ScanLeftmost(s, m.end);
        LeftmostFront(s, m, Scan(s, m.end));
      case None =>
        ScanLeftmost(s, i + 1);
        LeftmostBack(s, Scan(s, i + 1), i);
    }
  }

  /** A match found where the scan stands can be put in front of a leftmost chain from its end */
  lemma LeftmostFront(s: string, m: Match, ms: seq<Match>)
    requires Leftmost(s, ms, m.end)
    ensures Leftmost(s, [m] + ms, m.start)
  {
    assert ([m] + ms)[1..] == ms;
  }

  /** A position where nothing matches can be put in front of a leftmost chain */
  lemma LeftmostBack(s: string, ms: seq<Match>, i: nat)
    requires i < |s| && MatchAt(s, i).None? && Leftmost(s, ms, i + 1)
    ensures Leftmost(s, ms, i)
  {
    var b := if |ms| == 0 then |s| + 1 else ms[0].start;
    assert NoMatchBetween(s, i + 1, b);
    forall j | i <= j < b && j <= |s| ensures NoMatchAt(s, j) {
      if j > i {
        assert i + 1 <= j;
      }
    }
  }

  /** Positions where nothing matches are passed over */
  lemma {:induction false} ScanSkip(s: string, i: nat, j: nat)
    requires i <= j <= |s| && NoMatchBetween(s, i, j)
    ensures Scan(s, i) == Scan(s, j)
    decreases j - i
  {
    if i < j {
      ScanNone(s, i);
      ScanSkip(s, i + 1, j);
    }
  }

  lemma ScanNone(s: string, i: nat)
    requires i < |s| && NoMatchAt(s, i)
    ensures Scan(s, i) == Scan(s, i + 1)
  {
  }

  /**
   * The leftmost non-overlapping matches are unique: any chain of matches
   * that is leftmost at every step is what `Scan` returns.
   */
  lemma {:induction false} ScanUnique(s: string, ms: seq<Match>, i: nat)
    requires i <= |s|
    requires Chained(s, ms, i) && Leftmost(s, ms, i)
    ensures ms == Scan(s, i)
    decreases |s| - i
  {
    if |ms| == 0 {
      ScanSkip(s, i, |s|);
    } else {
      var m := ms[0];
      ScanSkip(s, i, m.start);
      ScanUnique(s, ms[1..], m.end);
      assert ms == [m] + ms[1..];
    }
  }

  function StartsWith(s: string, prefix: string): bool {
    |prefix| <= |s| && s[..|prefix|] == prefix
  }

  /** The filter of cli_utils.ts:58: matches that start with `arn:` or `:` are dropped */
  predicate KeptMatch(s: string, m: Match)
    requires m.start <= m.end <= |s|
  {
    var whole := s[m.start..m.end];
    !StartsWith(whole, "arn:") && !StartsWith(whole, ":")
  }

  /** `s[x..y] == item` for some `i <= x <= y`, and the later items occur after it */
  ghost predicate OccursInOrder(items: seq<string>, s: string, i: nat)
    decreases |items|
  {
    |items| == 0 ||
    exists x, y | i <= x <= y <= |s| :: s[x..y] == items[0] && OccursInOrder(items[1..], s, y)
  }

  /** `name:action` with a non-empty name of `[a-zA-Z0-9-]` and action part of `[a-zA-Z0-9*]` */
  ghost predicate ActionToken(t: string) {
    exists c | 0 < c < |t| - 1 ::
      && t[c] == ':'
      && (forall i | 0 <= i < c :: NameChar(t[i]))
      && (forall i | c < i < |t| :: ActionChar(t[i]))
  }

  /** Group 1 of each kept match */
  function Groups(s: string, ms: seq<Match>, i: nat): (r: seq<string>)
    requires Chained(s, ms, i)
    ensures forall x | x in r :: ActionToken(x)
    ensures OccursInOrder(r, s, i)
    decreases |ms|
  {
    if |ms| == 0 then []
    else
      var m := ms[0];
      var rest := Groups(s, ms[1..], m.end);
      var token := s[m.group..m.end];
      GroupIsToken(s, m);
      if KeptMatch(s, m) then
        assert OccursInOrder([token] + rest, s, i) by {
          assert ([token] + rest)[1..] == rest;
        }
        [token] + rest
      else
        assert OccursInOrder(rest, s, i) by { OccursLater(rest, s, i, m.end); }
        rest
  }

  /** Group 1 of a match is a `service:action` token */
  lemma GroupIsToken(s: string, m: Match)
    requires m.start <= |s| && MatchAt(s, m.start) == Some(m)
    ensures ActionToken(s[m.group..m.end])
  {
    MatchAtParts(s, m.start);
    var c := NameEnd(s, m.group);
    var token, d := s[m.group..m.end], c - m.group;
    assert token[d] == ':';
    forall i | 0 <= i < d ensures NameChar(token[i]) {
      assert token[i] == s[m.group + i];
    }
    forall i | d < i < |token| ensures ActionChar(token[i]) {
      assert token[i] == s[m.group + i];
    }
  }

  /** Occurring after a position implies occurring after any earlier one */
  lemma OccursLater(items: seq<string>, s: string, i: nat, j: nat)
    requires i <= j && OccursInOrder(items, s, j)
    ensures OccursInOrder(items, s, i)
  {
    if |items| > 0 {
      var x, y :| j <= x <= y <= |s| && s[x..y] == items[0] && OccursInOrder(items[1..], s, y);
    }
  }

  /**
   * `extractActionsFromLineOfInput(line)`: the `service:action` text of
   * every match that is not part of an ARN or led by `:`, in order.
   */
  function ExtractActions(line: string): (r: seq<string>)
    ensures forall x | x in r :: ActionToken(x)
    ensures OccursInOrder(r, line, 0)
  {
    ScanChained(line, 0);
    Groups(line, Scan(line, 0), 0)
  }

  /** Match `m` lies inside `s` and the filter of cli_utils.ts:58 keeps it */
  predicate Kept(s: string, m: Match) {
    m.start <= m.group <= m.end <= |s| && KeptMatch(s, m)
  }

  /**
   * `r` is the capture group of exactly the kept matches of `ms`, in order:
   * `idx` lists, increasing, the positions in `ms` of the kept matches, every
   * kept match among them, and item `j` of `r` is the group of match `idx[j]`.
   */
  ghost predicate Selects(s: string, ms: seq<Match>, idx: seq<nat>, r: seq<string>) {
    && |idx| == |r|
    && (forall j | 0 <= j < |idx| ::
          idx[j] < |ms| && Kept(s, ms[idx[j]]) && r[j] == s[ms[idx[j]].group..ms[idx[j]].end])
    && (forall j, j' | 0 <= j < j' < |idx| :: idx[j] < idx[j'])
    && (forall k | 0 <= k < |ms| && Kept(s, ms[k]) :: k in idx)
  }

  /** Every position one further on: the positions of `idx` in `ms` are those of the result in `[m] + ms` */
  function Shift(idx: seq<nat>): (r: seq<nat>)
    ensures |r| == |idx|
    ensures forall j | 0 <= j < |idx| :: r[j] == idx[j] + 1
  {
    seq(|idx|, j requires 0 <= j < |idx| => idx[j] + 1)
  }

  /** A dropped match in front of `ms` adds no item and shifts the positions */
  lemma SelectsSkip(s: string, ms: seq<Match>, idx: seq<nat>, r: seq<string>)
    requires |ms| > 0 && !Kept(s, ms[0]) && Selects(s, ms[1..], idx, r)
    ensures Selects(s, ms, Shift(idx), r)
  {
    var sh := Shift(idx);
    forall j | 0 <= j < |sh|
      ensures sh[j] < |ms| && Kept(s, ms[sh[j]]) && r[j] == s[ms[sh[j]].group..ms[sh[j]].end]
    {
      assert ms[sh[j]] == ms[1..][idx[j]];
    }
    forall k | 0 <= k < |ms| && Kept(s, ms[k]) ensures k in sh {
      assert ms[k] == ms[1..][k - 1];
      var j :| 0 <= j < |idx| && idx[j] == k - 1;
      assert sh[j] == k;
    }
  }

  /** A kept match in front of `ms` adds its group in front */
  lemma SelectsKeep(s: string, ms: seq<Match>, idx: seq<nat>, r: seq<string>)
    requires |ms| > 0 && Kept(s, ms[0]) && Selects(s, ms[1..], idx, r)
    ensures Selects(s, ms, [0] + Shift(idx), [s[ms[0].group..ms[0].end]] + r)
  {
    KeepItems(s, ms, idx, r);
    KeepIncreasing(idx);
    KeepCovers(s, ms, idx, r);
  }

  lemma KeepItems(s: string, ms: seq<Match>, idx: seq<nat>, r: seq<string>)
    requires |ms| > 0 && Kept(s, ms[0]) && Selects(s, ms[1..], idx, r)
    ensures var idx', r' := [0] + Shift(idx), [s[ms[0].group..ms[0].end]] + r;
      forall j | 0 <= j < |idx'| ::
        idx'[j] < |ms| && Kept(s, ms[idx'[j]]) && r'[j] == s[ms[idx'[j]].group..ms[idx'[j]].end]
  {
    var sh := Shift(idx);
    var idx', r' := [0] + sh, [s[ms[0].group..ms[0].end]] + r;
    forall j | 0 < j < |idx'|
      ensures idx'[j] < |ms| && Kept(s, ms[idx'[j]]) && r'[j] == s[ms[idx'[j]].group..ms[idx'[j]].end]
    {
      assert idx'[j] == sh[j - 1] && r'[j] == r[j - 1];
      assert ms[sh[j - 1]] == ms[1..][idx[j - 1]];
    }
  }

  lemma KeepIncreasing(idx: seq<nat>)
    requires forall j, j' | 0 <= j < j' < |idx| :: idx[j] < idx[j']
    ensures var idx' := [0] + Shift(idx); forall j, j' | 0 <= j < j' < |idx'| :: idx'[j] < idx'[j']
  {
    var sh := Shift(idx);
    var idx' := [0] + sh;
    forall j, j' | 0 <= j < j' < |idx'| ensures idx'[j] < idx'[j'] {
      if j > 0 {
        assert idx'[j] == sh[j - 1] && idx'[j'] == sh[j' - 1];
      }
    }
  }

  lemma KeepCovers(s: string, ms: seq<Match>, idx: seq<nat>, r: seq<string>)
    requires |ms| > 0 && Selects(s, ms[1..], idx, r)
    ensures var idx' := [0] + Shift(idx); forall k | 0 <= k < |ms| && Kept(s, ms[k]) :: k in idx'
  {
    var sh := Shift(idx);
    var idx' := [0] + sh;
    forall k | 0 < k < |ms| && Kept(s, ms[k]) ensures k in idx' {
      assert ms[k] == ms[1..][k - 1];
      var j :| 0 <= j < |idx| && idx[j] == k - 1;
      assert idx'[j + 1] == k;
    }
    assert idx'[0] == 0;
  }

  /** `Groups` keeps the group of every kept match and of no other, in order */
  lemma {:induction false} GroupsSelect(s: string, ms: seq<Match>, i: nat)
    requires Chained(s, ms, i)
    ensures exists idx :: Selects(s, ms, idx, Groups(s, ms, i))
    decreases |ms|
  {
    if |ms| == 0 {
      assert Selects(s, ms, [], Groups(s, ms, i));
    } else {
      var m := ms[0];
      GroupsSelect(s, ms[1..], m.end);
      var rest := Groups(s, ms[1..], m.end);
      var idx :| Selects(s, ms[1..], idx, rest);
      if KeptMatch(s, m) {
        SelectsKeep(s, ms, idx, rest);
        assert Selects(s, ms, [0] + Shift(idx), Groups(s, ms, i));
      } else {
        SelectsSkip(s, ms, idx, rest);
        assert Selects(s, ms, Shift(idx), Groups(s, ms, i));
      }
    }
  }

  /**
   * `extractActionsFromLineOfInput(line)` against `matchAll`'s own account:
   * there is exactly one chain of leftmost, non-overlapping matches from the
   * start of the line, and the result is the group of exactly the matches of
   * that chain that the filter keeps, in order.
   */
  lemma ExtractActionsExact(line: string)
    ensures exists ms, idx :: Chained(line, ms, 0) && Leftmost(line, ms, 0) && Selects(line, ms, idx, ExtractActions(line))
    ensures forall ms | Chained(line, ms, 0) && Leftmost(line, ms, 0) :: ms == Scan(line, 0)
  {
    ScanChained(line, 0);
    ScanLeftmost(line, 0);
    GroupsSelect(line, Scan(line, 0), 0);
    var idx :| Selects(line, Scan(line, 0), idx, ExtractActions(line));
    forall ms | Chained(line, ms, 0) && Leftmost(line, ms, 0) ensures ms == Scan(line, 0) {
      ScanUnique(line, ms, 0);
    }
  }

  /** cli_utils.test.ts:21: a match led by `:` is dropped */
  lemma ExtractLeadingColon()
    ensures ExtractActions(":s3:Put*") == []
  {
    var a := ":s3:Put*";
    ScanLeadingColon();
    assert !KeptMatch(a, Match(0, 1, 8)) by { assert a[0..8][..1] == ":"; }
  }

  lemma ScanLeadingColon()
    ensures Scan(":s3:Put*", 0) == [Match(0, 1, 8)]
  {
    var a := ":s3:Put*";
    assert NameEnd(a, 1) == 3 by { assert NameChar(a[1]) && NameChar(a[2]) && !NameChar(a[3]); }
    assert ActionEnd(a, 4) == 8 by { assert forall i | 4 <= i < 8 :: ActionChar(a[i]); }
    assert MatchAt(a, 0) == Some(Match(0, 1, 8));
    assert Scan(a, 8) == [];
  }

  /**
   * cli_utils.test.ts:24: in an ARN both matches are dropped, the first for
   * starting with `arn:` and the second for being led by `:`
   */
  lemma ExtractArn()
    ensures ExtractActions("arn:aws:apigateway:*::/apis") == []
  {
    var a := "arn:aws:apigateway:*::/apis";
    assert a[..4] == "arn:" && a[7] == ':';
    ArnDropped(a, Match(0, 0, 7));
    ColonDropped(a, Match(7, 8, 20));
    ScanArn();
  }

  /** A match that starts with `arn:` is dropped */
  lemma ArnDropped(s: string, m: Match)
    requires m.start + 4 <= m.end <= |s| && s[m.start..m.start + 4] == "arn:"
    ensures !KeptMatch(s, m)
  {
    assert s[m.start..m.end][..4] == s[m.start..m.start + 4];
  }

  /** A match led by `:` is dropped */
  lemma ColonDropped(s: string, m: Match)
    requires m.start < m.end <= |s| && s[m.start] == ':'
    ensures !KeptMatch(s, m)
  {
    assert s[m.start..m.end][..1] == [s[m.start]];
  }

  lemma ScanArn()
    ensures Scan("arn:aws:apigateway:*::/apis", 0) == [Match(0, 0, 7), Match(7, 8, 20)]
  {
    var a := "arn:aws:apigateway:*::/apis";
    ArnFirst();
    ArnSecond();
    ArnTail();
    ScanSkip(a, 20, 27);
    assert Scan(a, 7) == [Match(7, 8, 20)] + Scan(a, 20);
  }

  /** `arn:aws` matches at the start of the line */
  lemma ArnFirst()
    ensures MatchAt("arn:aws:apigateway:*::/apis", 0) == Some(Match(0, 0, 7))
  {
    var a := "arn:aws:apigateway:*::/apis";
    assert NameEnd(a, 0) == 3 by { assert forall i | 0 <= i < 3 :: NameChar(a[i]); assert !NameChar(a[3]); }
    assert ActionEnd(a, 4) == 7 by { assert forall i | 4 <= i < 7 :: ActionChar(a[i]); assert !ActionChar(a[7]); }
  }

  /** `:apigateway:*` matches where `arn:aws` ends */
  lemma ArnSecond()
    ensures MatchAt("arn:aws:apigateway:*::/apis", 7) == Some(Match(7, 8, 20))
  {
    var a := "arn:aws:apigateway:*::/apis";
    assert NameEnd(a, 8) == 18 by { assert forall i | 8 <= i < 18 :: NameChar(a[i]); assert !NameChar(a[18]); }
    assert ActionEnd(a, 19) == 20 by { assert ActionChar(a[19]) && !ActionChar(a[20]); }
  }

  /** Nothing matches in `::/apis`: no name is followed by a `:` there */
  lemma ArnTail()
    ensures NoMatchBetween("arn:aws:apigateway:*::/apis", 20, 27)
  {
    var a := "arn:aws:apigateway:*::/apis";
    assert NameEnd(a, 23) == 27 by { assert forall i | 23 <= i < 27 :: NameChar(a[i]); }
    assert NameEnd(a, 24) == 27 && NameEnd(a, 25) == 27 && NameEnd(a, 26) == 27;
    assert NameEnd(a, 21) == 21 && NameEnd(a, 22) == 22;
  }

  /** cli_utils.test.ts:20: a bare action comes out as it is */
  lemma ExtractSingle()
    ensures ExtractActions("s3:Put*") == ["s3:Put*"]
  {
    var a := "s3:Put*";
    ScanSingle();
    assert KeptMatch(a, Match(0, 0, 7)) by { assert a[0..7][..1] != ":" && a[0..7][..4] != "arn:"; }
    assert a[0..7] == a;
  }

  lemma ScanSingle()
    ensures Scan("s3:Put*", 0) == [Match(0, 0, 7)]
  {
    var a := "s3:Put*";
    assert NameEnd(a, 0) == 2 by { assert NameChar(a[0]) && NameChar(a[1]) && !NameChar(a[2]); }
    assert ActionEnd(a, 3) == 7 by { assert forall i | 3 <= i < 7 :: ActionChar(a[i]); }
    assert MatchAt(a, 0) == Some(Match(0, 0, 7));
    assert Scan(a, 7) == [];
  }
}
