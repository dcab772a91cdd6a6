# iam-expand, modelled in Dafny

A model of the core of `@cloud-copilot/iam-expand`, a library and command-line tool.
It expands AWS IAM action patterns such as `s3:Get*` into the concrete actions of the
IAM catalog, and it inverts them: it lists every catalog action that a set of patterns
does not cover. The model covers these parts:

- **The wildcard matcher.** This is `convertStringToPattern` in `util.ts`, which is
  `Wildcard.Matches`. It is the case-insensitive, anchored regular expression in which
  `?` matches one character and `*` matches any run. Neither matches a line terminator.
  `Wildcard.StarMatches` is the inline matcher of `expand.ts`, which rewrites only `*`.
  `Wildcard.Unescape` decodes `\uXXXX` escapes.
- **The catalog.** The data package `@cloud-copilot/iam-data` is modelled as a value,
  `Catalog.Catalog`: an ordered list of services, each with its key and its action names.
- **Matching against the catalog.** `Actions.ActionMatchesPattern` and
  `Actions.MatchesAnyAction` model `actions.ts`.
- **Expansion.** `Expand.ExpandIamActions` models `expandIamActions` with every branch:
  - a falsy argument gives nothing;
  - a list is expanded by flat-mapping, then optionally de-duplicated and sorted;
  - a string is trimmed and then goes to one of these cases: all asterisks, bad format,
    unknown service, `service:*`, a literal action, or a wildcard action.
  - A thrown `Error` is a `Failure` of `Errors.Error`.
- **Inversion.** `Invert.InvertActions` models `invert`. The pattern loop is
  `Invert.Collect` and the catalog walk is `Invert.Survivors`.
- **The document walker.** `ExpandFile.ExpandDocument` models `expandJsonDocument`. It
  walks a JSON value (`Json.Value`) and expands the values of `Action` and `NotAction`
  keys.
- **Command-line helpers.** `CliUtils.DashToCamelCase`, `CliUtils.ConvertOptions` and
  `CliUtils.ExtractActions` model the three helpers of `cli_utils.ts`. The third one
  models the global regular expression `/\:?([a-zA-Z0-9-]+:[a-zA-Z0-9*]+)/g` as a
  leftmost, greedy scanner.
- **Duality.** `Duality.InvertExcludesExpansion` ties expansion to inversion: no action
  that a pattern expands to survives inverting that pattern.

Supporting modules:

| module | contents |
|---|---|
| `Text` | ASCII case mapping, JavaScript `trim`, `split` and `join` |
| `Ordering` | the `Array.prototype.sort` order, sorting, de-duplication in first-occurrence order |
| `Json` | JSON values and truthiness |
| `Wrappers` | `Option` and `Result` |
| `Errors` | the errors the source throws |

## Model

| member | source | states |
|---|---|---|
| Text.Trim | src/expand.ts:117 | `trim` removes only white space, from both ends, and what it keeps neither starts nor ends with white space |
| Text.TrimNoop | src/expand.ts:117 | `trim` leaves a string that neither starts nor ends with white space unchanged |
| Text.TrimChars | src/expand.ts:117 | every character of the trimmed string comes from the input |
| Text.Split | src/expand.ts:136 | `split` gives one more part than there are separators, no part contains the separator, and joining the parts gives back the input |
| Text.SplitJoin | src/expand.ts:136 | `split` undoes joining parts that do not contain the separator |
| Text.SplitPair | src/expand.ts:136-137 | `a:b` with no `:` in `a` or `b` splits into exactly `[a, b]`, the two-part case the source accepts |
| Text.LowerIdempotent | src/expand.ts:144 | lower-casing twice is lower-casing once |
| Ordering.BelowIrreflexive | src/expand.ts:111-113 | the sort order never puts a string before itself |
| Ordering.BelowTransitive | src/expand.ts:111-113 | the sort order is transitive |
| Ordering.BelowTotal | src/expand.ts:111-113 | any two different strings are ordered one way or the other |
| Ordering.BelowAsymmetric | src/expand.ts:111-113 | the sort order never holds both ways |
| Ordering.Sort | src/expand.ts:111-113 | the sorted list is in order and is a permutation of the input |
| Ordering.SortedUnique | src/expand.ts:111-113 | two sorted permutations of the same strings are equal, so `sort()` has exactly one possible result |
| Ordering.SortSorted | src/expand.ts:111-113 | sorting an already sorted list changes nothing |
| Ordering.SortMembers | src/expand.ts:111-113 | sorting neither adds nor loses a string |
| Ordering.Dedupe | src/expand.ts:101-110 | the `Set` filter keeps every distinct value once, in the order of each value's first occurrence |
| Ordering.DedupeNoDuplicates | src/expand.ts:101-110 | the filter leaves a list without duplicates unchanged |
| Ordering.DedupeOrderUnique | src/expand.ts:101-110 | a duplicate-free list with the same values in first-occurrence order can only be the input itself |
| Ordering.SortedSet | src/invert.ts:60 | `Array.from(new Set(...)).sort()` is strictly increasing and holds exactly the input's values |
| Ordering.StrictlySortedUnique | src/invert.ts:60 | two strictly increasing lists with the same values are equal |
| Wildcard.AllAsterisksMatchEverything | src/util.ts:3-5 | a pattern of only `*` matches exactly the texts without a line terminator |
| Wildcard.QuestionMarksCount | src/util.ts:4 | `n` question marks match exactly the texts of `n` characters (Unicode scalar values) without a line terminator |
| Wildcard.LeadingStar | src/util.ts:4 | `*p` matches `t` exactly when some prefix of `t` without a line terminator is followed by a text `p` matches |
| Wildcard.MatchesConcat | src/util.ts:4 | the anchored pattern is compositional: a match of `p1` on `t1` and one of `p2` on `t2` give a match of `p1 p2` on `t1 t2` |
| Wildcard.CaseInsensitive | src/util.ts:5 | the `i` flag: lower-casing pattern and text does not change whether they match |
| Wildcard.LiteralPattern | src/util.ts:4-5 | a pattern with no wildcard matches exactly the texts equal to it ignoring case |
| Wildcard.StarMatchesAgree | src/expand.ts:178-179 | on a pattern without `?`, the inline matcher of `expand.ts` agrees with `convertStringToPattern` |
| Wildcard.UnescapeExample | src/util.test.ts:5-13 | `\u0041\u0042\u0043` unescapes to `ABC` |
| Wildcard.UnescapeNoBackslash | src/actions.ts:37-38 | unescaping text without a backslash leaves it unchanged |
| Wildcard.UnescapeEscape | src/actions.ts:37-38 | escaping every character as `\uXXXX` and unescaping gives back the text |
| Catalog.ActionsFor | src/expand.ts:154 | a service's action list is empty for an unknown key, and otherwise is the action list of an entry with that key |
| Catalog.QualifyAllMembers | src/expand.ts:154 | the `service:action` list holds exactly the qualified actions of the list |
| Catalog.QualifiedFrom | src/expand.ts:122-124 | flat-mapping services to their qualified actions yields exactly the pairs of a key in the list and one of its actions |
| Catalog.AllQualified | src/expand.ts:122-124 | the whole catalog, qualified, holds exactly every `key:action` pair of the catalog |
| Catalog.QualifyInjective | src/expand.ts:154 | for keys without `:`, `key:action` determines both key and action |
| Catalog.CanonicalName | src/expand.ts:160-162 | `iamActionDetails(...).name` is an action of the service equal to the given name ignoring case |
| Catalog.CanonicalNameOfAction | src/expand.ts:160-162 | in a well-formed catalog the lower-cased spelling of an action leads back to the action itself |
| Actions.ActionMatchesPatternPlain | src/actions.ts:36-39 | without escapes, `actionMatchesPattern` is the wildcard match of the pattern on the action, ignoring case |
| Actions.ActionMatchesPatternEscaped | src/actions.ts:36-39 | spelling a pattern entirely in `\uXXXX` escapes does not change what it matches |
| Actions.ActionMatchesPatternPrefix | src/actions.test.ts:157-167 | a pattern `lit*` matches every action that starts with `lit` ignoring case |
| Actions.MatchesAnyAction | src/actions.ts:10-14 | a text that is not exactly two `:`-separated parts matches nothing |
| Actions.MatchesAnyActionSpec | src/actions.ts:10-28 | `service:name` matches exactly when the service exists and some of its actions matches the pattern (wildcards) or equals the name ignoring case (no wildcards) |
| Expand.Resolve | src/expand.ts:68-76 | each option takes the caller's value when given, and the default (off, `Remove`) otherwise |
| Expand.ResolveGiven | src/expand.ts:92 | spreading a full option set over the defaults gives that option set, and spreading nothing gives the defaults |
| Expand.MatchingActions | src/expand.ts:177-180 | the filter keeps, in catalog order, exactly the actions the pattern matches |
| Expand.ExpandString | src/expand.ts:117-175 | a single string fails only with the error an enabled option asks for: invalid format, missing service, or invalid action |
| Expand.ExpandParts | src/expand.ts:144-185 | once split, an expansion fails only with a missing service or an invalid action, each under its option |
| Expand.PartsAsteriskOutputs | src/expand.ts:152-157 | with a listed service and an all-asterisk action part the expansion succeeds, and every action it gives is that service followed by `:` and a name |
| Expand.PartsLiteral | src/expand.ts:159-175 | with a listed service and no `*`, the expansion is the one catalog spelling of the action named ignoring case, or else exactly what `invalidActionBehavior` asks for: nothing, the input, or an invalid-action error |
| Expand.PartsLiteralOutputs | src/expand.ts:159-175 | with a listed service and no `*`, every action the expansion gives is the input itself or the service with a catalog action equal to the name ignoring case |
| Expand.ExpandItems | src/expand.ts:100 | the flat-map succeeds exactly when every element's expansion succeeds |
| Expand.ExpandIamActions | src/expand.ts:91-97 | a falsy argument gives no actions, and a string under the default options never fails |
| Expand.ExpandAllAsterisks | src/expand.ts:117-127 | all asterisks give `["*"]`, or with `expandAsterik` exactly every `service:action` of the catalog in catalog order |
| Expand.ExpandBadFormat | src/expand.ts:129-142 | a text without exactly one `:` gives nothing, or the invalid-format error when that option is on |
| Expand.ExpandUnknownService | src/expand.ts:144-150 | an unknown service gives nothing, or the missing-service error naming the lower-cased service |
| Expand.ExpandServiceAsterisk | src/expand.ts:152-157 | `service:***` gives `service:*`, or with `expandServiceAsterik` every action of the service |
| Expand.ServiceAsteriskOutputs | src/expand.ts:152-157 | every result of `service:***` is qualified by that service |
| Expand.ExpandLiteral | src/expand.ts:159-175 | a name without `*` gives the one catalog action equal to it ignoring case; otherwise nothing, the trimmed input, or the invalid-action error, following `invalidActionBehavior` |
| Expand.ExpandLiteralOutputs | src/expand.ts:159-170 | every result of a literal name is the trimmed input or a catalog action equal to the name ignoring case |
| Expand.ExpandWildcard | src/expand.ts:177-185 | a wildcard name gives exactly the service's matching actions: in catalog order, or sorted under `sort`, with the same multiset either way |
| Expand.WildcardOutput | src/expand.ts:177-180 | the qualified filter holds exactly the matching actions and keeps catalog order |
| Expand.ExpandQualifiedAction | src/expand.ts:159-162 | a catalog action written `service:action` expands to itself |
| Expand.ExpandItemsAppend | src/expand.ts:100 | flat-mapping a concatenation is the concatenation of the flat-maps, and the first failure wins |
| Expand.ExpandList | src/expand.ts:99-115 | a list's result has the values of the flat-map: in order and with repeats by default, de-duplicated in first-occurrence order under `distinct`, sorted under `sort`, strictly increasing under both |
| Expand.ExpandUnionCommutes | src/expand.ts:99-115 | with `distinct` and `sort`, the order of the patterns does not change the result |
| Expand.ExpandCatalogActions | src/expand.ts:100 | a list of catalog actions expands to itself |
| Expand.ExpandIdempotent | src/expand.ts:99-115 | expanding the result of an expansion again gives the same list |
| Invert.Classify | src/invert.ts:21-38 | an element throws exactly when it is not a string, or its kept pattern names an inherited property; it stops the loop exactly when it is all asterisks |
| Invert.Collect | src/invert.ts:21-39 | the loop can only fail with a TypeError |
| Invert.CollectMeaning | src/invert.ts:21-39 | the loop stops at the first all-asterisk element and throws at the first throwing element; otherwise the excluded services are those of the `service:***` elements and each service's patterns are those of its other elements |
| Invert.StepFacts | src/invert.ts:26-38 | one element adds the service of `service:***`, adds the pattern of any other `service:pattern`, and changes nothing else |
| Invert.Unmatched | src/invert.ts:55-57 | the filter keeps, in order, exactly the actions no exclusion pattern matches |
| Invert.ServiceRemainder | src/invert.ts:46-58 | a service yields exactly its qualified actions that no pattern excludes, and nothing when it is excluded whole |
| Invert.Remaining | src/invert.ts:45-58 | over all services, the walk yields exactly the qualified actions that neither an excluded service nor a pattern removes |
| Invert.Survivors | src/invert.ts:41-60 | the final list is strictly increasing |
| Invert.InvertActions | src/invert.ts:9-60 | `invert` fails exactly when the argument is falsy or the loop throws: with the invalid-input error, or with a TypeError caused by a throwing element; otherwise the list it returns is strictly increasing |
| Invert.InvertUnfold | src/invert.ts:41-60 | without an all-asterisk element, the result is the sorted set of the catalog walk over the collected exclusions |
| Invert.ExclusionsMeaning | src/invert.ts:47-57 | an action survives the collected exclusions exactly when no element removes it, whole service or pattern |
| Invert.InvertMembership | src/invert.ts:21-60 | without an all-asterisk element, the result holds exactly the catalog's `service:action` pairs that no element removes |
| Invert.CollectStops | src/invert.ts:22-25 | an all-asterisk element after only non-throwing ones ends the loop with everything excluded |
| Invert.InvertAllAsterisks | src/invert.ts:22-43 | such an element makes the result empty |
| Invert.InvertAsteriskEmpty | src/invert.ts:41-43 | any successful inversion that contains an all-asterisk element is empty |
| Invert.CollectSkip | src/invert.ts:26-29 | an element that is not two `:`-separated parts is skipped: removing it does not change what the loop collects |
| Invert.InvertSkipsMalformed | src/invert.ts:26-29 | removing such an element does not change the result of `invert` |
| Invert.InvertOfCollect | src/invert.ts:41-60 | the result depends only on what the loop collects |
| Invert.InvertUntouchedService | src/invert.ts:51-53 | a service that no element mentions keeps all its actions |
| Invert.InvertWholeService | src/invert.ts:31-34 | after `service:***` none of that service's actions remains |
| ExpandFile.ForceDistinct | src/expand_file.ts:17 | `{...options, distinct: true}` turns `distinct` on and keeps every other option |
| ExpandFile.ExpandDocument | src/expand_file.ts:11-38 | an action value becomes a list of strings; other arrays keep their length and objects their keys; scalars come back unchanged; `null` fails with a TypeError |
| ExpandFile.ExpandElements | src/expand_file.ts:22-26 | walking an array keeps its length |
| ExpandFile.ElementsMeaning | src/expand_file.ts:22-26 | the array walk succeeds exactly when every element's walk does, and each result is that element's walk |
| ExpandFile.ExpandFields | src/expand_file.ts:28-36 | walking an object keeps its keys in order |
| ExpandFile.FieldsMeaning | src/expand_file.ts:28-36 | the object walk succeeds exactly when every value's walk does, and each field becomes its key with that walk under the key |
| ExpandFile.FieldOf | src/expand_file.ts:31-34 | each field of a walked object is its value walked under its own key |
| ExpandFile.ExpandJsonDocument | src/expand_file.ts:38 | a top-level scalar comes back unchanged, and a top-level `null` fails |
| ExpandFile.DocumentIdentity | src/expand_file.test.ts:14-26 | a document without action keys comes back unchanged, unless it holds a `null` |
| ExpandFile.ActionString | src/expand_file.ts:12-15 | a string under `Action` or `NotAction` becomes its expansion under the caller's options |
| ExpandFile.ActionList | src/expand_file.ts:16-19 | a list that starts with a string, under such a key, is replaced by exactly `expandIamActions` of that list with `distinct` forced on; that value has no duplicates and holds exactly the values of the elements' expansions |
| CliUtils.Camel | src/cli_utils.ts:17 | the rewrite never lengthens the text and keeps its first character unless that starts a `-x` pair |
| CliUtils.CamelIsCamelCased | src/cli_utils.ts:17 | after the rewrite no `-` is followed by a lower-case ASCII letter |
| CliUtils.DashToCamelCaseIsCamelCased | src/cli_utils.ts:15-18 | `dashToCamelCase` leaves no `-x` pair with `x` a lower-case letter |
| CliUtils.CamelKebab | src/cli_utils.ts:17 | the rewrite undoes kebab-casing a text without `-` |
| CliUtils.DashToCamelCaseKebab | src/cli_utils.test.ts:28-35 | `--` plus the kebab-cased name converts back to the camel-cased name |
| CliUtils.OptionValueOf | src/cli_utils.ts:30-34 | an option without `=` is a flag, and one with `=` carries text |
| CliUtils.GatherLastWins | src/cli_utils.ts:29-37 | after the loop each key holds the value of its last occurrence, or keeps its earlier value if it does not occur |
| CliUtils.CleanLower | src/cli_utils.ts:41 | capitalising the first letter and lower-casing the rest gives an enum name exactly when the input equals it ignoring case |
| CliUtils.ParseBehaviorIgnoresCase | src/cli_utils.ts:41-43 | a behaviour text names a behaviour exactly when it equals that behaviour's name ignoring case |
| CliUtils.NormalizeBehavior | src/cli_utils.ts:39-48 | a text behaviour is kept only if it parses and dropped otherwise; every other option is untouched |
| CliUtils.ConvertOptions | src/cli_utils.ts:26-51 | the result never has the key `__proto__` |
| CliUtils.ConvertOptionsSpec | src/cli_utils.ts:26-51 | each key holds the value of its last occurrence; `invalidActionBehavior` text is kept only when it names a behaviour |
| CliUtils.MatchAtSpec | src/cli_utils.ts:53 | the match found at a position has the regular expression's shape and is as long as it can be; no match means none of that shape starts there |
| CliUtils.MatchUnique | src/cli_utils.ts:53 | any match of the regular expression at a position has the found match's group start and is no longer than it |
| CliUtils.ScanChained | src/cli_utils.ts:55 | `matchAll` finds non-overlapping matches in increasing position, each resuming where the last ended |
| CliUtils.ScanLeftmost | src/cli_utils.ts:55 | no match starts in a gap between the matches found |
| CliUtils.ScanUnique | src/cli_utils.ts:55 | a chained, leftmost list of matches is the one `matchAll` finds |
| CliUtils.Groups | src/cli_utils.ts:57-59 | the kept groups are `name:action` tokens occurring in the line in order |
| CliUtils.ExtractActions | src/cli_utils.ts:54-60 | every extracted action is a `name:action` token, and they occur in the line in order |
| CliUtils.GroupsSelect | src/cli_utils.ts:57-59 | the groups are those of exactly the matches the filter keeps: every kept match gives its group, no dropped match gives one, and they keep the order of the matches |
| CliUtils.ExtractActionsExact | src/cli_utils.ts:53-60 | there is exactly one chain of leftmost, non-overlapping matches from the start of the line, and the result is the capture group of exactly those of its matches that start with neither `arn:` nor `:`, in order |
| CliUtils.ArnDropped | src/cli_utils.ts:58 | a match whose text starts with `arn:` is dropped |
| CliUtils.ColonDropped | src/cli_utils.ts:58 | a match whose text starts with `:` is dropped |
| CliUtils.ExtractArn | src/cli_utils.test.ts:24 | `arn:aws:apigateway:*::/apis` extracts to nothing: its first match starts with `arn:` and its second with `:` |
| CliUtils.ExtractSingle | src/cli_utils.test.ts:20 | `s3:Put*` extracts to itself |
| CliUtils.ExtractLeadingColon | src/cli_utils.test.ts:21 | `:s3:Put*` extracts to nothing, because the match starts with `:` |
| Duality.RemovesServiceAsterisk | src/expand.ts:152-157 | every expansion of `service:***` is removed by inverting that text |
| Duality.RemovesLiteral | src/expand.ts:159-175 | every catalog action a literal name expands to is removed by inverting that text |
| Duality.RemovesWildcard | src/expand.ts:177-185 | every action a wildcard name expands to is removed by inverting that text |
| Duality.ExpansionRemoved | src/invert.ts:26-38 | every catalog action a trimmed pattern expands to is removed by that pattern's element in `invert` |
| Duality.InvertExcludesExpansion | src/invert.ts:21-60 | nothing that a listed pattern expands to survives `invert` |

## Left out

- `src/cli.ts`, `src/stdin.ts`, `src/index.ts`, `src/readPackageFile.ts` and `src/readPackageFileEsm.ts` are not part of this model. They hold argument dispatch, standard input, package metadata and re-exports, which are all I/O.
- `parseStdInActions` (src/cli_utils.ts:67-78) reads standard input with a timer; only the per-line extraction it applies is modelled.
- The catalog package is a parameter, `Catalog.Catalog`. The model relies on these behaviours:
  - `iamServiceExists` means the key is listed;
  - `iamActionExists` means some action of the service is equal to the name ignoring ASCII case;
  - `iamActionDetails(...).name` is the first such action.
  - A property that needs lower-case keys and case-distinct names states `Catalog.WellFormed` as a requirement.
- `async`, `await` and `Promise.all` are modelled as sequential evaluation. `Promise.all` and `map` preserve order, so results are the same.
- ExpandFile.ElementsMeaning: when several elements of an array fail, the model reports the failure of the first by position. `Promise.all` reports whichever rejects first in time.
- Regular-expression metacharacters other than the wildcards, non-ASCII case folding, and `?` reaching the regular expression of src/expand.ts:178 are excluded by requirements:
  - `Wildcard.SafePattern`, `Expand.StarPattern` and `Text.IsAscii`, through `Expand.Admissible`, `Invert.Admissible` and `Actions.MatchesAnyAdmissible`.
  - A `?` there is a regular-expression quantifier, not a wildcard.
- A backslash in a wildcard action part is pasted into the RegExp of src/expand.ts:177-179, which decodes it as an escape; `\u0042`, for one, stands for `B`. The model does not decode such escapes in `expandIamActions`: `Expand.StarPattern` admits no backslash, so an input whose action part reaches that RegExp (a listed service and a `*` in the text) and holds a backslash is outside `Expand.Admissible`.
- `Wildcard.Unescape`: `unescapeUnicodeCharacters` is imported at src/actions.ts:2 and used at src/actions.ts:37-38; its definition is not part of this model. It is modelled from its test at src/util.test.ts:5-13 as decoding every `\uXXXX` with four hexadecimal digits into one UTF-16 code unit. Surrogate pairs are outside the model, because a Dafny `char` is a Unicode scalar value.
- Wildcard.Matches: a `?` matches one Unicode scalar value, which is one Dafny `char`. The regular expression of src/util.ts:4 has no `u` flag, so there `.` matches one UTF-16 code unit. A character outside the Basic Multilingual Plane is two code units, so it takes two `?` in the source and one in the model. The two agree on text inside the Basic Multilingual Plane, and `Actions.ActionMatchesPattern` inherits this.
- Wildcard.QuestionMarksCount: the length `n` counts Unicode scalar values rather than UTF-16 code units, for the reason just given.
- Ordering: the sort order compares Unicode scalar values. This equals JavaScript's UTF-16 code-unit order for text in the Basic Multilingual Plane.
- Numbers in JSON are integers. The model only uses whether a number is zero (falsy).
- JavaScript prototype quirks:
  - document keys `__proto__` are excluded by `ExpandFile.AdmissibleDocument`;
  - catalog keys that name `Object.prototype` properties are excluded by `Invert.PlainKeys`;
  - invert patterns whose service is such a name are modelled as the TypeError that `.push` raises;
  - in `convertOptions` the key `__proto__` is never stored as a property.
- The "should never happen" branch (src/expand.ts:171-173) is not modelled, because `Expand.InvalidActionBehavior` has exactly three values. An option explicitly set to `undefined` is not modelled either; a missing option takes its default.
- Expand.ExpandParts: its own contract only names the possible failures. The result of each branch is stated elsewhere:
  - a missing service by `Expand.ExpandUnknownService`;
  - an all-asterisk action part by `Expand.PartsAsteriskOutputs` and `Expand.ExpandServiceAsterisk`;
  - a name without `*` by `Expand.PartsLiteral` and `Expand.PartsLiteralOutputs`;
  - a wildcard by `Expand.WildcardBranch`, whose meaning `Expand.ExpandWildcard` states.
- Expand.ExpandString: its own contract only names the possible failures. Each branch's result is stated by `Expand.ExpandAllAsterisks`, `Expand.ExpandBadFormat`, `Expand.ExpandUnknownService`, `Expand.ExpandServiceAsterisk`, `Expand.ExpandLiteral` and `Expand.ExpandWildcard`.
- Expand.ExpandIamActions: its own contract covers only falsy arguments and the default options. The list case is stated by `Expand.ExpandList` and the string case by the branch lemmas above.
- Duality.InvertExcludesExpansion: `invert` does not trim its elements, so the pattern must already be trimmed (`Trim(s) == s`).
- CliUtils.ParseBehavior: only ASCII letters change case; `toUpperCase`/`toLowerCase` of other characters is not modelled.
- Several tests of the repository expect behaviour that the source does not have. The model follows the source:
  - src/expand.test.ts:44-72 passes the option `expandAsterisk`. The source reads `expandAsterik`, so that test gets `["*"]`.
  - src/expand.test.ts:241-257 expects `s3:*` to expand under the default options. The source returns `["s3:*"]`.
  - src/expand.test.ts:314-368 expects sorted results without `sort`. The source keeps catalog order.
  - src/expand.test.ts:415-490 expects `?` wildcards and default de-duplication and sorting in `expandIamActions`. The source does none of these.
  - src/expand.test.ts:492-510 expects `s3:*\u0042ucket*` to give the three `Bucket` actions sorted. The source does find them, because its RegExp reads `\u0042` as `B`, but it returns them in catalog order (`GetBucket`, `PutBucket`, `ListBuckets`).
  - src/invert.test.ts:21 expects the message `actionStringOrStrings is required`. The source throws `at least one action must be provided to invert`, which is `Errors.InvalidInput` here.
  - src/cli_utils.test.ts:19 expects `?` to be extracted, but `?` is not in the regular expression's character class.
  - src/cli_utils.test.ts:22-23 expect an action holding a `\u0067` escape to be extracted whole. The backslash is not in either character class of the regular expression at src/cli_utils.ts:53. In `s3:\u0067et*` it directly follows `s3:`, so the action part is empty: nothing matches and the result is `[]`. In `s3:*\u0067et*` the match ends before the backslash and the result is `["s3:*"]`.
