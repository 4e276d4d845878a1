# risk-assistant in Dafny

risk-assistant is a small decision engine for compliance and risk.

- A **facts file** describes one system as a nested tree: a `base` section and one section per domain.
- A **model directory** holds the rest:
  - **triggers** that activate domains when their `when` condition matches the facts;
  - **questions** per domain;
  - a **controls catalog**;
  - **rules** that require controls when their condition matches.

An evaluation computes three things:
- the activated domains;
- the required questions, with whether each is answered;
- the derived controls, each with the conditions that required it.

The diff compares two model directories on the same facts.

The engine exists twice: a Python command-line tool (`tools/riskctl.py`) and a defensive TypeScript library behind the web app. Around it the web app has:
- the model-diff endpoint;
- copy-on-write editing of facts trees;
- parsers for question and trigger documents;
- display formatting;
- the portfolio manifest of known systems.

This project models all of these over already-parsed documents. It proves the properties the code promises.

## Modules
- `Values`: the parsed document (`Null | B | S | L | M`), plus JavaScript's `rec.name` and `??`, and array index keys.
- `Text`: split, join, ASCII case mapping, JavaScript `trim`.
- `Order`: string order by code point, sorting, and sorting a set.
- `FactPaths`: the dotted-path walk. It is written four times in the repository and modelled once here. `Py` or `Js` says whether a list can be entered by index.
- `Conditions`: condition matching.
  - Python compares structurally.
  - TypeScript compares with `!==`, so a list never equals a list.
- `Requirements`: the required-question list and the missing subsequence.
- `RiskCtl`: the Python engine.
  - validation with warnings;
  - domain activation;
  - control derivation;
  - required and missing questions;
  - the diff.
- `Evaluator`: the TypeScript engine.
  - activation, derivation and required questions;
  - the dump order of a facts object;
  - control links;
  - the assembled evaluation.
- `DiffRoute`: `POST /api/diff`.
- `FactsEdit`: `deepSet` and `deepDelete` of the system editor.
- `UiTypes`: `parseQuestions` and `parseTriggers`.
- `Formatting`: labels for identifiers, booleans, question types and answers.
- `Storage`: `sanitizeSystemId` and the portfolio manifest, as a `Portfolio` class.

How Python and TypeScript differ, made explicit:
- Python `==` and TypeScript `!==` (`Conditions.RegionListEquality`).
- Entering a list by index (`FactPaths.ListIntermediateDiffers`).
- A lone-string `activate` (`Evaluator.StringActivateIgnored`).
- Null versus undefined for an absent fact (`FactPaths.DeepGet` and `FactPaths.Walk`).

The portfolio manifest:
- `createSystem` checks for an existing entry only when the facts file could be read. When it could not, it appends another entry under a name that may already be listed (`Storage.CreateMissingFileDuplicates`).
- Every other manifest operation keeps names unique.

The doc comment of `formatIdentifier` says it handles camelCase. The code only splits at `-` and `_`, so `deploymentModel` stays one word. The model follows the code (`Formatting.CamelCaseIsOneWord`).

## Model

| member | source | states |
|---|---|---|
| FactPaths.ResolveAppend | tools/riskctl.py:35-38 | walking `p + q` is walking `p`, then walking `q` from what it reached |
| FactPaths.ResolveNoneIff | tools/riskctl.py:33-39 | the walk finds nothing exactly when some prefix reaches a value that lacks the next segment or cannot be entered |
| FactPaths.ResolveThroughObjects | web/src/lib/evaluator.ts:39-48 | every value strictly on the way to a found fact is a mapping (Python), or a mapping or list (JavaScript) |
| FactPaths.PyFoundJsFound | tools/riskctl.py:36 | whatever Python's `deep_get` finds, the JavaScript walk finds too, with the same value |
| FactPaths.ListIntermediateDiffers | web/src/lib/evaluator.ts:42-45 | JavaScript reads `a.0` of `{"a": ["x"]}` as `"x"`; Python finds nothing |
| FactPaths.Walk | web/app/api/diff/route.ts:11-20 | the cursor loop returns the walk's result, undefined as `None`; when it finds something, every step was taken |
| FactPaths.DeepGet | web/src/components/systemEditor/facts.ts:3-12 | the null-returning walk (also tools/riskctl.py:33-39 and web/src/lib/evaluator.ts:39-48): non-null exactly when the path exists and holds a non-null value |
| Conditions.StrategyFor | tools/riskctl.py:56 | a pair is a membership test exactly when the fact is a list and the expected value is not |
| Conditions.KeyPath | tools/riskctl.py:50-53 | a dotted key is used as written; a dotless key means `base.<key>` |
| Conditions.KeySegments | web/src/lib/evaluator.ts:52 | a dotless key walks `["base", k]`; a dotted key walks its own segments |
| Conditions.Entries | web/src/lib/evaluator.ts:51 | `Object.entries` of a mapping is its fields; a boolean or null has none |
| Conditions.PairRule | tools/riskctl.py:55-61 | list fact with non-list value: holds iff some element equals the value; otherwise: holds iff fact equals value |
| Conditions.AbsentFact | tools/riskctl.py:59-61 | an absent fact reads as null, so its pair holds only for an expected null |
| Conditions.EmptyMatches | tools/riskctl.py:49-62 | the empty condition matches any facts, in both runtimes |
| Conditions.MatchesUnion | tools/riskctl.py:49-62 | a condition on disjoint keys holds iff each part holds, so pairs are AND-combined |
| Conditions.StrictImpliesStructural | web/src/lib/evaluator.ts:55-59 | a condition that holds under `!==`/`includes` also holds under Python's structural comparison |
| Conditions.StrictListNeverHolds | web/src/lib/evaluator.ts:58 | in TypeScript a list-valued expected value never holds |
| Conditions.TsMatchImpliesPy | web/src/lib/evaluator.ts:50-62 | a TypeScript match is a Python match whenever both walks find the same facts |
| Conditions.RegionMembership | tools/riskctl.py:56-58 | `{region: "eu"}` matches `base.region = ["eu","us"]` in both runtimes |
| Conditions.RegionListEquality | web/src/lib/evaluator.ts:58 | `{region: ["eu","us"]}` matches in Python and never in TypeScript |
| Conditions.RegionListOrder | tools/riskctl.py:60 | Python's list equality is order-sensitive |
| Requirements.Qualified | tools/riskctl.py:415 | `<ns>.<id>` for each id, in order, same length |
| Requirements.DomainIdsMembers | tools/riskctl.py:417-419 | a path comes from the domains iff some activated domain with a question file declares its id |
| Requirements.RequiredIdsMembers | tools/riskctl.py:412-420 | the list starts with every `base.<id>` in file order, and holds exactly the base paths and the activated domains' paths |
| Requirements.DocumentlessDomain | tools/riskctl.py:336-339 | an activated domain without a question file adds nothing |
| Requirements.MissingMembers | tools/riskctl.py:423-429 | a path is missing iff it is required and its fact reads as null; no longer than the required list |
| Requirements.FalseIsAnswered | tools/riskctl.py:427 | a stored `false` is not missing |
| RiskCtl.InvalidItems | tools/riskctl.py:201-204 | every warning names an item of the answer that `allowed` lacks; at most one per item |
| RiskCtl.InvalidItemsComplete | tools/riskctl.py:202-204 | every item `allowed` lacks is warned about |
| RiskCtl.CheckSetItems | tools/riskctl.py:201-204 | the loop over a set answer's items gives exactly one warning per item outside `allowed`, in order |
| RiskCtl.ValidateValue | tools/riskctl.py:177-204 | the method (with its loop over set items) gives exactly the warnings of `validate_value` |
| RiskCtl.BoolAnswer | tools/riskctl.py:183-186 | a bool question warns iff the answer is not a bool, with one `ExpectedBool` warning |
| RiskCtl.EnumOutsideAllowed | tools/riskctl.py:189-195 | an enum string outside a non-empty `allowed` draws exactly the one warning naming it |
| RiskCtl.EmptyAllowedAcceptsAll | tools/riskctl.py:188-204 | an empty or absent `allowed` accepts every enum string and every set list |
| RiskCtl.SetItemsWarnings | tools/riskctl.py:201-204 | no warning when every item is allowed; one per item when none is |
| RiskCtl.NoUnknownKeyFromValues | tools/riskctl.py:177-204 | value validation never reports an unknown key |
| RiskCtl.ValidateScopeFacts | tools/riskctl.py:207-225 | nothing for an absent section; one warning for a non-object; otherwise first one warning per unknown key, each once, then each known question's value warnings once, for its non-null answer, in some order of the questions; nothing else |
| RiskCtl.UnknownKeys | tools/riskctl.py:214-217 | an unknown-key warning iff the section key has no question, each once, and no other kind of warning |
| RiskCtl.CheckAnswers | tools/riskctl.py:219-225 | the warnings so far, then each question of the index once, in some order, with the value warnings of its non-null answer; so the unknown-key warnings are kept and every value warning appears |
| RiskCtl.CheckOne | tools/riskctl.py:219-225 | one turn of the loop adds the value warnings of the question when its answer is present and not null, and nothing otherwise |
| RiskCtl.CheckedMembers | tools/riskctl.py:219-225 | the warnings of the loop come from value checks only, and hold every value warning of each answered question |
| RiskCtl.AnswersAfter | tools/riskctl.py:214-225 | the unknown-key warnings followed by the loop's warnings report exactly the unknown keys and every value warning |
| RiskCtl.Wrapped | tools/riskctl.py:274-276 | a lone string stands for a one-item list, anything else is kept; the same reading of `require` at tools/riskctl.py:299-301 |
| RiskCtl.EvidenceWarnings | tools/riskctl.py:281-285 | every warning names an evidence entry outside the allowed types |
| RiskCtl.CheckEvidence | tools/riskctl.py:281-285 | the evidence loop appends exactly the entry's evidence warnings |
| RiskCtl.CheckControl | tools/riskctl.py:261-285 | one loop iteration gives exactly the warnings of one catalog entry |
| RiskCtl.ValidateControlsCatalog | tools/riskctl.py:255-285 | the loop gives exactly the catalog's warnings, entry by entry |
| RiskCtl.CleanEvidence | tools/riskctl.py:281-285 | allowed evidence types draw no warning |
| RiskCtl.CatalogWarningsCases | tools/riskctl.py:262-272 | an entry with an unknown phase is reported by id and phase; a non-object entry is reported |
| RiskCtl.CleanCatalog | tools/riskctl.py:255-285 | object entries with known phases and evidence types draw no warning |
| RiskCtl.CatalogLastWins | tools/riskctl.py:355 | the catalog is keyed by the entries' `id` values (strings, null or booleans): it holds exactly those ids, and for a repeated id the last entry |
| RiskCtl.CatalogLast | tools/riskctl.py:355 | an id value in the catalog maps to the fields of an entry carrying it that no later entry repeats |
| RiskCtl.DictControlsEmptyCatalog | tools/riskctl.py:256-259 | `controls: {}` draws the not-a-list warning and builds the empty catalog (tools/riskctl.py:355) |
| RiskCtl.NullControlIdFound | tools/riskctl.py:355 | a null control id keys the catalog, so a rule requiring null draws no missing-control warning (tools/riskctl.py:307-310) |
| RiskCtl.MissingIds | tools/riskctl.py:307-310 | every warning names a required id the catalog lacks, with its rule number and condition |
| RiskCtl.CheckRule | tools/riskctl.py:295-310 | one loop iteration gives exactly the warnings of one rule |
| RiskCtl.ValidateControlsRules | tools/riskctl.py:288-310 | the loop gives exactly the rule warnings, rules numbered from 1 |
| RiskCtl.MissingIdsExact | tools/riskctl.py:307-310 | every required id the catalog lacks is reported |
| RiskCtl.MissingControlFlagged | tools/riskctl.py:307-310 | a rule requiring a missing control is reported with its number and `when` |
| RiskCtl.Strings | tools/riskctl.py:325 | iterating a list of strings yields its strings; iterating a string yields its characters |
| RiskCtl.Yield | tools/riskctl.py:325 | what a `for` loop yields: the strings of a list or the characters of a string, and for a dict each key once, no other |
| RiskCtl.EntriesOf | tools/riskctl.py:321 | the entries `for x in doc.get(key, [])` visits: the list's items, or none when the key is absent (also tools/riskctl.py:358) |
| RiskCtl.ActivatedSnoc | tools/riskctl.py:322-326 | one more trigger adds its `activate` domains exactly when its `when` matches |
| RiskCtl.AddDomains | tools/riskctl.py:325-326 | the set after the inner loop is the old set plus the listed domains |
| RiskCtl.AddTrigger | tools/riskctl.py:323-326 | one trigger adds exactly its domains when its `when` matches, and nothing otherwise |
| RiskCtl.DeriveActivatedDomains | tools/riskctl.py:318-329 | the method returns the sorted set of domains of matching triggers |
| RiskCtl.ActivatedMembers | tools/riskctl.py:318-329 | the result is strictly sorted, and `d` is in it iff some matching trigger activates `d` |
| RiskCtl.ActivatedMonotone | tools/riskctl.py:322-326 | more triggers never deactivate a domain |
| RiskCtl.AppendAllAt | tools/riskctl.py:362-363 | `setdefault(...).append` for each id: the key set grows by the ids, and each list grows by one condition per occurrence |
| RiskCtl.DerivedAt | tools/riskctl.py:359-363 | under either reading of a lone-string `require`, each id's list is its provenance: matching rules' conditions in rule order, one per occurrence |
| RiskCtl.GatherAt | tools/riskctl.py:359-363 | the list the rule firings build for an id is its provenance |
| RiskCtl.GatherKeys | tools/riskctl.py:359-363 | an id gets a list iff some firing carries it |
| RiskCtl.DerivedKeys | tools/riskctl.py:359-363 | under either reading, an id is derived iff some matching rule requires it |
| RiskCtl.TwoRulesTwoEntries | tools/riskctl.py:359-363 | under either reading, two matching rules requiring `cid` give it two entries, in rule order |
| RiskCtl.ProvenanceOfOnes | tools/riskctl.py:359-363 | two firings of one id each give the id both conditions, in order |
| RiskCtl.FiringOf | tools/riskctl.py:360-362 | a rule fires the ids its `require` yields when its `when` matches, and none otherwise, carrying its condition |
| RiskCtl.Firings | tools/riskctl.py:359-363 | one firing per rule, in order |
| RiskCtl.DistinctOccurrences | tools/riskctl.py:362-363 | an id list without repeats holds each id once, so each id gets one condition per firing |
| RiskCtl.DistinctIdsOrderFree | tools/riskctl.py:362-363 | appending along two repeat-free id lists with the same members gives the same map: the order a dict `require` yields its keys in does not show |
| RiskCtl.ReadingsDifferOnStrings | tools/riskctl.py:362 | the two readings of `require` differ only for a lone string |
| RiskCtl.ReadingsAgree | tools/riskctl.py:359-363 | without a lone-string `require` on a matching rule, the two readings derive the same map |
| RiskCtl.AppendRequired | tools/riskctl.py:360-363 | as written, one rule's turn appends its condition once per id its `require` yields when it matches, and changes nothing otherwise |
| RiskCtl.AppendEach | tools/riskctl.py:362-363 | the inner loop is `setdefault(...).append` for each id, in order |
| RiskCtl.DeriveLoop | tools/riskctl.py:357-363 | the loop builds exactly the derived map, as written |
| RiskCtl.DeriveControls | tools/riskctl.py:344-365 | the as-written derived map (a lone-string `require` yields its characters), the last-wins catalog (empty for `controls: {}` or `""`, which the catalog validator reports), and catalog then rule warnings; the warnings never change the derived map |
| RiskCtl.UnknownReferenceTolerated | tools/riskctl.py:353-363 | under either reading, an id missing from the catalog is still derived; the rule validator reports it when `require` is a list, or a lone string under the corrected reading |
| RiskCtl.RequireStringSplit | tools/riskctl.py:362 | as written, `require: "ctl-1"` derives five one-character ids, but validates as one id |
| RiskCtl.RequireIdsAgreeWithValidator | tools/riskctl.py:299-301 | corrected: the derivation reads exactly the ids the validator checks, for a list or a lone string |
| RiskCtl.QuestionIds | tools/riskctl.py:414 | the ids of the questions, in file order, one per question, each as Python formats it (`None`, `True`, `False` for null and booleans); none for `questions: {}` or `""` |
| RiskCtl.NullIdSpelledNone | tools/riskctl.py:415 | a null id and the string id `None` give the same question path; null and booleans format as `None`, `True`, `False` |
| RiskCtl.IdsOf | tools/riskctl.py:336-341 | a domain has ids exactly when its question file exists |
| RiskCtl.AppendDomainQuestions | tools/riskctl.py:418-419 | the inner loop appends the domain's qualified ids, or nothing without a file |
| RiskCtl.RequiredQuestionIds | tools/riskctl.py:412-420 | the loop builds exactly the required list, with ids formatted as Python formats them |
| RiskCtl.MissingRequiredQuestions | tools/riskctl.py:423-429 | the loop keeps exactly the required paths whose `deep_get` is None, in order |
| RiskCtl.Diff | tools/riskctl.py:514-521 | each list strictly sorted; added = new − old, removed = old − new, newly missing = new − old, no longer missing = old − new; domains as given |
| RiskCtl.DiffModels | tools/riskctl.py:476-521 | an error for a non-mapping facts document; otherwise the report of the two evaluations |
| RiskCtl.DiffSwap | tools/riskctl.py:517-521 | swapping the models swaps added with removed and newly with no longer missing |
| RiskCtl.DiffSelf | tools/riskctl.py:514-521 | a model diffed with itself reports nothing |
| RiskCtl.NewRuleAddsControl | tools/riskctl.py:503-518 | as the command-line diff runs it, a control only the new model's matching rule requires is added, never removed |
| Evaluator.OrEmpty | web/src/lib/evaluator.ts:75 | `t ?? {}`: null becomes `{}`, anything else is kept |
| Evaluator.ListAt | web/src/lib/evaluator.ts:68-73 | the named array of a document object, `[]` otherwise |
| Evaluator.CondOf | web/src/lib/evaluator.ts:76 | a missing `when` means the empty condition |
| Evaluator.StringsIn | web/src/lib/evaluator.ts:80-81 | exactly the string elements, no more of them than the elements |
| Evaluator.ActivatedSnoc | web/src/lib/evaluator.ts:74-85 | one more trigger adds its string `activate` entries exactly when its condition matches |
| Evaluator.AddAll | web/src/lib/evaluator.ts:80-81 | `Set.add` keeps insertion order, adds no repeat and holds exactly the old members and the new |
| Evaluator.AddTrigger | web/src/lib/evaluator.ts:75-84 | one trigger adds exactly its string domains when its condition matches, with no repeats |
| Evaluator.ActivatedList | web/src/lib/evaluator.ts:66-85 | the loop's set holds, without repeats, exactly the domains of the matching triggers |
| Evaluator.DeriveActivatedDomains | web/src/lib/evaluator.ts:64-89 | the method returns the sorted set of the matching triggers' string domains; `[]` without a `triggers` array |
| Evaluator.StringActivateIgnored | web/src/lib/evaluator.ts:79 | a string `activate` activates nothing here |
| Evaluator.CatalogOfAt | web/src/lib/evaluator.ts:109-118 | the catalog holds an id iff some control carries it as a string, and then the last such control |
| Evaluator.BuildCatalog | web/src/lib/evaluator.ts:112-116 | the loop builds exactly the catalog |
| Evaluator.FiringOf | web/src/lib/evaluator.ts:129-133 | a rule fires its string `require` ids when its condition matches, and none otherwise |
| Evaluator.Firings | web/src/lib/evaluator.ts:128-141 | one firing per rule, in order |
| Evaluator.PushKeys | web/src/lib/evaluator.ts:134-138 | the entries after the inner loop are the old ones plus the fired ids |
| Evaluator.PushAllAt | web/src/lib/evaluator.ts:136-137 | each entry gains one condition per occurrence of its id and keeps its catalog entry |
| Evaluator.AccumulateKeys | web/src/lib/evaluator.ts:127-142 | an id has an entry iff some rule fired it |
| Evaluator.AccumulateAt | web/src/lib/evaluator.ts:127-142 | each entry holds the catalog entry (or null) and exactly its provenance |
| Evaluator.BecauseEmpty | web/src/lib/evaluator.ts:136-137 | an id no rule fired has no provenance |
| Evaluator.PushRule | web/src/lib/evaluator.ts:134-138 | the inner loop of one matching rule |
| Evaluator.ApplyRule | web/src/lib/evaluator.ts:129-140 | one rule's turn pushes its condition for each string id it fires, and nothing when it does not match |
| Evaluator.DeriveControls | web/src/lib/evaluator.ts:104-145 | the method builds exactly the derived map of the rules against the last-wins catalog |
| Evaluator.DerivedControlsListed | web/src/lib/evaluator.ts:250-263 | listed once each in ascending order; `cid` listed iff a matching rule requires it, with its catalog entry and provenance |
| Evaluator.IdsIn | web/src/lib/evaluator.ts:155-160 | no more ids than questions |
| Evaluator.IdsInMembers | web/src/lib/evaluator.ts:155-160 | an id is collected iff some question is an object with that string `id` |
| Evaluator.IdsOf | web/src/lib/evaluator.ts:91-102 | a domain has ids exactly when its file could be read |
| Evaluator.CollectIds | web/src/lib/evaluator.ts:166-171 | the loop appends exactly the domain's qualified ids |
| Evaluator.CollectDomain | web/src/lib/evaluator.ts:164-172 | one domain's turn appends that domain's qualified ids, or nothing without its file |
| Evaluator.RequiredQuestionIds | web/src/lib/evaluator.ts:147-174 | the method builds the required list of the web engine, which skips ids that are not strings; `DiffRoute.EnginesAgreeOnRequired` shows it is the Python engine's list when all ids are strings |
| Evaluator.FilterIn | web/src/lib/evaluator.ts:193-195 | keeps exactly the keys present |
| Evaluator.FilterOut | web/src/lib/evaluator.ts:196-198 | keeps exactly the keys outside the set (also `setDiff`, web/app/api/diff/route.ts:7-9) |
| Evaluator.FilterInDistinct | web/src/lib/evaluator.ts:193-195 | filtering keeps keys distinct |
| Evaluator.FilterOutDistinct | web/src/lib/evaluator.ts:196-198 | filtering keeps keys distinct |
| Evaluator.DumpOrderDistinct | web/src/lib/evaluator.ts:178-191 | the fixed section order has no repeats |
| Evaluator.TakeListed | web/src/lib/evaluator.ts:193-195 | the first loop copies the listed sections present, in list order |
| Evaluator.TakeIfAbsent | web/src/lib/evaluator.ts:197 | one step of the second loop copies the key unless `k in out` finds it: already copied, or named like an `Object.prototype` member |
| Evaluator.TakeRest | web/src/lib/evaluator.ts:196-198 | the second loop appends every unlisted key in its own order |
| Evaluator.NormalizeFactsForDump | web/src/lib/evaluator.ts:176-200 | keys in dump order; the same value for every own key not named like an `Object.prototype` member; those keys are dropped |
| Evaluator.DumpKeysPermutation | web/src/lib/evaluator.ts:176-200 | the dump keys have no repeats and are exactly the input keys not named like an `Object.prototype` member |
| Evaluator.OrderNotInherited | web/src/lib/evaluator.ts:178-191 | no listed section is named like an `Object.prototype` member, so the first loop copies every listed section present |
| Evaluator.FilterInSame | web/src/lib/evaluator.ts:193-195 | the first loop depends only on which listed sections the object holds |
| Evaluator.ReorderTwice | web/src/lib/evaluator.ts:193-198 | reordering by leading keys while dropping some other keys, done twice, is done once |
| Evaluator.DumpKeysIdempotent | web/src/lib/evaluator.ts:176-200 | normalizing a normalized object changes nothing |
| Evaluator.FilterOutIn | web/src/lib/evaluator.ts:197 | keys all listed leave nothing |
| Evaluator.FilterOutAppend | web/src/lib/evaluator.ts:196-198 | filtering distributes over concatenation |
| Evaluator.FilterOutTwice | web/src/lib/evaluator.ts:196-198 | filtering twice is filtering once |
| Evaluator.RefsOf | web/src/lib/evaluator.ts:217-229 | no more references than entries |
| Evaluator.CollectRefs | web/src/lib/evaluator.ts:216-229 | the inner loop keeps exactly the well-formed references in order |
| Evaluator.LoadControlLinks | web/src/lib/evaluator.ts:202-240 | an unreadable file gives the empty map; otherwise the links of the `links` array |
| Evaluator.LinksNonEmpty | web/src/lib/evaluator.ts:230-232 | no control is linked to an empty reference list |
| Evaluator.EmptyLinkKeepsEarlier | web/src/lib/evaluator.ts:230-232 | any link that enters nothing (no string control id, or no well-formed reference) leaves the map, and so an earlier link of the control, as it was |
| Evaluator.LinksKeys | web/src/lib/evaluator.ts:218-232 | a control is linked iff some link enters the map for it |
| Evaluator.LinksLastWins | web/src/lib/evaluator.ts:230-232 | a linked control holds the references of the last link entering it |
| Evaluator.ViewOf | web/src/lib/evaluator.ts:252-265 | id and provenance kept; catalog defaults for a missing control; `references` present iff non-empty |
| Evaluator.Answer | web/src/lib/evaluator.ts:245 | one entry per required id, answered iff its fact is not null |
| Evaluator.UnansweredIsMissing | web/src/lib/evaluator.ts:245 | the unanswered ids are exactly the missing list of the same requirements |
| Evaluator.BuildViews | web/src/lib/evaluator.ts:252-266 | one view per id, in order |
| Evaluator.EvaluateFacts | web/src/lib/evaluator.ts:242-273 | the result's domains, required questions and controls (sorted by id) are those of the specification functions |
| Order.StrictlySortedDistinct | web/app/api/diff/route.ts:59-60 | a strictly sorted id list has no repeats (also used for the sorted keys a mapping yields) |
| DiffRoute.SortedDiffIsSetDifference | web/app/api/diff/route.ts:7-9 | `setDiff(a, b).sort()` is the sorted set difference, whatever the insertion order |
| DiffRoute.MissingFromRequired | web/app/api/diff/route.ts:22-29 | no repeats; a path is in it iff it is required and its fact is undefined or null |
| DiffRoute.ViewIds | web/app/api/diff/route.ts:56-57 | the ids of the views, in order |
| DiffRoute.MissingAsSet | web/app/api/diff/route.ts:66-67 | the route's missing set is the missing list of the requirements |
| DiffRoute.EvaluateSide | web/app/api/diff/route.ts:53-67 | one side's domains, control ids and missing paths |
| DiffRoute.MissingOfSide | web/app/api/diff/route.ts:63-67 | one side's missing questions, without repeats, form exactly the model's missing set |
| DiffRoute.Diff | web/app/api/diff/route.ts:31-78 | the response is the command-line diff of the two evaluations, domains verbatim |
| DiffRoute.DiffSelf | web/app/api/diff/route.ts:56-70 | a model compared with itself reports no change |
| DiffRoute.NewlyMissingMeansNewRequirement | web/app/api/diff/route.ts:63-69 | newly missing iff null or undefined, required by the new model, and not by the old |
| DiffRoute.EnginesAgreeOnQuestionIds | web/src/lib/evaluator.ts:155-160 | on a question document the Python engine reads whose ids are all strings, the web engine collects the same ids, in the same order (tools/riskctl.py:414) |
| DiffRoute.EnginesAgreeOnRequired | web/src/lib/evaluator.ts:147-174 | on question documents whose ids are all strings, both engines require the same list (tools/riskctl.py:412-420) |
| DiffRoute.EnginesDivergeOnBooleanId | web/src/lib/evaluator.ts:155-160 | for `questions: [{id: true}]` Python requires `True` (tools/riskctl.py:414-415) and the web engine skips the id |
| FactsEdit.Spread | web/src/components/systemEditor/facts.ts:16 | the spread of a mapping is its fields; anything but an object spreads to `{}` |
| FactsEdit.PlugBack | web/src/components/systemEditor/facts.ts:22-23 | rebuilding the copied ancestors around the cursor gives the finished tree |
| FactsEdit.SetStep | web/src/components/systemEditor/facts.ts:19-23 | one cursor step of `deepSet` |
| FactsEdit.PlugPush | web/src/components/systemEditor/facts.ts:22-23 | moving the cursor down pushes the parent |
| FactsEdit.DeepSet | web/src/components/systemEditor/facts.ts:14-27 | the loop builds the copied tree with the last segment set |
| FactsEdit.DeepDelete | web/src/components/systemEditor/facts.ts:29-45 | the loop, with its early return, builds the copied tree with the last segment removed |
| FactsEdit.SpreadChild | web/src/components/systemEditor/facts.ts:16 | a spread copy answers each step as the original does |
| FactsEdit.SpreadResolve | web/src/components/systemEditor/facts.ts:21 | a spread copy is walked as the original is |
| FactsEdit.GetAfterSet | web/src/components/systemEditor/facts.ts:14-27 | `deepGet(deepSet(o, p, v), p) == v` |
| FactsEdit.SetKeepsOthers | web/src/components/systemEditor/facts.ts:19-24 | a path leaving the set path reads as before |
| FactsEdit.GetAfterDelete | web/src/components/systemEditor/facts.ts:29-45 | after `deepDelete(o, p)` the path is absent |
| FactsEdit.DeleteKeepsOthers | web/src/components/systemEditor/facts.ts:33-43 | a path leaving the deleted path reads as before |
| FactsEdit.SetIdempotent | web/src/components/systemEditor/facts.ts:14-27 | setting twice is setting once |
| FactsEdit.DeleteIdempotent | web/src/components/systemEditor/facts.ts:29-45 | deleting twice is deleting once |
| FactsEdit.DeleteUnderScalar | web/src/components/systemEditor/facts.ts:36-38 | for any path that, through mappings, meets a value that is not an object before its last segment, deleting gives a copy equal to the input |
| UiTypes.TypeOf | web/src/lib/uiTypes.ts:26 | each known type iff the raw `type` is that string |
| UiTypes.ParseQuestions | web/src/lib/uiTypes.ts:16-40 | the loop keeps exactly the items that read as questions, in order |
| UiTypes.ParsedQuestionsMembers | web/src/lib/uiTypes.ts:16-40 | a question is kept iff some item reads as it; no more questions than items |
| UiTypes.KeptMembers | web/src/lib/uiTypes.ts:16-40 | a parsed item is kept iff some raw item parses as it; no more are kept than there are items |
| UiTypes.QuestionShape | web/src/lib/uiTypes.ts:25-36 | string id and text, known type, trimmed non-blank description, allowed iff an array, holding its strings |
| UiTypes.ParsedIdsRequired | web/src/lib/uiTypes.ts:21-25 | every shown question is one the evaluator requires |
| UiTypes.UntitledQuestionRequiredButHidden | web/src/lib/uiTypes.ts:25 | a question without `text` is required but not shown |
| UiTypes.ParseTriggers | web/src/lib/uiTypes.ts:42-55 | the loop keeps exactly the items that read as triggers, in order |
| UiTypes.ParsedTriggersMembers | web/src/lib/uiTypes.ts:42-55 | a trigger is kept iff some item has an object `when` and an array `activate` |
| UiTypes.KeptTriggerAgrees | web/src/lib/uiTypes.ts:47-52 | a kept trigger has the evaluator's condition and domains |
| UiTypes.MissingWhenStillActivates | web/src/lib/uiTypes.ts:49 | a trigger without `when` is dropped here but activates in the evaluator |
| Formatting.FormatBoolean | web/src/lib/formatting.ts:55-58 | `—` iff absent, `Yes` iff true, `No` iff false |
| Formatting.CapitalizeFirst | web/src/lib/formatting.ts:121-123 | keeps the length of the word; that it changes letter case only is `Formatting.CaseOnly` |
| Formatting.ConstructorAsWritten | web/src/lib/formatting.ts:47 | as written, `constructor` renders as the source text of `Object` |
| Formatting.ConstructorCorrected | web/src/lib/formatting.ts:47 | with only the table's own entries, `constructor` renders as `Constructor` |
| Formatting.IdempotenceFailsAsWritten | web/src/lib/formatting.ts:43-49 | as written, formatting `constructor` twice differs from formatting it once |
| Formatting.LookupsAgree | web/src/lib/formatting.ts:43-49 | an identifier no word of which is `constructor` formats the same under both lookups |
| Formatting.TableLookup | web/src/lib/formatting.ts:47 | an abbreviation gives its capitals; otherwise a hit iff the lookup is as written and the word is `constructor` |
| Formatting.FormatWords | web/src/lib/formatting.ts:45-48 | one formatted word per word, in order |
| Formatting.FormatWordKeepsLetters | web/src/lib/formatting.ts:45-48 | a formatted word differs from the word only in letter case |
| Formatting.CaseOnly | web/src/lib/formatting.ts:47-48 | capitalizing, and spelling an abbreviation in capitals, change letter case only |
| Formatting.LongWordIs | web/src/lib/formatting.ts:43-49 | a separator-free identifier longer than any abbreviation is capitalized |
| Formatting.AsWrittenAgreesElsewhere | web/src/lib/formatting.ts:46-47 | for every other word the as-written lookup gives the corrected label |
| Formatting.OneWord | web/src/lib/formatting.ts:43-49 | an identifier without separators is one formatted word |
| Formatting.TwoWords | web/src/lib/formatting.ts:43-49 | two words joined by `-` or `_` are formatted apart, separated by a space |
| Formatting.PlainWord | web/src/lib/formatting.ts:47 | a lower-case non-abbreviation is capitalized: with own entries only, or as written for any word but `constructor` |
| Formatting.NonEuExample | web/src/lib/formatting.ts:11 | `non_eu` is `Non EU` |
| Formatting.DeploymentModelExample | web/src/lib/formatting.ts:11 | `deployment_model` is `Deployment Model` |
| Formatting.CamelCaseIsOneWord | web/src/lib/formatting.ts:10 | `deploymentModel` is not split: `DeploymentModel` |
| Formatting.QuestionTypeLabels | web/src/lib/formatting.ts:110-114 | bool, enum and set have their descriptions |
| Formatting.FallbackLabel | web/src/lib/formatting.ts:115 | every other type is formatted as an identifier; a name inherited from `Object.prototype` yields no string |
| Formatting.MultiSelectLabel | web/src/lib/formatting.ts:115 | `multi_select` is shown as `Multi Select` |
| Formatting.AnswerListOfTwo | web/src/lib/formatting.ts:131-134 | a list answer shows its formatted strings joined by `, ` |
| Formatting.AnswerSingleton | web/src/lib/formatting.ts:131-134 | a one-item list shows a string item as a string answer would be shown, anything else as `String(x)` |
| Formatting.AnswerListSnoc | web/src/lib/formatting.ts:131-134 | one more list item appends `, ` and that item's display, so any list is its items' displays joined by `, ` |
| Formatting.DashIsAmbiguous | web/src/lib/formatting.ts:129 | a missing answer and the answer `—` display alike |
| Formatting.AbbreviationsLower | web/src/lib/formatting.ts:15-41 | the table's keys are lower case |
| Formatting.AbbreviationShape | web/src/lib/formatting.ts:15-41 | each display form is a capital word that lower-cases to its key |
| Formatting.FormatWordShape | web/src/lib/formatting.ts:45-48 | a formatted word has no separator and, when the lookup finds nothing inherited for it, formatting it again changes nothing |
| Formatting.JoinShape | web/src/lib/formatting.ts:49 | joined words contain no separator; two or more contain a space |
| Formatting.FormatIdentifierIdempotent | web/src/lib/formatting.ts:13-50 | formatting a label again changes nothing, with own entries only, or as written when no word is `constructor` |
| Formatting.SpacedLabelSettles | web/src/lib/formatting.ts:43-49 | a formatted label of two or more words is left alone |
| Formatting.AliasesAgreeAndSettle | web/src/lib/formatting.ts:64-103 | the five aliases agree, and are idempotent as written when no word is `constructor` |
| Storage.SanitizedIsSafe | web/src/lib/storage.ts:60-65 | the result is non-empty, only `[A-Za-z0-9_-]`, and neither starts nor ends with `-` |
| Storage.SanitizeFixesExactlySafe | web/src/lib/storage.ts:60-65 | an id is left unchanged iff it is already safe |
| Storage.SafeIsClean | web/src/lib/storage.ts:60-65 | a safe id comes through sanitizing unchanged |
| Storage.SanitizeIdempotent | web/src/lib/storage.ts:60-65 | sanitizing twice is sanitizing once |
| Storage.SanitizeBlank | web/src/lib/storage.ts:64 | an id of only dashes and other characters becomes `system` |
| Storage.RunCollapses | web/src/lib/storage.ts:63 | any run of other characters after an id character becomes one dash, whatever follows |
| Storage.DashBesideRunKept | web/src/lib/storage.ts:63 | a dash of the id right after a run is kept, giving two dashes, whatever surrounds them |
| Storage.ReplaceRunsClean | web/src/lib/storage.ts:63 | only id characters come out; an id of id characters is unchanged |
| Storage.ReplaceRunsConcat | web/src/lib/storage.ts:63 | replacing in `x + y` is replacing in `x`, then in `y` knowing whether `x` ended in a run |
| Storage.RunToDash | web/src/lib/storage.ts:63 | a run of other characters becomes one dash, or nothing when it continues a run |
| Storage.Portfolio.ListSystems | web/src/lib/storage.ts:67-70 | sorted, and a permutation of the entry names |
| Storage.Portfolio.CreateSystem | web/src/lib/storage.ts:91-135 | the sanitized id and target path; the entry added unless the file was readable and the name listed |
| Storage.Portfolio.DeleteSystem | web/src/lib/storage.ts:149-169 | true iff listed and unlinked; then the name's entries dropped, else nothing changes |
| Storage.Portfolio.AddExistingSystem | web/src/lib/storage.ts:171-199 | invalid file and listed id are errors that change nothing; otherwise exactly one entry appended |
| Storage.Portfolio.RemoveFromPortfolio | web/src/lib/storage.ts:201-212 | true iff listed; the name's entries dropped, the others kept in order |
| Storage.WithoutMembers | web/src/lib/storage.ts:208 | the filter keeps exactly the entries under other names |
| Storage.WithoutRemovesName | web/src/lib/storage.ts:208 | after removal no entry has the name |
| Storage.WithoutAbsent | web/src/lib/storage.ts:205 | removing an unlisted name changes nothing |
| Storage.WithoutKeepsUnique | web/src/lib/storage.ts:162 | removal keeps names unique |
| Storage.CreateReadableKeepsUnique | web/src/lib/storage.ts:113-117 | creating over a readable file keeps names unique |
| Storage.CreateMissingFileDuplicates | web/src/lib/storage.ts:128-130 | creating a listed system whose file is missing lists it twice |
| Storage.DeletedNotListed | web/src/lib/storage.ts:162 | a deleted system is no longer listed |

## Left out
- Reading and writing files: YAML loading and dumping, `model_paths`/`modelPaths`, listing question files, component headers, `findRepoRoot`, and the `fs` calls of `storage.ts`. Documents are passed in already parsed. What the file system answers is passed in as a parameter: whether a file exists and can be read, whether unlinking succeeds, and what a file holds.
- The command-line interface: `main`, the `print_*` functions, `evaluate`'s printing, and `tools/riskctl.ts`, which repeats the diff's set arithmetic.
- `warn` writes to standard error. Warnings are returned as a sequence instead.
- React components, charts, themes, HTTP plumbing, request schemas and API clients. `POST /api/diff` is modelled from the validated request on.
- Numbers, and Python's `True == 1`. Values are null, booleans, strings, lists and mappings.
- In JavaScript, names inherited from `Object.prototype` (`constructor`, `toString`, …) are modelled where the core looks them up in an object literal: `formatIdentifier`'s table (see Findings), `formatQuestionType`'s table, and `k in out` in `normalizeFactsForDump`. They are not modelled for `in` and property reads on facts documents, nor for the writes of `deepSet` (see the `FactsEdit.DeepSet` line).
- Evaluator.DeriveControls: a matching rule whose `require` names a control id that is an inherited name finds the inherited member in `derived`, and `derived[cid].because.push` throws a `TypeError`. The model derives an ordinary entry for that id instead.
- Evaluator.EvaluateFacts: inherits the same gap from `DeriveControls`; the thrown `TypeError` is not modelled.
- DiffRoute.Diff: the same throw makes the route answer 500; the model gives a diff instead.
- Formatting.FormatQuestionType: for an inherited name, `specialDescriptions[type]` returns a function, not a string. The model returns `None` for that case and says nothing about the value.
- RiskCtl.TriggersDefined and RiskCtl.DeriveDefined: where the Python code would raise (`in` on a non-container, `.get` on a non-dict, iterating a non-iterable), the model has a `requires` instead. Each one constrains only what Python reads; for example, `require` is read only when the rule's `when` matches. Each `require` and `activate` has to hold strings, so an id list with other items is excluded.
- RiskCtl.CatalogBuildable: a control `id` that is a list or a mapping is unhashable, so the dict comprehension raises; the model requires a string, null or boolean id there, as it requires what Python needs elsewhere.
- RiskCtl.QuestionIds: a question `id` that is a list or a mapping is formatted by Python's `repr` (`base.['a']`), which is not modelled; the model requires a string, null or boolean id.
- RiskCtl.IdsOf: inherits that requirement for every domain's question file.
- RiskCtl.AppendDomainQuestions: inherits the same requirement.
- RiskCtl.RequiredQuestionIds: inherits the same requirement, for the base file and the domain files.
- RiskCtl.DiffModels: inherits the same requirement, through `ModelDefined`.
- RiskCtl.DiffSelf: holds for every model `ModelDefined` admits, so it shares that one gap.
- RiskCtl.NewRuleAddsControl: holds for every model `ModelDefined` admits, so it shares that one gap.
- RiskCtl.Yield: a dict `require` or `activate` yields its keys in sorted order, not in Python's insertion order. `RiskCtl.DistinctIdsOrderFree` shows that the derived map does not depend on that order. The activated domains are sorted afterwards either way.
- RiskCtl.DeriveControls: follows the code as written, so a lone-string `require` yields its characters. The lemmas about the derived map hold for both readings (see Findings).
- `length` of an array under `in` is not modelled; only its index keys are.
- Case mapping is ASCII only. Sorting compares characters by code point, as Python does. JavaScript's `sort` compares UTF-16 code units, which differs only for characters outside the Basic Multilingual Plane.
- FactsEdit.DeepSet: a `__proto__` path segment makes `cur[p] = nextObj` replace the prototype of the copy rather than add an own key; the model adds an own key.
- FactsEdit.DeepSet: the copies are values. Whether the input and the result share no object is not modelled, only that the result is built from copies.
- Evaluator.NormalizeFactsForDump: `Object.keys` puts integer-like keys first. Key order here is insertion order.
- RiskCtl.ValidateScopeFacts: the unknown-key warnings come first, then each question once. The order within each group is left open, because Python's dict order is not modelled for the section map and question index.
- RiskCtl.UnknownKeys: states which warnings appear, each once, but not their order, for the same reason.
- RiskCtl.CheckAnswers: states that each question is visited once, in some order, but not which order.
- `readPortfolio`'s fall back to an empty manifest, `writePortfolio`, `getSystemFacts` and `saveSystemFacts` are file reads and writes around the manifest. The `Portfolio` object holds the manifest as read.
- Storage.Portfolio.CreateSystem: returns the target path before it is resolved against the repository root. Directory creation and the write of the default facts file are left out.
- Storage.Portfolio.AddExistingSystem: takes the file's base name without extension as a parameter; `path.basename` and `path.extname` are not modelled.
- Formatting.FormatAnswerValue: `String(v)` of numbers and objects is not modelled; nested arrays follow JavaScript's comma join.

## Findings

| source | as written | input that shows it | evidently intended | confidence | as-written member | corrected member |
|---|---|---|---|---|---|---|
| tools/riskctl.py:362 | derivation iterates `rule.get("require", [])`, so a lone string yields its characters | a rule with `require: "ctl-1"` derives `c`, `t`, `l`, `-`, `1` | a lone string names one control, as the validator reads it at tools/riskctl.py:300-301 | medium, not executed | RiskCtl.RequireStringSplit | RiskCtl.RequireIdsAgreeWithValidator |
| web/src/lib/formatting.ts:47 | `specialCases[lower]` also finds inherited members of the object literal | the identifier `constructor` renders as `function Object() { [native code] }` | only the table's own entries count, giving `Constructor` | high, not executed | Formatting.ConstructorAsWritten | Formatting.ConstructorCorrected |

Both readings are kept in the model, and the operations follow the code as written:
- `RiskCtl.Reading` names the two readings of `require`. The derivation methods use `AsWritten`. The lemmas about the derived map hold for either reading. `RiskCtl.ReadingsAgree` shows that the readings derive the same map unless a matching rule has a lone-string `require`.
- `Formatting.Lookup` names the two table lookups. The labels the web app shows use `Inherited`. `Formatting.LookupsAgree` shows that the lookups agree unless some word is `constructor`. `Formatting.FormatIdentifierIdempotent` holds for the own-entry lookup always, and for the as-written lookup on identifiers without that word.
