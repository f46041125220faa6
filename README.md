# Spectral rule engine core, in Dafny

This project models the core of Spectral's rule engine: the logic that turns
a ruleset and a document into a list of violations, and the rule-exception
(`except`) tables that keep chosen violations out of that list. The model
covers these parts:

- **Exception locations** (`Exceptions`, `Refs`). `normalize` checks a
  `source#pointer` location and rebases a relative source on the ruleset's
  directory. `buildErrorMessage` writes the error when a location is
  rejected. `mergeExceptions` folds one table of location → rule names into
  another, in place, and leaves each list as a sorted set. The ref-splitting,
  `isAbsolute` and `join` helpers that `normalize` calls are written out in
  `Refs`.
- **Pivoting** (`Pivot`). `pivotExceptions` turns location → rules into
  rule → locations.
- **Violation building** (`Linter`, `Things`). `lintNode` evaluates one rule
  clause on one node and builds a violation for each failure: its path,
  range, source, message and message variables. `extractThings` chooses the
  path, document and range. The exception filter `shouldBeKept` is applied
  last.
- **Rule dispatch** (`Runner`). `isRuleEnabled`, `runRules`, `runRule` and
  `lint` skip rules by format and by severity, special-case the `$` given
  path, skip unknown functions, and contain throws per rule and per node.
- **The `Spectral` class** (`Spectral`). Its tables are `functions`, `rules`,
  `exceptions` and `formats`. The class holds `setFunctions`, `setRules`,
  `mergeRules`, `setExceptions`, `registerFormat`, the format detection at
  the start of `runWithResolved` and `_generateUnrecognizedFormatError`.

How the model is built:

- JavaScript objects used as dictionaries are `Dicts.Dict<V>`. Each holds
  its own keys in insertion order, plus a map from key to value. That is
  the order `for...in` and `Object.entries` visit keys that are not array
  indices; see "## Left out" for keys such as `"1"`.
- Code that can throw returns `Model.Try<T>` (`Returned(value)` or `Threw`).
  `normalize` returns `Result<string, string>`, whose error is the message.
- Loops are methods with loop invariants. Each is proved against a function
  that gives the state after the first `n` iterations. The lemmas about that
  function state what the source promises.
- `mergeExceptions` updates its target in place, so the target is the
  `ExceptionTable` class.
- The document's `formats` is assigned in place, so the document is the
  `LintedDocument` class.
- The `Spectral` class keeps its tables as fields that its methods reassign.

The helpers the core calls but that live elsewhere are function-valued
fields of `Model.Host`, `Model.Inventory` and `Model.Document`. They are:

- `getLintTargets`, the message template renderer and `printPath`;
- `decodePointerFragment`, lodash `get` and `merge`;
- `getDiagnosticSeverity` and `DEFAULT_SEVERITY_LEVEL`;
- `getClosestJsonPath` and the JSONPath evaluator;
- `findAssociatedItemForPath` and `getRangeForJsonPath`.

Every property below holds whatever values these helpers return. None of
them except the JSONPath evaluator is modelled as throwing; see
"## Left out".

Notes on what the code does:

- `pivotExceptions` (src/utils/pivotExceptions.ts) maps each rule to the
  location *strings* that list it, and keeps every rule name it is given,
  whether or not an active rule has that name. `lintNode` declares its
  exception locations as `IRange[]` (src/linter.ts:19), but `lint` passes
  it the `string[]` it received (src/runner.ts:134 and 145, declared at
  src/runner.ts:84); the strings are never resolved to ranges.
- `shouldBeKept` (src/linter.ts:79-88) does not compare ranges. When a rule
  has exception locations, every violation it finds is dropped.
- `lint` wraps its whole clause loop in one `try`. When one clause throws on
  a node, the clauses after it do not run on that node, but what the earlier
  clauses pushed is kept (`Runner.ThrowKeepsEarlier`).

## Model

| member | source | states |
|---|---|---|
| Refs.SplitRoundTrip | src/rulesets/mergers/exceptions.ts:6-22 | A location splits at its first `#`. The source is absent exactly for an empty or `#`-first location. The pointer is absent exactly when there is no `#`. When both exist they concatenate back to the location. |
| Refs.ResolveCollapses | src/rulesets/mergers/exceptions.ts:36 | Resolving `.` and `..` segments leaves some leading `..` and then plain segments. No `..` is left under a root. |
| Refs.JoinShape | src/rulesets/mergers/exceptions.ts:36 | `join` under a URL keeps its `scheme://host` followed by `/`. Its segments are collapsed. |
| Refs.JoinRelativeParent | src/rulesets/mergers/__tests__/exceptions.test.ts:107 | `join('../a', '..', '../b')` is `'../../b'` for any plain names `a` and `b`. |
| Refs.JoinUrlParent | src/rulesets/mergers/__tests__/exceptions.test.ts:112 | Under a URL base `root/d/f`, `join(base, '..', '../g')` is `root/g`. |
| Refs.UrlRoot | src/rulesets/mergers/__tests__/exceptions.test.ts:112 | `scheme://host/path` is a URL whose root is `scheme://host` and whose rest is `/path`. |
| Refs.JoinDotSibling | src/rulesets/mergers/__tests__/exceptions.test.ts:6 | `join('./a', '..', 'b')` is `b` for plain names: a location beside a ruleset in the current directory stays as written. |
| Exceptions.ErrorMessageWithBase | src/rulesets/mergers/exceptions.ts:39-43 | With a ruleset URI, the message quotes the ruleset, then the location, then says "is not a valid uri". |
| Exceptions.ErrorMessageWithoutBase | src/rulesets/mergers/exceptions.ts:45 | Without a ruleset URI, the message quotes the location and then says "is not a valid uri". |
| Exceptions.NormalizeErrors | src/rulesets/mergers/exceptions.ts:5-28 | Four rejections, in check order, each with its own precision: missing source, relative without base, missing pointer, invalid pointer. A location is accepted if and only if it passes all four. |
| Exceptions.NormalizeErrorMentions | src/rulesets/mergers/__tests__/exceptions.test.ts:84-93 | Every rejection quotes the location and says it is not a valid uri. With a base, the ruleset is quoted before the location. |
| Exceptions.NormalizeAbsolute | src/rulesets/mergers/exceptions.ts:30 | An accepted location with an absolute source is returned unchanged, and whether it is accepted does not depend on the base. |
| Exceptions.NormalizeWithoutBase | src/rulesets/mergers/exceptions.ts:12-34 | Without a base, an accepted location is absolute and unchanged. The `source + pointer` branch cannot be reached. |
| Exceptions.NormalizeRelative | src/rulesets/mergers/exceptions.ts:32-36 | An accepted relative location becomes `join(base, '..', source) + pointer`, and its pointer is `#` or `#/...`. |
| Exceptions.NormalizeRelativeParent | src/rulesets/mergers/__tests__/exceptions.test.ts:107 | Base `../a` with location `../b#/p` gives `../../b#/p`. |
| Exceptions.NormalizeUrlParent | src/rulesets/mergers/__tests__/exceptions.test.ts:112 | Base `scheme://host/d/f` with location `../g#/p` gives `scheme://host/g#/p`. |
| Exceptions.NormalizeSibling | src/rulesets/mergers/__tests__/exceptions.test.ts:6-19 | Base `./a` with location `b#/p` gives `b#/p` unchanged. |
| Exceptions.MergeEntryEffect | src/rulesets/mergers/exceptions.ts:55-61 | One merge step leaves the key holding a strictly sorted list of the old and new rules. No other key changes, and the existing keys keep their order. |
| Exceptions.MergeExceptions | src/rulesets/mergers/exceptions.ts:48-63 | Entries are merged in key order up to the first location that does not normalise. That location's message is returned as the error, and later entries are not merged. |
| Exceptions.MergeKeepsKeys | src/rulesets/mergers/exceptions.ts:53-62 | A merge never removes a target key and never moves one. |
| Exceptions.MergeKeepsOthers | src/rulesets/mergers/exceptions.ts:53-62 | A target key that no merged location normalises to is unchanged. |
| Exceptions.MergeRulesAt | src/rulesets/mergers/exceptions.ts:53-62 | After the merge, a key holds exactly its old rules plus the rules of every location that normalises to it. |
| Exceptions.MergeSorted | src/rulesets/mergers/exceptions.ts:61 | Every key a location normalises to is present and holds a strictly sorted list. |
| Exceptions.MergeIsSortedUnion | src/rulesets/mergers/exceptions.ts:53-62 | That list is `SortedSet` of the old rules followed by the supplied ones. |
| Strings.SortedSetMembers | src/rulesets/mergers/exceptions.ts:57-61 | `[...new Set(xs)].sort()` holds exactly the elements of `xs`. |
| Strings.SortedSetOrderFree | src/rulesets/mergers/exceptions.ts:57-61 | The sorted set does not depend on the order in which rules are added, or on adding them in two rounds. |
| Strings.SortedUnionMembers | src/rulesets/mergers/exceptions.ts:57-61 | The sorted union of the old and new rules holds exactly the rules in either. |
| MergeExamples.IncludesNewExceptions | src/rulesets/mergers/__tests__/exceptions.test.ts:8-27 | Merging `{c: [3], d: [4, 5]}` into `{a: [], b: [1, 2]}` under `./ruleset.yaml` raises no error and gives the table the test expects, new locations last. |
| MergeExamples.MergesExistingExceptions | src/rulesets/mergers/__tests__/exceptions.test.ts:29-46 | Merging `{a: [0], b: [2, 4]}` into `{a: [], b: [1, 3]}` gives `{a: [0], b: [1, 2, 3, 4]}`, as the test expects. |
| MergeExamples.DeduplicatesExceptions | src/rulesets/mergers/__tests__/exceptions.test.ts:48-65 | Merging `{a: [0, 0], b: [2, 4, 2, 3]}` into `{a: [], b: [1, 3]}` gives `{a: [0], b: [1, 2, 3, 4]}`, each rule once, as the test expects. |
| Pivot.PivotExceptions | src/utils/pivotExceptions.ts:4-18 | The nested `forEach` loops return `Pivoted(exceptions)`, and the input is left as it was. |
| Pivot.PushLocation | src/utils/pivotExceptions.ts:8-14 | The inner loop pushes the location under each of its rules in turn. |
| Pivot.NewRulePush | src/utils/pivotExceptions.ts:9-13 | For a new rule, creating an empty list and then pushing is the same as one push. |
| Pivot.PivotedGet | src/utils/pivotExceptions.ts:4-18 | Under each rule, the pivot holds the locations listing it, in key order, once per listing. A rule that no location lists has no entry. |
| Pivot.PivotedMembers | src/utils/pivotExceptions.ts:7-15 | Location `l` is under rule `r` in the pivot if and only if `r` is under `l` in the input. |
| Pivot.PivotedNonEmpty | src/utils/pivotExceptions.ts:9-13 | Every list in the pivot is non-empty. |
| Pivot.PivotedAbsent | src/utils/pivotExceptions.ts:9-13 | A rule that no location lists has no entry. |
| Pivot.PivotedCount | src/utils/pivotExceptions.ts:8-14 | A rule listed `n` times under a location gets that location `n` times. |
| Pivot.PivotedOrdered | src/utils/pivotExceptions.ts:7-15 | Locations under a rule appear in the input's key order. |
| Pivot.PivotedTotal | src/utils/pivotExceptions.ts:7-15 | The pivot holds as many entries in all as the input. |
| Pivot.PivotedExample | src/utils/__tests__/pivotExceptions.test.ts:5-13 | `{a: [], b: ['1','2'], c: ['2','3']}` pivots to `{'1': ['b'], '2': ['b','c'], '3': ['c']}`, with keys in that order. |
| PivotAsWritten.PushAllAsWrittenIs | src/utils/pivotExceptions.ts:8-14 | With `in` seeing inherited names, the inner loop throws exactly when a rule is a name of `Object.prototype`, and otherwise pushes as `Pivot.PushAll` does. |
| PivotAsWritten.PivotedAsWrittenIs | src/utils/pivotExceptions.ts:4-18 | As written, the pivot throws exactly when some location lists a name of `Object.prototype`, and otherwise returns `Pivot.Pivoted`. |
| PivotAsWritten.ToStringThrows | src/utils/pivotExceptions.ts:9-13 | `{'a.yaml#/x': ['toString']}` makes the source throw, while the intended pivot lists `a.yaml#/x` under `toString`. |
| Things.ExtractThingsFallbacks | src/utils/extractThings.ts:12-19 | The item is the inventory's answer. The path is the item's path, else the closest path in the resolved tree. The range is the owning document's range for that path, else `DEFAULT_RANGE`. |
| Linter.GivenPath | src/linter.ts:21 | A leading `$` segment is dropped. Any other path is kept as is. |
| Linter.SliceFrom | src/linter.ts:54 | `slice` with a negative start counts from the end. |
| Linter.PropertyVarCases | src/linter.ts:52-57 | The four cases of the `property` variable, including `slice(-1)` on an empty path. |
| Linter.MessageVarsBinding | src/linter.ts:48-65 | `error` holds the raw failure message while it is rendered, and `description` is the rule's. `value` is the whole document for the empty path and `get` of the path otherwise. |
| Linter.BuildViolationFields | src/linter.ts:44-74 | The code is the rule's name and the severity its mapped severity. Path and range come from `extractThings` on the failure's path (else the target's), in the tree the rule asks for. There is no source when no item is found. |
| Linter.BuildViolationMessage | src/linter.ts:64-69 | The message is `rule.message` rendered with the rendered failure message as `error`, else the description, else the rendered failure message. It is trimmed, with no whitespace at either end. |
| Linter.KeptCases | src/linter.ts:79-91 | Without exception locations every violation is kept in order. With any list of them, even an empty one, none is kept. |
| Linter.LintNode | src/linter.ts:13-92 | Returns `LintNodeOutcome`: the targets' violations, filtered, or a throw. |
| Linter.LintTargets | src/linter.ts:25-77 | The target loop equals `TargetsOutcome`, and it stops at the first throw. |
| Linter.TargetThrows | src/linter.ts:28-41 | A function that throws on any target makes `lintNode` throw. |
| Linter.ThrowPropagates | src/linter.ts:25-77 | Once a target has thrown, no later target changes the outcome. |
| Linter.OneViolationPerFailure | src/linter.ts:25-77 | Before filtering there is exactly one violation per reported failure, in target order, built from its own failure and target path. |
| Linter.LintNodeCodes | src/linter.ts:67-72 | Every violation returned carries the rule's name and mapped severity. |
| Linter.LintNodeFilter | src/linter.ts:79-91 | `lintNode` throws if and only if a call throws. Otherwise it returns every violation without exception locations and none with them. |
| Runner.Lint | src/runner.ts:129-154 | The clause loop equals `LintPushed`: unknown functions are skipped, results are pushed in clause order, and the first throw ends the loop. |
| Runner.LintClause | src/runner.ts:138-149 | One pass of the clause loop advances `LintRun` by one clause. |
| Runner.StopPropagates | src/runner.ts:137-153 | Once a throw has ended the loop, later clauses change nothing. |
| Runner.ThrowKeepsEarlier | src/runner.ts:137-153 | A clause that throws keeps what earlier clauses pushed and adds nothing after it. |
| Runner.MissingFunctionSkipped | src/runner.ts:139-143 | A clause whose function is not registered is skipped: the result is the same as with that clause removed. |
| Runner.LintRunShift | src/runner.ts:139-143 | Removing an unregistered clause from the list leaves the loop's result unchanged at every later point. |
| Runner.LintRunPrefix | src/runner.ts:138 | The first `n` clauses alone decide the loop's state after `n` iterations. |
| Runner.RunRule | src/runner.ts:80-127 | Returns `RunRuleOutcome`: each given path's nodes linted in order into one array, or a throw if the evaluator throws. |
| Runner.LintAll | src/runner.ts:105-122 | The JSONPath callback lints every node found, in order. |
| Runner.GivenThrows | src/runner.ts:105-122 | A given path whose evaluation throws makes `runRule` throw. |
| Runner.GivensThrowPropagates | src/runner.ts:90-122 | Once a given has thrown, later givens do not change the throw. |
| Runner.RootGivensReturn | src/runner.ts:92-103 | Givens that are all `$` never throw. |
| Runner.RootGivenNeverThrows | src/runner.ts:90-103 | A rule whose only given is `$` never throws, whatever the evaluator does. It lints the target tree as one node at path `['$']`. |
| Runner.RunRules | src/runner.ts:13-78 | Pivots the exceptions, then concatenates each rule's `RuleResults` in key order. |
| Runner.RunEachRule | src/runner.ts:48-75 | The loop over rule names concatenates their results in order. |
| Runner.RunRuleOf | src/runner.ts:51-74 | A rule skipped by format or disabled adds nothing. A rule that throws adds nothing. Otherwise a rule adds what `runRule` returns for its excepting locations. |
| Runner.LintRunCodes | src/runner.ts:137-149 | Every violation the clause loop pushes carries the rule's name and severity. |
| Runner.LintNodesCodes | src/runner.ts:105-122 | The same holds for every node a given matches. |
| Runner.GivensCodes | src/runner.ts:90-126 | The same holds for everything `runRule` returns. |
| Runner.RuleResultsCodes | src/runner.ts:54-64 | What a rule adds carries its name and severity, and a rule adds something only when it is enabled and its formats match. |
| Runner.RunRulesCodes | src/runner.ts:48-75 | Every violation returned was reported by an enabled rule whose formats match, and carries that rule's name and severity. |
| Runner.ExceptedLintRun | src/runner.ts:137-149 | With exception locations, the clause loop pushes nothing. |
| Runner.ExceptedLintNodes | src/runner.ts:105-122 | With exception locations, linting the matched nodes adds nothing. |
| Runner.ExceptedGivens | src/runner.ts:90-126 | With exception locations, `runRule` returns nothing, or throws. |
| Runner.ExceptedRuleSilent | src/runner.ts:46-69 | A rule that any location lists in the exceptions reports nothing. |
| Runner.UnexceptedRule | src/runner.ts:46-69 | A rule that no location lists runs exactly as with no exceptions at all. |
| Dicts.AssignOntoEmpty | src/spectral.ts:145-152 | Copying every key of a table into an emptied object, in order, gives an equal table: the same keys, order and values. |
| Spectral.Spectral.constructor | src/spectral.ts:40-51 | Starts with the default functions and empty rules, exceptions and formats. |
| Spectral.Spectral.SetFunctions | src/spectral.ts:108-112 | The function table becomes `{...defaultFunctions, ...fns}`. No other table changes. |
| Spectral.SetFunctionsTable | src/spectral.ts:108-112 | A name holds the supplied function if there is one, else the default. No other name is defined, and the defaults come first in their order. |
| Spectral.Spectral.SetRules | src/spectral.ts:114-127 | The rule table becomes `StoredRules` of the declared rules. No other table changes. |
| Spectral.SetRulesTable | src/spectral.ts:114-127 | The keys are exactly the input's keys, in order. A stored rule is named after its key unless it declares a name. Its severity is `DEFAULT_SEVERITY_LEVEL` when undeclared, else the mapped declared severity. It keeps its other fields. |
| Spectral.StoredRulesLookup | src/spectral.ts:118-126 | After `n` iterations the table holds the first `n` input keys in order, each with its stored rule. |
| Spectral.Spectral.MergeRules | src/spectral.ts:129-137 | The rule table becomes `Merged` of the patches. No other table changes. |
| Spectral.MergeRulesTable | src/spectral.ts:129-137 | A name with a truthy patch gets `merge(old rule, patch)`. Every other rule is unchanged, and existing rules keep their order. |
| Spectral.MergedLookup | src/spectral.ts:130-136 | After `n` iterations, a name among the first `n` patch keys whose patch is truthy holds `merge(old rule, patch)`. Every other name is unchanged, and the old keys keep their order. |
| Spectral.Spectral.SetExceptions | src/spectral.ts:139-153 | The exception table becomes equal to the input. No other table changes. |
| Spectral.Spectral.RegisterFormat | src/spectral.ts:191-193 | Exactly the one format entry is set or overwritten. |
| Spectral.Spectral.DetectFormats | src/spectral.ts:82-93 | Assigns the document's formats as `Detect` decides, and appends the unrecognised-format warning exactly when `Detect` says so. |
| Spectral.DetectUnrecognized | src/spectral.ts:85-89 | The formats become `null` if and only if no detector accepts the data and unknown formats are not ignored. A warning comes with that if and only if some format is registered. |
| Spectral.DetectFound | src/spectral.ts:84-92 | Otherwise the formats are exactly the registered ones whose detector accepts the data, in registration order, possibly none, with no warning. |
| Spectral.MatchingMembers | src/spectral.ts:84 | The filter keeps a registered format if and only if its detector accepts the data. |
| Spectral.MatchingOrdered | src/spectral.ts:84 | The filter keeps registration order. |
| Spectral.UnrecognizedFormatErrorShape | src/spectral.ts:195-206 | The warning has code `unrecognized-format`, severity Warning (1), path `[]` and the document's source. Its message names every registered format. |

## Left out

- Parsing, `safeStringify`, the document wrapper and the asynchronous reference resolver (src/spectral.ts:58-80): these are I/O and library code. The inventory is a value whose lookups are function fields.
- `prepareResults`, fingerprinting and the `memoize`/`WeakMap` cache (src/spectral.ts:33, 48, 97-100): no property is stated about them.
- `loadRuleset`, `setRuleset` and `compileExportedFunction` (src/spectral.ts:155-189): they read files and evaluate user code. `registerStaticAssets` is also left out.
- The `console.log`/`warn`/`error` calls are not modelled. They have no effect on results.
- JSONPath evaluation is `Host.query`. It returns all matches or throws. A throw after some callbacks have run is modelled as a throw before them, and either way `runRules` discards that rule's results.
- The helpers listed above are uninterpreted function fields, and `hasIntersectingElement` is modelled as "some element in both lists". `src/document.ts` is not part of this model: `DEFAULT_RANGE` is a placeholder constant, and no proof depends on its value.
- `pointerToPath` is modelled only as its acceptance test: `#` alone, or `#/` followed by anything. Percent-decoding and escape errors inside a pointer are not modelled.
- Rule names are sorted by Unicode code point. JavaScript's `sort` compares UTF-16 code units, which differs only for characters outside the Basic Multilingual Plane.
- Numbers are unbounded integers. `null` and `undefined` for a document source are both `None`.
- A declared rule whose own `name` property holds `undefined` is treated as declaring no name.
- Keys that are array indices (`"0"`, `"1"`, `"10"`, ...) are kept in insertion order. JavaScript visits them first, in ascending numeric order, before the other keys. So when rule, function, format or location names are such keys, the key orders differ from the source's. This affects Pivot.PivotExceptions, Spectral.MergeRulesTable, Spectral.SetFunctionsTable, Runner.RunRules (the order of its results), Spectral.MatchingOrdered and Exceptions.MergeKeepsKeys. Their contents, and every property that does not speak of order, are unaffected.
- Only own keys are looked up. In the source, `in` and `[]` also see the names of `Object.prototype`, and `for...in` skips them only through `hasOwnProperty`. A `hasOwnProperty` that has been overridden is not modelled either.
- Pivot.PivotExceptions models own-key lookup, which is the intended behaviour. The source's crash on an inherited rule name is recorded under "## Findings" and modelled in `PivotAsWritten`. Through src/runner.ts:46, which runs outside any `try`, the whole of `runRules` throws in that case.
- Runner.RunRules: a rule named after an inherited property, such as `constructor`, gets a function as its exception locations at src/runner.ts:69, and src/linter.ts:79-88 then drops all of its violations. The model finds no exceptions for it and keeps them.
- Runner.Lint: a clause whose function is named after an inherited property, such as `toString`, finds `Object.prototype.toString` at src/runner.ts:139 and then throws inside `lintNode`. Runner.MissingFunctionSkipped says such a clause is skipped.
- The helpers of `Model.Host`, `Model.Inventory` and `Model.Document`, and the registered format detectors, are total functions. A throw from `getLintTargets`, the message renderer, `decodePointerFragment`, lodash `get` or `merge`, `getDiagnosticSeverity` or a detector called at src/spectral.ts:84 is not modelled. Linter.LintNodeFilter ("throws if and only if a call throws") and the total result of `Spectral.Detect` depend on this. Only `Host.query`, the JSONPath evaluation, and the rule functions themselves may throw.
- The `if (!rule) continue;` at src/runner.ts:52 never fires in the model, because rules are always values.
- The ruleset's `formats` strings and the document's formats are compared as plain strings.
- src/spectral.ts:98 calls `runRules` without an exceptions table, and src/runner.ts:46 passes `pivotExceptions` an extra argument. The model gives `RunRules` an explicit exceptions table and `PivotExceptions` one argument.
- `lintNode` takes exception locations of an abstract element type `L`, because src/runner.ts:84 passes strings where src/linter.ts:19 declares ranges.
- The tests call `mergeExceptions(uri, target, source)`, which under the implementation's `(target, source, baseUri?)` order would pass the ruleset URI as the target. `MergeExamples` checks the tests' expected tables with the roles the tests intend: that target, that source, and `./ruleset.yaml` as base.
- Spectral.Spectral.SetExceptions: each copied list is a fresh array in the source. Sequences are values here, so the model cannot tell a fresh list from a shared one, and states only equality.
- Spectral.Spectral.SetFunctions: the model does not capture the case where the argument aliases the live table. In the source, `empty(this.functions)` would clear the argument first.
- Spectral.Spectral.SetRules: the same aliasing is not captured. `rules` is a public field (src/spectral.ts:41), and `s.setRules(s.rules)` empties the table at src/spectral.ts:115 before reading it, leaving it empty. Spectral.SetRulesTable says the table then holds every declared name, which holds only when the argument is not the live table.
- Spectral.Spectral.SetExceptions: the same aliasing is not captured either. `exceptions` is public (src/spectral.ts:42), and `s.setExceptions(s.exceptions)` empties the table at src/spectral.ts:145 and leaves it empty. The model's `exceptions == source` holds only when the argument is not the live table.
- Spectral.Spectral.MergeRules: lodash `merge` is `Host.mergeRule`. The model does not capture that it mutates the stored rule object in place.
- `_generateUnrecognizedFormatError` reads `Object.keys(this.formats)`. The model passes those keys in as a parameter.

## Findings

| source | as written | input that shows it | evidently intended | confidence | as-written member | corrected member |
|---|---|---|---|---|---|---|
| src/utils/pivotExceptions.ts:9-13 | `rule in dic` also finds the names of `Object.prototype`. For such a rule no list is created, and `dic[rule].push` throws a `TypeError`. | `{'a.yaml#/x': ['toString']}` | Each listed rule gets its own list, so the location is listed under `toString` | medium, not executed | PivotAsWritten.ToStringThrows | Pivot.PivotedMembers |
