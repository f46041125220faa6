/** `lintNode`: one clause of one rule applied to one node. The clause's
    function is called on each target under the node; every failure it
    reports becomes a violation located through `extractThings`, and the
    violations then pass the exception filter. */
module Linter {
  import opened Dicts
  import opened Strings
  import opened Model
  import opened Things

  // ----- Paths -----

  /** `node.path[0] === '$' ? node.path.slice(1) : node.path`. */
  function GivenPath(path: JsonPath): (r: JsonPath)
    ensures |path| > 0 && path[0] == Key("$") ==> path == [Key("$")] + r
    ensures !(|path| > 0 && path[0] == Key("$")) ==> r == path
  {
    if |path| > 0 && path[0] == Key("$") then path[1..] else path
  }

  function DigitChar(d: nat): char
    requires d < 10
  {
    (48 + d) as char
  }

  /** The decimal digits of `n`. */
  function Digits(n: nat): (r: string)
    ensures |r| > 0
  {
    if n < 10 then [DigitChar(n)] else Digits(n / 10) + [DigitChar(n % 10)]
  }

  /** `String(segment)`. */
  function SegmentText(segment: Segment): string
  {
    match segment
    case Key(name) => name
    case Index(i) => if i < 0 then "-" + Digits(-i) else Digits(i)
  }

  /** `path.map(segment => decodePointerFragment(String(segment)))`. */
  function EscapedPath(path: JsonPath, decode: string -> string): JsonPath
  {
    seq(|path|, i requires 0 <= i < |path| => Key(decode(SegmentText(path[i]))))
  }

  /** `s.slice(start)` for an integer `start`: a negative start counts from
      the end. */
  function SliceFrom<T>(s: seq<T>, start: int): (r: seq<T>)
    ensures 0 <= start <= |s| ==> r == s[start..]
    ensures -|s| <= start < 0 ==> r == s[|s| + start..]
  {
    if start < 0 then (if |s| + start < 0 then s else s[|s| + start..])
    else if start > |s| then []
    else s[start..]
  }

  // ----- Message variables -----

  /** The `property` variable: the dotted missing part of the path, printed
      from one segment before it; else the last segment of the path; else
      the empty string. */
  function PropertyVar(item: Option<Item>, path: JsonPath, printDot: JsonPath -> string): Property
  {
    if item.Some? && item.value.missingPropertyPath.Some?
       && |item.value.missingPropertyPath.value| > |path|
    then Text(printDot(SliceFrom(item.value.missingPropertyPath.value, |path| - 1)))
    else if |path| > 0 then PathSegment(path[|path| - 1])
    else Text("")
  }

  /** The `property` variable in its three cases. When the path is empty,
      `slice(-1)` keeps only the last missing segment, not the whole
      missing path. */
  lemma PropertyVarCases(item: Option<Item>, path: JsonPath, printDot: JsonPath -> string)
    ensures var missing := if item.Some? && item.value.missingPropertyPath.Some?
                           then item.value.missingPropertyPath.value else [];
            var p := PropertyVar(item, path, printDot);
            && (|missing| > |path| > 0 ==> p == Text(printDot(missing[|path| - 1..])))
            && (|missing| > |path| == 0 ==> p == Text(printDot([missing[|missing| - 1]])))
            && (|missing| <= |path| && |path| > 0 ==> p == PathSegment(path[|path| - 1]))
            && (|missing| <= |path| == 0 ==> p == Text(""))
  {
    var missing := if item.Some? && item.value.missingPropertyPath.Some?
                   then item.value.missingPropertyPath.value else [];
    if |missing| > |path| == 0 {
      assert missing[|missing| - 1..] == [missing[|missing| - 1]];
    }
  }

  /** The value the violation talks about: the whole document when the path
      is empty, else lodash `get` of the path. */
  function ValueAt(document: Document, path: JsonPath, get: (Json, JsonPath) -> Json): Json
  {
    if |path| == 0 then document.data else get(document.data, path)
  }

  /** The final message: `rule.message` rendered (with `error` bound to the
      rendered failure message) when the rule has one; otherwise the rule's
      description; otherwise the rendered failure message; always trimmed. */
  function ViolationMessage(rule: Rule, resultMessage: string, vars: MessageVars,
                            render: (string, MessageVars) -> string): string
  {
    Trim(if rule.message.None? then
           (if rule.description.Some? then rule.description.value else resultMessage)
         else render(rule.message.value, vars.(error := resultMessage)))
  }

  // ----- One violation -----

  /** The message variables before the failure message is rendered. */
  function VarsFor(failure: Failure, rule: Rule, things: Things, inventory: Inventory, host: Host): MessageVars
  {
    var document := OwningDocument(inventory, things.associatedItem);
    MessageVars(
      PropertyVar(things.associatedItem, things.path, host.printDot),
      failure.message,
      host.printPointer(things.path),
      rule.description,
      ValueAt(document, things.path, host.get))
  }

  /** Where a failure is reported: its own path, else the target's path. */
  function ThingsFor(failure: Failure, rule: Rule, targetPath: JsonPath, inventory: Inventory, host: Host): Things
  {
    var reported := if failure.path.Some? then failure.path.value else targetPath;
    ExtractThings(inventory, host.closestPath, EscapedPath(reported, host.decode), rule.resolved != Some(false))
  }

  /** The body of the `targetResults.map(...)` callback. */
  function BuildViolation(failure: Failure, rule: Rule, targetPath: JsonPath, inventory: Inventory, host: Host): Violation
  {
    var things := ThingsFor(failure, rule, targetPath, inventory, host);
    var vars := VarsFor(failure, rule, things, inventory, host);
    var resultMessage := host.render(failure.message, vars);
    Violation(
      rule.name,
      ViolationMessage(rule, resultMessage, vars, host.render),
      things.path,
      host.severityOf(rule.severity),
      if things.associatedItem.Some? then things.associatedItem.value.document.source else None,
      things.range)
  }

  /** A violation carries the rule's name as its code and the rule's mapped
      severity; its path and range are those `extractThings` finds for the
      failure's path (or the target's), in the tree the rule asks for; the
      source is the owning document's when an item was found. */
  lemma BuildViolationFields(failure: Failure, rule: Rule, targetPath: JsonPath, inventory: Inventory, host: Host)
    ensures var v := BuildViolation(failure, rule, targetPath, inventory, host);
            var reported := if failure.path.Some? then failure.path.value else targetPath;
            var things := ExtractThings(inventory, host.closestPath, EscapedPath(reported, host.decode),
                                        rule.resolved != Some(false));
            && v.code == rule.name
            && v.severity == host.severityOf(rule.severity)
            && v.path == things.path
            && v.range == things.range
            && (things.associatedItem.None? ==> v.source == None)
  {
  }

  /** The message choice, and its being trimmed: no whitespace at either end. */
  lemma BuildViolationMessage(failure: Failure, rule: Rule, targetPath: JsonPath, inventory: Inventory, host: Host)
    ensures var v := BuildViolation(failure, rule, targetPath, inventory, host);
            var things := ThingsFor(failure, rule, targetPath, inventory, host);
            var vars := VarsFor(failure, rule, things, inventory, host);
            var resultMessage := host.render(failure.message, vars);
            && (rule.message.None? && rule.description.Some? ==> v.message == Trim(rule.description.value))
            && (rule.message.None? && rule.description.None? ==> v.message == Trim(resultMessage))
            && (rule.message.Some? ==>
                  v.message == Trim(host.render(rule.message.value, vars.(error := resultMessage))))
            && (|v.message| > 0 ==> !IsWhitespace(v.message[0]) && !IsWhitespace(v.message[|v.message| - 1]))
  {
    var things := ThingsFor(failure, rule, targetPath, inventory, host);
    var vars := VarsFor(failure, rule, things, inventory, host);
    var resultMessage := host.render(failure.message, vars);
    TrimSlice(if rule.message.None? then
                (if rule.description.Some? then rule.description.value else resultMessage)
              else host.render(rule.message.value, vars.(error := resultMessage)));
  }

  /** The `error` variable holds the raw failure message while that message
      is rendered, and the rendered one while `rule.message` is rendered;
      `value` is the whole document for the empty path. */
  lemma MessageVarsBinding(failure: Failure, rule: Rule, targetPath: JsonPath, inventory: Inventory, host: Host)
    ensures var things := ThingsFor(failure, rule, targetPath, inventory, host);
            var vars := VarsFor(failure, rule, things, inventory, host);
            var document := OwningDocument(inventory, things.associatedItem);
            && vars.error == failure.message
            && vars.description == rule.description
            && (|things.path| == 0 ==> vars.value == document.data)
            && (|things.path| > 0 ==> vars.value == host.get(document.data, things.path))
  {
  }

  /** The `targetResults.map(...)` callback, for one rule: a failure and
      the path of its target to a violation. */
  function Builder(rule: Rule, inventory: Inventory, host: Host): (Failure, JsonPath) -> Violation
  {
    (failure: Failure, targetPath: JsonPath) => BuildViolation(failure, rule, targetPath, inventory, host)
  }

  /** `targetResults.map(build)`. */
  function BuildAll(failures: seq<Failure>, targetPath: JsonPath, build: (Failure, JsonPath) -> Violation): (r: seq<Violation>)
    ensures |r| == |failures|
    ensures forall i :: 0 <= i < |failures| ==> r[i] == build(failures[i], targetPath)
  {
    seq(|failures|, i requires 0 <= i < |failures| => build(failures[i], targetPath))
  }

  // ----- The filter -----

  /** `shouldBeKept`: without exception locations everything is kept; with
      any list of them, even an empty one, nothing is. */
  predicate ShouldBeKept<L>(violation: Violation, exceptionLocations: Option<seq<L>>)
  {
    exceptionLocations.None?
  }

  function Kept<L>(results: seq<Violation>, exceptionLocations: Option<seq<L>>): seq<Violation>
  {
    if results == [] then []
    else
      var rest := Kept(results[..|results| - 1], exceptionLocations);
      if ShouldBeKept(results[|results| - 1], exceptionLocations) then rest + [results[|results| - 1]] else rest
  }

  /** Without exception locations the filter keeps every violation in order;
      with them it keeps none. */
  lemma {:induction false} KeptCases<L>(results: seq<Violation>, exceptionLocations: Option<seq<L>>)
    ensures exceptionLocations.None? ==> Kept(results, exceptionLocations) == results
    ensures exceptionLocations.Some? ==> Kept(results, exceptionLocations) == []
  {
    if results != [] {
      KeptCases(results[..|results| - 1], exceptionLocations);
      assert results[..|results| - 1] + [results[|results| - 1]] == results;
    }
  }

  // ----- The loop over targets -----

  /** `then.functionOptions || {}`. */
  predicate Truthy(value: Json)
  {
    match value
    case Null => false
    case Bool(b) => b
    case Num(n) => n != 0
    case Str(s) => s != ""
    case _ => true
  }

  function Options(clause: Then): Json
  {
    if clause.functionOptions.Some? && Truthy(clause.functionOptions.value) then clause.functionOptions.value
    else Obj([])
  }

  /** What the function reports for one target: a throw, or its failures
      with `null`/`undefined` read as none. */
  function Call(apply: RuleFunction, node: Node, clause: Then, target: Node): Try<seq<Failure>>
  {
    var givenPath := GivenPath(node.path);
    match apply(target.value, Options(clause), givenPath, givenPath + target.path, node.value)
    case Threw => Threw
    case Returned(failures) => Returned(if failures.Some? then failures.value else [])
  }

  /** The violations for the first `n` targets, before filtering, or a
      throw if one of their calls throws. */
  function TargetsOutcome(targets: seq<Node>, n: nat, node: Node, clause: Then, apply: RuleFunction,
                          build: (Failure, JsonPath) -> Violation): Try<seq<Violation>>
    requires n <= |targets|
  {
    if n == 0 then Returned([])
    else
      match TargetsOutcome(targets, n - 1, node, clause, apply, build)
      case Threw => Threw
      case Returned(before) =>
        var target := targets[n - 1];
        match Call(apply, node, clause, target)
        case Threw => Threw
        case Returned(failures) => Returned(before + BuildAll(failures, GivenPath(node.path) + target.path, build))
  }

  /** What `lintNode` returns, or `Threw` when it throws. */
  function LintNodeOutcome<L>(node: Node, rule: Rule, clause: Then, apply: RuleFunction,
                              inventory: Inventory, host: Host, exceptionLocations: Option<seq<L>>): Try<seq<Violation>>
  {
    var targets := host.lintTargets(node.value, clause.field);
    match TargetsOutcome(targets, |targets|, node, clause, apply, Builder(rule, inventory, host))
    case Threw => Threw
    case Returned(results) => Returned(Kept(results, exceptionLocations))
  }

  /** `lintNode(node, rule, then, apply, inventory, exceptionLocations)`. */
  method LintNode<L>(node: Node, rule: Rule, clause: Then, apply: RuleFunction,
                     inventory: Inventory, host: Host, exceptionLocations: Option<seq<L>>)
    returns (outcome: Try<seq<Violation>>)
    ensures outcome == LintNodeOutcome(node, rule, clause, apply, inventory, host, exceptionLocations)
  {
    var targets := host.lintTargets(node.value, clause.field);
    var all := LintTargets(targets, node, clause, apply, Builder(rule, inventory, host));
    if all.Threw? {
      return Threw;
    }
    outcome := Returned(Kept(all.value, exceptionLocations));
  }

  /** The loop of `lintNode` over its targets: call the function on each,
      map its failures through `build`, stop at the first throw. */
  method LintTargets(targets: seq<Node>, node: Node, clause: Then, apply: RuleFunction,
                     build: (Failure, JsonPath) -> Violation)
    returns (outcome: Try<seq<Violation>>)
    ensures outcome == TargetsOutcome(targets, |targets|, node, clause, apply, build)
  {
    var givenPath := GivenPath(node.path);
    var results: seq<Violation> := [];
    var i := 0;
    while i < |targets|
      invariant 0 <= i <= |targets|
      invariant TargetsOutcome(targets, i, node, clause, apply, build) == Returned(results)
    {
      var target := targets[i];
      var targetPath := givenPath + target.path;
      var targetResults := Call(apply, node, clause, target);
      if targetResults.Threw? {
        TargetThrows(targets, i + 1, node, clause, apply, build);
        return Threw;
      }
      TargetReturns(targets, i + 1, node, clause, apply, build, results, targetResults.value);
      results := results + BuildAll(targetResults.value, targetPath, build);
      i := i + 1;
    }
    outcome := Returned(results);
  }

  /** One more target: its call's failures are appended, or its throw is the
      outcome. */
  lemma TargetsStep(targets: seq<Node>, n: nat, node: Node, clause: Then, apply: RuleFunction,
                    build: (Failure, JsonPath) -> Violation)
    requires 0 < n <= |targets|
    ensures var before := TargetsOutcome(targets, n - 1, node, clause, apply, build);
            var call := Call(apply, node, clause, targets[n - 1]);
            var targetPath := GivenPath(node.path) + targets[n - 1].path;
            TargetsOutcome(targets, n, node, clause, apply, build) ==
              if before.Threw? || call.Threw? then Threw
              else Returned(before.value + BuildAll(call.value, targetPath, build))
  {
  }

  /** A target whose call returns appends its violations. */
  lemma TargetReturns(targets: seq<Node>, n: nat, node: Node, clause: Then, apply: RuleFunction,
                      build: (Failure, JsonPath) -> Violation, before: seq<Violation>, failures: seq<Failure>)
    requires 0 < n <= |targets|
    requires TargetsOutcome(targets, n - 1, node, clause, apply, build) == Returned(before)
    requires Call(apply, node, clause, targets[n - 1]) == Returned(failures)
    ensures TargetsOutcome(targets, n, node, clause, apply, build) ==
              Returned(before + BuildAll(failures, GivenPath(node.path) + targets[n - 1].path, build))
  {
  }

  /** A target whose call throws makes the whole loop throw. */
  lemma TargetThrows(targets: seq<Node>, n: nat, node: Node, clause: Then, apply: RuleFunction,
                     build: (Failure, JsonPath) -> Violation)
    requires 0 < n <= |targets|
    requires Call(apply, node, clause, targets[n - 1]).Threw?
    ensures TargetsOutcome(targets, |targets|, node, clause, apply, build) == Threw
  {
    assert TargetsOutcome(targets, n, node, clause, apply, build) == Threw;
    ThrowPropagates(targets, n, |targets|, node, clause, apply, build);
  }

  /** Once a call throws, so does every longer prefix of the loop. */
  lemma {:induction false} ThrowPropagates(targets: seq<Node>, m: nat, n: nat, node: Node, clause: Then,
                                           apply: RuleFunction, build: (Failure, JsonPath) -> Violation)
    requires m <= n <= |targets|
    requires TargetsOutcome(targets, m, node, clause, apply, build) == Threw
    ensures TargetsOutcome(targets, n, node, clause, apply, build) == Threw
    decreases n - m
  {
    if m < n {
      ThrowPropagates(targets, m + 1, n, node, clause, apply, build);
    }
  }

  // ----- One violation per failure -----

  /** Each failure paired with the path of the target that reported it,
      target by target; `None` if one of the first `n` calls throws. */
  function Reports(targets: seq<Node>, n: nat, node: Node, clause: Then, apply: RuleFunction): Option<seq<(Failure, JsonPath)>>
    requires n <= |targets|
  {
    if n == 0 then Some([])
    else
      match Reports(targets, n - 1, node, clause, apply)
      case None => None
      case Some(before) =>
        var target := targets[n - 1];
        match Call(apply, node, clause, target)
        case Threw => None
        case Returned(failures) => Some(before + Paired(failures, GivenPath(node.path) + target.path))
  }

  function Paired(failures: seq<Failure>, targetPath: JsonPath): (r: seq<(Failure, JsonPath)>)
    ensures |r| == |failures|
    ensures forall i :: 0 <= i < |failures| ==> r[i] == (failures[i], targetPath)
  {
    seq(|failures|, i requires 0 <= i < |failures| => (failures[i], targetPath))
  }

  /** `outcome` holds one violation per report, built from that report. */
  ghost predicate PerFailure(outcome: Try<seq<Violation>>, reports: Option<seq<(Failure, JsonPath)>>,
                             build: (Failure, JsonPath) -> Violation)
  {
    && (outcome.Threw? <==> reports.None?)
    && (outcome.Returned? ==>
          && |outcome.value| == |reports.value|
          && forall i :: 0 <= i < |reports.value| ==> outcome.value[i] == build(reports.value[i].0, reports.value[i].1))
  }

  /** Before filtering there is exactly one violation per reported failure,
      in target order, each built from its own failure and target path. */
  lemma {:induction false} OneViolationPerFailure(targets: seq<Node>, n: nat, node: Node, clause: Then,
                                                  apply: RuleFunction, build: (Failure, JsonPath) -> Violation)
    requires n <= |targets|
    ensures PerFailure(TargetsOutcome(targets, n, node, clause, apply, build), Reports(targets, n, node, clause, apply), build)
  {
    if n > 0 {
      OneViolationPerFailure(targets, n - 1, node, clause, apply, build);
      TargetsStep(targets, n, node, clause, apply, build);
      ReportsStep(targets, n, node, clause, apply);
      var call := Call(apply, node, clause, targets[n - 1]);
      if call.Returned? {
        PerFailureAppend(TargetsOutcome(targets, n - 1, node, clause, apply, build),
                         Reports(targets, n - 1, node, clause, apply),
                         call.value, GivenPath(node.path) + targets[n - 1].path, build);
      }
    }
  }

  lemma ReportsStep(targets: seq<Node>, n: nat, node: Node, clause: Then, apply: RuleFunction)
    requires 0 < n <= |targets|
    ensures var before := Reports(targets, n - 1, node, clause, apply);
            var call := Call(apply, node, clause, targets[n - 1]);
            var targetPath := GivenPath(node.path) + targets[n - 1].path;
            Reports(targets, n, node, clause, apply) ==
              if before.None? || call.Threw? then None
              else Some(before.value + Paired(call.value, targetPath))
  {
  }

  lemma PerFailureAppend(outcome: Try<seq<Violation>>, reports: Option<seq<(Failure, JsonPath)>>,
                         failures: seq<Failure>, targetPath: JsonPath, build: (Failure, JsonPath) -> Violation)
    requires PerFailure(outcome, reports, build)
    ensures var next := if outcome.Threw? then Threw
                        else Returned(outcome.value + BuildAll(failures, targetPath, build));
            var nextReports := if reports.None? then None else Some(reports.value + Paired(failures, targetPath));
            PerFailure(next, nextReports, build)
  {
    if outcome.Returned? {
      var built := BuildAll(failures, targetPath, build);
      var all := outcome.value + built;
      var pairs := reports.value + Paired(failures, targetPath);
      forall i | 0 <= i < |pairs|
        ensures all[i] == build(pairs[i].0, pairs[i].1)
      {
        if i >= |outcome.value| {
          assert all[i] == built[i - |outcome.value|];
        }
      }
    }
  }

  /** Every violation `lintNode` returns has the rule's name as its code and
      the rule's mapped severity. */
  lemma LintNodeCodes<L>(node: Node, rule: Rule, clause: Then, apply: RuleFunction,
                         inventory: Inventory, host: Host, exceptionLocations: Option<seq<L>>)
    ensures var outcome := LintNodeOutcome(node, rule, clause, apply, inventory, host, exceptionLocations);
            outcome.Returned? ==>
              forall v :: v in outcome.value ==> v.code == rule.name && v.severity == host.severityOf(rule.severity)
  {
    var targets := host.lintTargets(node.value, clause.field);
    var build := Builder(rule, inventory, host);
    var outcome := TargetsOutcome(targets, |targets|, node, clause, apply, build);
    OneViolationPerFailure(targets, |targets|, node, clause, apply, build);
    if outcome.Returned? {
      KeptCases(outcome.value, exceptionLocations);
      forall i | 0 <= i < |outcome.value|
        ensures outcome.value[i].code == rule.name && outcome.value[i].severity == host.severityOf(rule.severity)
      {
        var report := Reports(targets, |targets|, node, clause, apply).value[i];
        BuildViolationFields(report.0, rule, report.1, inventory, host);
      }
    }
  }

  /** Without exception locations `lintNode` returns every violation; with
      exception locations it returns none. */
  lemma LintNodeFilter<L>(node: Node, rule: Rule, clause: Then, apply: RuleFunction,
                          inventory: Inventory, host: Host, exceptionLocations: Option<seq<L>>)
    ensures var targets := host.lintTargets(node.value, clause.field);
            var all := TargetsOutcome(targets, |targets|, node, clause, apply, Builder(rule, inventory, host));
            var outcome := LintNodeOutcome(node, rule, clause, apply, inventory, host, exceptionLocations);
            && (all.Threw? <==> outcome.Threw?)
            && (all.Returned? && exceptionLocations.None? ==> outcome.value == all.value)
            && (all.Returned? && exceptionLocations.Some? ==> outcome.value == [])
  {
    var targets := host.lintTargets(node.value, clause.field);
    var all := TargetsOutcome(targets, |targets|, node, clause, apply, Builder(rule, inventory, host));
    if all.Returned? {
      KeptCases(all.value, exceptionLocations);
    }
  }
}
