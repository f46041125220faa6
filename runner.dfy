/** The runner (src/runner.ts): for every enabled rule whose formats match
    the document, evaluate each `given` path, and on every node it picks
    call the rule's functions through `lintNode`, collecting violations.
    A rule that throws contributes nothing; a clause that throws stops the
    clauses of that node but keeps what earlier clauses reported. */
module Runner {
  import opened Dicts
  import opened Model
  import opened Linter
  import opened Pivot

  /** `isRuleEnabled`: the rule has a severity and it does not map to
      `-1` (off). */
  predicate IsRuleEnabled(rule: Rule, host: Host)
  {
    rule.severity.Some? && host.severityOf(rule.severity) != -1
  }

  /** `hasIntersectingElement`: some element is in both lists. */
  predicate HasIntersectingElement(left: seq<string>, right: seq<string>)
  {
    exists x :: x in left && x in right
  }

  /** The format test of `runRules`: a rule that names formats is skipped
      when the document matched no registered format, or when the formats
      it matched share none with the rule's. A document whose formats were
      never detected runs every rule. */
  predicate SkippedByFormat(rule: Rule, formats: Formats)
  {
    && rule.formats.Some?
    && (formats.Unrecognized? || (formats.Detected? && !HasIntersectingElement(rule.formats.value, formats.names)))
  }

  /** The tree a rule runs on: the unresolved one only for `resolved: false`. */
  function Target(rule: Rule, inventory: Inventory): Json
  {
    if rule.resolved == Some(false) then inventory.unresolved else inventory.resolved
  }

  // ----- lint: the clauses of a rule on one node -----

  /** The caller's results array while `lint` runs, and whether a throw
      has ended its loop. */
  datatype LintState = LintState(pushed: seq<Violation>, stopped: bool)

  /** The state of `lint` after its first `n` clauses, starting from the
      array `results`: a clause whose function is unknown is skipped; the
      first clause whose `lintNode` throws ends the loop (the throw is
      caught), and the clauses after it push nothing. */
  function LintRun(clauses: seq<Then>, n: nat, node: Node, inventory: Inventory, rule: Rule,
                   functions: Dict<RuleFunction>, exceptionLocations: Option<seq<string>>, host: Host,
                   results: seq<Violation>): LintState
    requires n <= |clauses|
  {
    if n == 0 then LintState(results, false)
    else
      var before := LintRun(clauses, n - 1, node, inventory, rule, functions, exceptionLocations, host, results);
      if before.stopped then before
      else
        match Get(functions, clauses[n - 1].functionName)
        case None => before
        case Some(apply) =>
          match LintNodeOutcome(node, rule, clauses[n - 1], apply, inventory, host, exceptionLocations)
          case Threw => LintState(before.pushed, true)
          case Returned(violations) => LintState(before.pushed + violations, false)
  }

  /** The results array after `lint` on `node`. */
  function LintPushed(node: Node, inventory: Inventory, rule: Rule, functions: Dict<RuleFunction>,
                      exceptionLocations: Option<seq<string>>, host: Host, results: seq<Violation>): seq<Violation>
  {
    var clauses := AsList(rule.clauses);
    LintRun(clauses, |clauses|, node, inventory, rule, functions, exceptionLocations, host, results).pushed
  }

  /** `lint(node, resolved, rule, functions, exceptionLocations, results)`:
      `results` is the caller's array, returned with the pushes appended. */
  method Lint(node: Node, inventory: Inventory, rule: Rule, functions: Dict<RuleFunction>,
              exceptionLocations: Option<seq<string>>, host: Host, results: seq<Violation>)
    returns (pushed: seq<Violation>)
    ensures pushed == LintPushed(node, inventory, rule, functions, exceptionLocations, host, results)
  {
    var clauses := AsList(rule.clauses);
    pushed := results;
    var i := 0;
    while i < |clauses|
      invariant 0 <= i <= |clauses|
      invariant LintRun(clauses, i, node, inventory, rule, functions, exceptionLocations, host, results)
                == LintState(pushed, false)
    {
      var next := LintClause(clauses, i, node, inventory, rule, functions, exceptionLocations, host, results, pushed);
      if next.stopped {
        StopPropagates(clauses, i + 1, |clauses|, node, inventory, rule, functions, exceptionLocations, host, results);
        return next.pushed;
      }
      pushed := next.pushed;
      i := i + 1;
    }
  }

  /** One pass of the loop of `lint`: look the clause's function up, skip
      the clause if there is none, else push what `lintNode` returns, or
      stop if it throws. */
  method LintClause(clauses: seq<Then>, i: nat, node: Node, inventory: Inventory, rule: Rule,
                    functions: Dict<RuleFunction>, exceptionLocations: Option<seq<string>>, host: Host,
                    results: seq<Violation>, pushed: seq<Violation>)
    returns (next: LintState)
    requires i < |clauses|
    requires LintRun(clauses, i, node, inventory, rule, functions, exceptionLocations, host, results)
             == LintState(pushed, false)
    ensures next == LintRun(clauses, i + 1, node, inventory, rule, functions, exceptionLocations, host, results)
  {
    var clause := clauses[i];
    var func := Get(functions, clause.functionName);
    if func.None? {
      return LintState(pushed, false);
    }
    var validationResults := LintNode(node, rule, clause, func.value, inventory, host, exceptionLocations);
    if validationResults.Threw? {
      return LintState(pushed, true);
    }
    if |validationResults.value| > 0 {
      next := LintState(pushed + validationResults.value, false);
    } else {
      AppendNothing(pushed);
      next := LintState(pushed, false);
    }
  }

  /** Once a throw has ended the loop, later clauses change nothing. */
  lemma {:induction false} StopPropagates(clauses: seq<Then>, m: nat, n: nat, node: Node, inventory: Inventory,
                                          rule: Rule, functions: Dict<RuleFunction>,
                                          exceptionLocations: Option<seq<string>>, host: Host, results: seq<Violation>)
    requires m <= n <= |clauses|
    requires LintRun(clauses, m, node, inventory, rule, functions, exceptionLocations, host, results).stopped
    ensures LintRun(clauses, n, node, inventory, rule, functions, exceptionLocations, host, results)
            == LintRun(clauses, m, node, inventory, rule, functions, exceptionLocations, host, results)
    decreases n - m
  {
    if m < n {
      StopPropagates(clauses, m + 1, n, node, inventory, rule, functions, exceptionLocations, host, results);
    }
  }

  // ----- runRule: the given paths of a rule -----

  /** The nodes one `given` picks: the target itself at path `['$']` for
      `$`, without evaluating JSONPath; otherwise what the evaluator finds,
      or its throw. */
  function GivenNodes(given: string, target: Json, host: Host): Try<seq<Node>>
  {
    if given == "$" then Returned([Node([Key("$")], target)]) else host.query(given, target)
  }

  /** The results array after `lint` on the first `n` nodes, in order. */
  function LintNodes(nodes: seq<Node>, n: nat, inventory: Inventory, rule: Rule, functions: Dict<RuleFunction>,
                     exceptionLocations: Option<seq<string>>, host: Host, results: seq<Violation>): seq<Violation>
    requires n <= |nodes|
  {
    if n == 0 then results
    else
      LintPushed(nodes[n - 1], inventory, rule, functions, exceptionLocations, host,
                 LintNodes(nodes, n - 1, inventory, rule, functions, exceptionLocations, host, results))
  }

  /** What `runRule` has collected after its first `n` given paths, or a
      throw if evaluating one of them throws. */
  function GivensOutcome(givens: seq<string>, n: nat, inventory: Inventory, rule: Rule, functions: Dict<RuleFunction>,
                         exceptionLocations: Option<seq<string>>, host: Host): Try<seq<Violation>>
    requires n <= |givens|
  {
    if n == 0 then Returned([])
    else
      match GivensOutcome(givens, n - 1, inventory, rule, functions, exceptionLocations, host)
      case Threw => Threw
      case Returned(before) =>
        match GivenNodes(givens[n - 1], Target(rule, inventory), host)
        case Threw => Threw
        case Returned(nodes) => Returned(LintNodes(nodes, |nodes|, inventory, rule, functions, exceptionLocations, host, before))
  }

  /** What `runRule` returns, or `Threw` when it throws. */
  function RunRuleOutcome(inventory: Inventory, rule: Rule, functions: Dict<RuleFunction>,
                          exceptionLocations: Option<seq<string>>, host: Host): Try<seq<Violation>>
  {
    var givens := AsList(rule.given);
    GivensOutcome(givens, |givens|, inventory, rule, functions, exceptionLocations, host)
  }

  /** `runRule(resolved, rule, functions, exceptionLocations)`. */
  method RunRule(inventory: Inventory, rule: Rule, functions: Dict<RuleFunction>,
                 exceptionLocations: Option<seq<string>>, host: Host)
    returns (outcome: Try<seq<Violation>>)
    ensures outcome == RunRuleOutcome(inventory, rule, functions, exceptionLocations, host)
  {
    var target := Target(rule, inventory);
    var givens := AsList(rule.given);
    var results: seq<Violation> := [];
    var i := 0;
    while i < |givens|
      invariant 0 <= i <= |givens|
      invariant GivensOutcome(givens, i, inventory, rule, functions, exceptionLocations, host) == Returned(results)
    {
      var given := givens[i];
      var nodes := GivenNodes(given, target, host);
      if nodes.Threw? {
        GivenThrows(givens, i + 1, inventory, rule, functions, exceptionLocations, host);
        return Threw;
      }
      GivenReturns(givens, i + 1, inventory, rule, functions, exceptionLocations, host, results, nodes.value);
      if given == "$" {
        results := Lint(Node([Key("$")], target), inventory, rule, functions, exceptionLocations, host, results);
      } else {
        results := LintAll(nodes.value, inventory, rule, functions, exceptionLocations, host, results);
      }
      i := i + 1;
    }
    outcome := Returned(results);
  }

  /** The JSONPath callback: `lint` on every node found, in order. */
  method LintAll(nodes: seq<Node>, inventory: Inventory, rule: Rule, functions: Dict<RuleFunction>,
                 exceptionLocations: Option<seq<string>>, host: Host, results: seq<Violation>)
    returns (pushed: seq<Violation>)
    ensures pushed == LintNodes(nodes, |nodes|, inventory, rule, functions, exceptionLocations, host, results)
  {
    pushed := results;
    var i := 0;
    while i < |nodes|
      invariant 0 <= i <= |nodes|
      invariant pushed == LintNodes(nodes, i, inventory, rule, functions, exceptionLocations, host, results)
    {
      pushed := Lint(nodes[i], inventory, rule, functions, exceptionLocations, host, pushed);
      i := i + 1;
    }
  }

  /** A given path whose evaluation returns appends what its nodes report. */
  lemma GivenReturns(givens: seq<string>, n: nat, inventory: Inventory, rule: Rule, functions: Dict<RuleFunction>,
                     exceptionLocations: Option<seq<string>>, host: Host, before: seq<Violation>, nodes: seq<Node>)
    requires 0 < n <= |givens|
    requires GivensOutcome(givens, n - 1, inventory, rule, functions, exceptionLocations, host) == Returned(before)
    requires GivenNodes(givens[n - 1], Target(rule, inventory), host) == Returned(nodes)
    ensures GivensOutcome(givens, n, inventory, rule, functions, exceptionLocations, host)
            == Returned(LintNodes(nodes, |nodes|, inventory, rule, functions, exceptionLocations, host, before))
  {
  }

  /** A given path whose evaluation throws makes `runRule` throw. */
  lemma GivenThrows(givens: seq<string>, n: nat, inventory: Inventory, rule: Rule, functions: Dict<RuleFunction>,
                    exceptionLocations: Option<seq<string>>, host: Host)
    requires 0 < n <= |givens|
    requires GivenNodes(givens[n - 1], Target(rule, inventory), host).Threw?
    ensures GivensOutcome(givens, |givens|, inventory, rule, functions, exceptionLocations, host) == Threw
  {
    assert GivensOutcome(givens, n, inventory, rule, functions, exceptionLocations, host) == Threw;
    GivensThrowPropagates(givens, n, |givens|, inventory, rule, functions, exceptionLocations, host);
  }

  lemma {:induction false} GivensThrowPropagates(givens: seq<string>, m: nat, n: nat, inventory: Inventory, rule: Rule,
                                                 functions: Dict<RuleFunction>, exceptionLocations: Option<seq<string>>,
                                                 host: Host)
    requires m <= n <= |givens|
    requires GivensOutcome(givens, m, inventory, rule, functions, exceptionLocations, host) == Threw
    ensures GivensOutcome(givens, n, inventory, rule, functions, exceptionLocations, host) == Threw
    decreases n - m
  {
    if m < n {
      GivensThrowPropagates(givens, m + 1, n, inventory, rule, functions, exceptionLocations, host);
    }
  }

  // ----- runRules: every rule -----

  /** What rule `name` adds to the results of `runRules`: nothing when its
      formats or its severity switch it off or when it throws, otherwise
      what `runRule` returns, given the locations that except it. */
  function RuleResults(name: string, rule: Rule, inventory: Inventory, functions: Dict<RuleFunction>,
                       exceptRuleByLocations: Dict<seq<string>>, host: Host): seq<Violation>
  {
    if SkippedByFormat(rule, inventory.formats) || !IsRuleEnabled(rule, host) then []
    else
      match RunRuleOutcome(inventory, rule, functions, Get(exceptRuleByLocations, name), host)
      case Threw => []
      case Returned(violations) => violations
  }

  /** The results of the rules under the first `n` names, in that order. */
  function RulesResults(names: seq<string>, n: nat, rules: map<string, Rule>, inventory: Inventory,
                        functions: Dict<RuleFunction>, exceptRuleByLocations: Dict<seq<string>>, host: Host): seq<Violation>
    requires n <= |names|
    requires forall name :: name in names ==> name in rules
  {
    if n == 0 then []
    else
      var name := names[n - 1];
      RulesResults(names, n - 1, rules, inventory, functions, exceptRuleByLocations, host)
        + RuleResults(name, rules[name], inventory, functions, exceptRuleByLocations, host)
  }

  /** `runRules(documentInventory, rules, functions, exceptions)`. */
  method RunRules(inventory: Inventory, rules: Dict<Rule>, functions: Dict<RuleFunction>,
                  exceptions: Dict<seq<string>>, host: Host)
    returns (results: seq<Violation>)
    ensures results == RulesResults(rules.keys, |rules.keys|, rules.items, inventory, functions, Pivoted(exceptions), host)
  {
    var exceptRuleByLocations := PivotExceptions(exceptions);
    results := RunEachRule(rules.keys, rules.items, inventory, functions, exceptRuleByLocations, host);
  }

  /** The loop of `runRules` over the names of the rules, in order. */
  method RunEachRule(names: seq<string>, rules: map<string, Rule>, inventory: Inventory, functions: Dict<RuleFunction>,
                     exceptRuleByLocations: Dict<seq<string>>, host: Host)
    returns (results: seq<Violation>)
    requires forall name :: name in names ==> name in rules
    ensures results == RulesResults(names, |names|, rules, inventory, functions, exceptRuleByLocations, host)
  {
    results := [];
    var i := 0;
    while i < |names|
      invariant 0 <= i <= |names|
      invariant results == RulesResults(names, i, rules, inventory, functions, exceptRuleByLocations, host)
    {
      var name := names[i];
      var ruleResults := RunRuleOf(name, rules[name], inventory, functions, exceptRuleByLocations, host);
      results := results + ruleResults;
      i := i + 1;
    }
  }

  /** One pass of the loop of `runRules`: skip the rule when its formats or
      its severity switch it off; otherwise run it, and read a throw as no
      results. */
  method RunRuleOf(name: string, rule: Rule, inventory: Inventory, functions: Dict<RuleFunction>,
                   exceptRuleByLocations: Dict<seq<string>>, host: Host)
    returns (ruleResults: seq<Violation>)
    ensures ruleResults == RuleResults(name, rule, inventory, functions, exceptRuleByLocations, host)
  {
    ruleResults := [];
    if SkippedByFormat(rule, inventory.formats) || !IsRuleEnabled(rule, host) {
      return;
    }
    var outcome := RunRule(inventory, rule, functions, Get(exceptRuleByLocations, name), host);
    if outcome.Returned? {
      ruleResults := outcome.value;
    }
  }

  lemma AppendNothing<T>(s: seq<T>)
    ensures s + [] == s
  {
  }

  // ----- Exceptions -----

  /** With exception locations, `lint` pushes nothing. */
  lemma {:induction false} ExceptedLintRun(clauses: seq<Then>, n: nat, node: Node, inventory: Inventory, rule: Rule,
                                           functions: Dict<RuleFunction>, exceptionLocations: Option<seq<string>>,
                                           host: Host, results: seq<Violation>)
    requires n <= |clauses|
    requires exceptionLocations.Some?
    ensures LintRun(clauses, n, node, inventory, rule, functions, exceptionLocations, host, results).pushed == results
  {
    if n > 0 {
      ExceptedLintRun(clauses, n - 1, node, inventory, rule, functions, exceptionLocations, host, results);
      var before := LintRun(clauses, n - 1, node, inventory, rule, functions, exceptionLocations, host, results);
      var func := Get(functions, clauses[n - 1].functionName);
      if !before.stopped && func.Some? {
        LintNodeFilter(node, rule, clauses[n - 1], func.value, inventory, host, exceptionLocations);
        AppendNothing(before.pushed);
      }
    }
  }

  lemma {:induction false} ExceptedLintNodes(nodes: seq<Node>, n: nat, inventory: Inventory, rule: Rule,
                                             functions: Dict<RuleFunction>, exceptionLocations: Option<seq<string>>,
                                             host: Host, results: seq<Violation>)
    requires n <= |nodes|
    requires exceptionLocations.Some?
    ensures LintNodes(nodes, n, inventory, rule, functions, exceptionLocations, host, results) == results
  {
    if n > 0 {
      ExceptedLintNodes(nodes, n - 1, inventory, rule, functions, exceptionLocations, host, results);
      ExceptedLintRun(AsList(rule.clauses), |AsList(rule.clauses)|, nodes[n - 1], inventory, rule, functions,
                      exceptionLocations, host, results);
    }
  }

  lemma {:induction false} ExceptedGivens(givens: seq<string>, n: nat, inventory: Inventory, rule: Rule,
                                          functions: Dict<RuleFunction>, exceptionLocations: Option<seq<string>>,
                                          host: Host)
    requires n <= |givens|
    requires exceptionLocations.Some?
    ensures var outcome := GivensOutcome(givens, n, inventory, rule, functions, exceptionLocations, host);
            outcome.Returned? ==> outcome.value == []
  {
    if n > 0 {
      ExceptedGivens(givens, n - 1, inventory, rule, functions, exceptionLocations, host);
      var nodes := GivenNodes(givens[n - 1], Target(rule, inventory), host);
      if nodes.Returned? {
        ExceptedLintNodes(nodes.value, |nodes.value|, inventory, rule, functions, exceptionLocations, host, []);
      }
    }
  }

  /** A rule that some location lists in the exceptions reports nothing:
      the pivot gives it that location, and `lintNode` then keeps nothing. */
  lemma ExceptedRuleSilent(name: string, rule: Rule, inventory: Inventory, functions: Dict<RuleFunction>,
                           exceptions: Dict<seq<string>>, host: Host, location: string)
    requires location in exceptions.items && name in exceptions.items[location]
    ensures RuleResults(name, rule, inventory, functions, Pivoted(exceptions), host) == []
  {
    PivotedMembers(exceptions, name, location);
    var givens := AsList(rule.given);
    ExceptedGivens(givens, |givens|, inventory, rule, functions, Get(Pivoted(exceptions), name), host);
  }

  /** A rule that no location lists runs exactly as if there were no
      exceptions at all. */
  lemma UnexceptedRule(name: string, rule: Rule, inventory: Inventory, functions: Dict<RuleFunction>,
                       exceptions: Dict<seq<string>>, host: Host)
    requires forall location :: location in exceptions.items ==> name !in exceptions.items[location]
    ensures RuleResults(name, rule, inventory, functions, Pivoted(exceptions), host)
            == RuleResults(name, rule, inventory, functions, Empty(), host)
  {
    PivotedAbsent(exceptions, name);
  }

  // ----- Codes and severities -----

  /** Every violation in `vs` carries the rule's name as its code and the
      rule's mapped severity. */
  ghost predicate FromRule(vs: seq<Violation>, rule: Rule, host: Host)
  {
    forall v :: v in vs ==> v.code == rule.name && v.severity == host.severityOf(rule.severity)
  }

  lemma {:induction false} LintRunCodes(clauses: seq<Then>, n: nat, node: Node, inventory: Inventory, rule: Rule,
                                        functions: Dict<RuleFunction>, exceptionLocations: Option<seq<string>>,
                                        host: Host, results: seq<Violation>)
    requires n <= |clauses|
    requires FromRule(results, rule, host)
    ensures FromRule(LintRun(clauses, n, node, inventory, rule, functions, exceptionLocations, host, results).pushed,
                     rule, host)
  {
    if n > 0 {
      LintRunCodes(clauses, n - 1, node, inventory, rule, functions, exceptionLocations, host, results);
      var before := LintRun(clauses, n - 1, node, inventory, rule, functions, exceptionLocations, host, results);
      var func := Get(functions, clauses[n - 1].functionName);
      if !before.stopped && func.Some? {
        LintNodeCodes(node, rule, clauses[n - 1], func.value, inventory, host, exceptionLocations);
      }
    }
  }

  lemma {:induction false} LintNodesCodes(nodes: seq<Node>, n: nat, inventory: Inventory, rule: Rule,
                                          functions: Dict<RuleFunction>, exceptionLocations: Option<seq<string>>,
                                          host: Host, results: seq<Violation>)
    requires n <= |nodes|
    requires FromRule(results, rule, host)
    ensures FromRule(LintNodes(nodes, n, inventory, rule, functions, exceptionLocations, host, results), rule, host)
  {
    if n > 0 {
      var before := LintNodes(nodes, n - 1, inventory, rule, functions, exceptionLocations, host, results);
      LintNodesCodes(nodes, n - 1, inventory, rule, functions, exceptionLocations, host, results);
      LintRunCodes(AsList(rule.clauses), |AsList(rule.clauses)|, nodes[n - 1], inventory, rule, functions,
                   exceptionLocations, host, before);
    }
  }

  lemma {:induction false} GivensCodes(givens: seq<string>, n: nat, inventory: Inventory, rule: Rule,
                                       functions: Dict<RuleFunction>, exceptionLocations: Option<seq<string>>,
                                       host: Host)
    requires n <= |givens|
    ensures var outcome := GivensOutcome(givens, n, inventory, rule, functions, exceptionLocations, host);
            outcome.Returned? ==> FromRule(outcome.value, rule, host)
  {
    if n > 0 {
      GivensCodes(givens, n - 1, inventory, rule, functions, exceptionLocations, host);
      var before := GivensOutcome(givens, n - 1, inventory, rule, functions, exceptionLocations, host);
      var nodes := GivenNodes(givens[n - 1], Target(rule, inventory), host);
      if before.Returned? && nodes.Returned? {
        LintNodesCodes(nodes.value, |nodes.value|, inventory, rule, functions, exceptionLocations, host, before.value);
      }
    }
  }

  /** What a rule adds comes from that rule: its code is the rule's name,
      its severity the rule's mapped severity, and a rule adds something
      only when it is enabled and its formats match. */
  lemma RuleResultsCodes(name: string, rule: Rule, inventory: Inventory, functions: Dict<RuleFunction>,
                         exceptRuleByLocations: Dict<seq<string>>, host: Host)
    ensures var vs := RuleResults(name, rule, inventory, functions, exceptRuleByLocations, host);
            && FromRule(vs, rule, host)
            && (vs != [] ==> IsRuleEnabled(rule, host) && !SkippedByFormat(rule, inventory.formats))
  {
    var givens := AsList(rule.given);
    GivensCodes(givens, |givens|, inventory, rule, functions, Get(exceptRuleByLocations, name), host);
  }

  /** Every violation `runRules` returns was reported by an enabled rule
      whose formats match, and carries that rule's name and severity. */
  lemma {:induction false} RunRulesCodes(names: seq<string>, n: nat, rules: map<string, Rule>, inventory: Inventory,
                                         functions: Dict<RuleFunction>, exceptRuleByLocations: Dict<seq<string>>,
                                         host: Host, v: Violation)
    requires n <= |names|
    requires forall name :: name in names ==> name in rules
    requires v in RulesResults(names, n, rules, inventory, functions, exceptRuleByLocations, host)
    ensures exists name :: name in names && ReportedBy(v, rules[name], inventory, host)
  {
    var name := names[n - 1];
    var last := RuleResults(name, rules[name], inventory, functions, exceptRuleByLocations, host);
    if v in last {
      RuleResultsCodes(name, rules[name], inventory, functions, exceptRuleByLocations, host);
      assert ReportedBy(v, rules[name], inventory, host);
    } else {
      RunRulesCodes(names, n - 1, rules, inventory, functions, exceptRuleByLocations, host, v);
    }
  }

  /** `v` carries the name and severity of `rule`, an enabled rule whose
      formats match the document. */
  ghost predicate ReportedBy(v: Violation, rule: Rule, inventory: Inventory, host: Host)
  {
    && v.code == rule.name
    && v.severity == host.severityOf(rule.severity)
    && IsRuleEnabled(rule, host)
    && !SkippedByFormat(rule, inventory.formats)
  }

  // ----- Given paths -----

  lemma {:induction false} RootGivensReturn(givens: seq<string>, n: nat, inventory: Inventory, rule: Rule,
                                            functions: Dict<RuleFunction>, exceptionLocations: Option<seq<string>>,
                                            host: Host)
    requires n <= |givens|
    requires forall i :: 0 <= i < n ==> givens[i] == "$"
    ensures GivensOutcome(givens, n, inventory, rule, functions, exceptionLocations, host).Returned?
  {
    if n > 0 {
      RootGivensReturn(givens, n - 1, inventory, rule, functions, exceptionLocations, host);
    }
  }

  /** A rule whose only given path is `$` never throws, whatever the JSONPath
      evaluator would do: it lints the whole target tree as one node at
      path `['$']`. */
  lemma RootGivenNeverThrows(inventory: Inventory, rule: Rule, functions: Dict<RuleFunction>,
                             exceptionLocations: Option<seq<string>>, host: Host)
    requires forall i :: 0 <= i < |AsList(rule.given)| ==> AsList(rule.given)[i] == "$"
    ensures RunRuleOutcome(inventory, rule, functions, exceptionLocations, host).Returned?
    ensures rule.given == One("$") ==>
              RunRuleOutcome(inventory, rule, functions, exceptionLocations, host)
              == Returned(LintPushed(Node([Key("$")], Target(rule, inventory)), inventory, rule, functions,
                                     exceptionLocations, host, []))
  {
    var givens := AsList(rule.given);
    RootGivensReturn(givens, |givens|, inventory, rule, functions, exceptionLocations, host);
    if rule.given == One("$") {
      var node := Node([Key("$")], Target(rule, inventory));
      assert GivenNodes(givens[0], Target(rule, inventory), host) == Returned([node]);
      assert LintNodes([node], 1, inventory, rule, functions, exceptionLocations, host, [])
             == LintPushed(node, inventory, rule, functions, exceptionLocations, host, []);
    }
  }

  // ----- Clauses -----

  /** A clause whose `lintNode` throws keeps what the clauses before it
      pushed, and nothing after it is pushed. */
  lemma ThrowKeepsEarlier(clauses: seq<Then>, j: nat, node: Node, inventory: Inventory, rule: Rule,
                          functions: Dict<RuleFunction>, exceptionLocations: Option<seq<string>>, host: Host,
                          results: seq<Violation>)
    requires j < |clauses|
    requires Get(functions, clauses[j].functionName).Some?
    requires LintNodeOutcome(node, rule, clauses[j], Get(functions, clauses[j].functionName).value,
                             inventory, host, exceptionLocations).Threw?
    ensures LintRun(clauses, |clauses|, node, inventory, rule, functions, exceptionLocations, host, results).pushed
            == LintRun(clauses, j, node, inventory, rule, functions, exceptionLocations, host, results).pushed
  {
    ThrowStops(clauses, j + 1, node, inventory, rule, functions, exceptionLocations, host, results);
    StopPropagates(clauses, j + 1, |clauses|, node, inventory, rule, functions, exceptionLocations, host, results);
  }

  lemma ThrowStops(clauses: seq<Then>, n: nat, node: Node, inventory: Inventory, rule: Rule,
                   functions: Dict<RuleFunction>, exceptionLocations: Option<seq<string>>, host: Host,
                   results: seq<Violation>)
    requires 0 < n <= |clauses|
    requires Get(functions, clauses[n - 1].functionName).Some?
    requires LintNodeOutcome(node, rule, clauses[n - 1], Get(functions, clauses[n - 1].functionName).value,
                             inventory, host, exceptionLocations).Threw?
    ensures var after := LintRun(clauses, n, node, inventory, rule, functions, exceptionLocations, host, results);
            && after.stopped
            && after.pushed == LintRun(clauses, n - 1, node, inventory, rule, functions, exceptionLocations, host, results).pushed
  {
  }

  lemma {:induction false} LintRunPrefix(clauses: seq<Then>, others: seq<Then>, n: nat, node: Node, inventory: Inventory,
                                         rule: Rule, functions: Dict<RuleFunction>,
                                         exceptionLocations: Option<seq<string>>, host: Host, results: seq<Violation>)
    requires n <= |clauses| && n <= |others|
    requires forall i :: 0 <= i < n ==> clauses[i] == others[i]
    ensures LintRun(clauses, n, node, inventory, rule, functions, exceptionLocations, host, results)
            == LintRun(others, n, node, inventory, rule, functions, exceptionLocations, host, results)
  {
    if n > 0 {
      LintRunPrefix(clauses, others, n - 1, node, inventory, rule, functions, exceptionLocations, host, results);
      SameStep(clauses, n, others, n, node, inventory, rule, functions, exceptionLocations, host, results);
    }
  }

  /** Two runs in the same state that meet the same clause stay in the same
      state. */
  lemma SameStep(clauses: seq<Then>, m: nat, others: seq<Then>, n: nat, node: Node, inventory: Inventory,
                 rule: Rule, functions: Dict<RuleFunction>, exceptionLocations: Option<seq<string>>, host: Host,
                 results: seq<Violation>)
    requires 0 < m <= |clauses| && 0 < n <= |others|
    requires clauses[m - 1] == others[n - 1]
    requires LintRun(clauses, m - 1, node, inventory, rule, functions, exceptionLocations, host, results)
             == LintRun(others, n - 1, node, inventory, rule, functions, exceptionLocations, host, results)
    ensures LintRun(clauses, m, node, inventory, rule, functions, exceptionLocations, host, results)
            == LintRun(others, n, node, inventory, rule, functions, exceptionLocations, host, results)
  {
  }

  lemma {:induction false} LintRunShift(clauses: seq<Then>, j: nat, n: nat, node: Node, inventory: Inventory,
                                        rule: Rule, functions: Dict<RuleFunction>,
                                        exceptionLocations: Option<seq<string>>, host: Host, results: seq<Violation>)
    requires j < n <= |clauses|
    requires Get(functions, clauses[j].functionName).None?
    ensures LintRun(clauses, n, node, inventory, rule, functions, exceptionLocations, host, results)
            == LintRun(clauses[..j] + clauses[j + 1..], n - 1, node, inventory, rule, functions, exceptionLocations,
                       host, results)
  {
    var others := clauses[..j] + clauses[j + 1..];
    if n == j + 1 {
      LintRunPrefix(clauses, others, j, node, inventory, rule, functions, exceptionLocations, host, results);
    } else {
      LintRunShift(clauses, j, n - 1, node, inventory, rule, functions, exceptionLocations, host, results);
      assert others[n - 2] == clauses[n - 1];
      SameStep(clauses, n, others, n - 1, node, inventory, rule, functions, exceptionLocations, host, results);
    }
  }

  /** A clause whose function is not registered is skipped: `lint` pushes
      what it would push without that clause. */
  lemma MissingFunctionSkipped(clauses: seq<Then>, j: nat, node: Node, inventory: Inventory, rule: Rule,
                               functions: Dict<RuleFunction>, exceptionLocations: Option<seq<string>>, host: Host,
                               results: seq<Violation>)
    requires j < |clauses|
    requires Get(functions, clauses[j].functionName).None?
    ensures LintRun(clauses, |clauses|, node, inventory, rule, functions, exceptionLocations, host, results)
            == LintRun(clauses[..j] + clauses[j + 1..], |clauses| - 1, node, inventory, rule, functions,
                       exceptionLocations, host, results)
  {
    LintRunShift(clauses, j, |clauses|, node, inventory, rule, functions, exceptionLocations, host, results);
  }
}
