/** The `Spectral` class: its tables of rule functions, rules, exceptions
    and format detectors, the methods that replace or update them, and the
    format detection `runWithResolved` performs on a document before the
    rules run. Each table is a field holding a dictionary; the methods
    empty it and fill it key by key, as the class does. */
module Spectral {
  import opened Dicts
  import opened Model
  import opened Strings
  import Pivot

  // ----- Rules -----

  /** The rule `setRules` stores under `key` for the declared rule `def`:
      `{ name: key, ...def, severity }`, so a `name` the rule declares wins
      over the key, and the severity is `DEFAULT_SEVERITY_LEVEL` when none
      is declared and the mapped declared severity otherwise. */
  function Stored(key: string, def: RuleDef, host: Host): Rule
  {
    Rule(
      name := if def.name.Some? then def.name.value else key,
      given := def.given,
      clauses := def.clauses,
      severity := Some(Level(if def.severity.None? then host.defaultSeverity else host.severityOf(def.severity))),
      formats := def.formats,
      resolved := def.resolved,
      message := def.message,
      description := def.description)
  }

  /** The rule table after `setRules` has visited the first `n` keys of
      `defs`. */
  function StoredRules(defs: Dict<RuleDef>, n: nat, host: Host): Dict<Rule>
    requires n <= |defs.keys|
  {
    if n == 0 then Empty()
    else
      var name := defs.keys[n - 1];
      Put(StoredRules(defs, n - 1, host), name, Stored(name, defs.items[name], host))
  }

  lemma {:induction false} StoredRulesLookup(defs: Dict<RuleDef>, n: nat, host: Host, name: string)
    requires n <= |defs.keys|
    ensures StoredRules(defs, n, host).keys == defs.keys[..n]
    ensures Get(StoredRules(defs, n, host), name) ==
              if name in defs.keys[..n] then Some(Stored(name, defs.items[name], host)) else None
  {
    if n > 0 {
      AssignKeysStep(defs, n);
      StoredRulesLookup(defs, n - 1, host, name);
    }
  }

  /** After `setRules(defs)` the table has exactly the keys of `defs`, in
      their order; each rule is named after its key unless it declares a
      name, keeps its declared fields, and has a numeric severity. */
  lemma SetRulesTable(defs: Dict<RuleDef>, host: Host, name: string)
    ensures StoredRules(defs, |defs.keys|, host).keys == defs.keys
    ensures name in StoredRules(defs, |defs.keys|, host).items <==> name in defs.items
    ensures name in defs.items ==>
              var def := defs.items[name];
              var rule := StoredRules(defs, |defs.keys|, host).items[name];
              && rule.name == (if def.name.Some? then def.name.value else name)
              && rule.severity == Some(Level(if def.severity.None? then host.defaultSeverity else host.severityOf(def.severity)))
              && rule.given == def.given && rule.clauses == def.clauses
              && rule.formats == def.formats && rule.resolved == def.resolved
              && rule.message == def.message && rule.description == def.description
  {
    StoredRulesLookup(defs, |defs.keys|, host, name);
    assert defs.keys[..|defs.keys|] == defs.keys;
  }

  /** The rule table after `mergeRules` has visited the first `n` keys of
      `patches`: a key whose patch is truthy gets `merge(rules[key], patch)`,
      any other key is skipped. */
  function Merged(rules: Dict<Rule>, patches: Dict<Option<RulePatch>>, n: nat, host: Host): Dict<Rule>
    requires n <= |patches.keys|
  {
    if n == 0 then rules
    else
      var name := patches.keys[n - 1];
      var earlier := Merged(rules, patches, n - 1, host);
      match patches.items[name]
      case None => earlier
      case Some(patch) => Put(earlier, name, host.mergeRule(Get(earlier, name), patch))
  }

  lemma {:induction false} MergedLookup(rules: Dict<Rule>, patches: Dict<Option<RulePatch>>, n: nat, host: Host, name: string)
    requires n <= |patches.keys|
    ensures Get(Merged(rules, patches, n, host), name) ==
              if name in patches.keys[..n] && patches.items[name].Some?
              then Some(host.mergeRule(Get(rules, name), patches.items[name].value))
              else Get(rules, name)
    ensures |rules.keys| <= |Merged(rules, patches, n, host).keys|
    ensures Merged(rules, patches, n, host).keys[..|rules.keys|] == rules.keys
  {
    if n > 0 {
      var last := patches.keys[n - 1];
      AssignKeysStep(patches, n);
      MergedLookup(rules, patches, n - 1, host, name);
      MergedLookup(rules, patches, n - 1, host, last);
    }
  }

  /** `mergeRules(patches)` merges each truthy patch into the rule of the
      same name, once, and leaves every other rule as it was; the rules
      already there keep their order. */
  lemma MergeRulesTable(rules: Dict<Rule>, patches: Dict<Option<RulePatch>>, host: Host, name: string)
    ensures Get(Merged(rules, patches, |patches.keys|, host), name) ==
              if name in patches.items && patches.items[name].Some?
              then Some(host.mergeRule(Get(rules, name), patches.items[name].value))
              else Get(rules, name)
    ensures |rules.keys| <= |Merged(rules, patches, |patches.keys|, host).keys|
    ensures Merged(rules, patches, |patches.keys|, host).keys[..|rules.keys|] == rules.keys
  {
    MergedLookup(rules, patches, |patches.keys|, host, name);
    assert patches.keys[..|patches.keys|] == patches.keys;
  }

  // ----- Functions -----

  /** `{ ...defaultFunctions, ...functions }`. */
  function WithDefaults(defaults: Dict<RuleFunction>, fns: Dict<RuleFunction>): Dict<RuleFunction>
  {
    Assign(Assign(Empty(), defaults), fns)
  }

  /** After `setFunctions(fns)` a name holds the supplied function if there
      is one and the default otherwise, no other name is defined, and the
      defaults come first in their own order. */
  lemma SetFunctionsTable(defaults: Dict<RuleFunction>, fns: Dict<RuleFunction>, name: string)
    ensures Get(WithDefaults(defaults, fns), name) ==
              if name in fns.items then Some(fns.items[name]) else Get(defaults, name)
    ensures name in WithDefaults(defaults, fns).items <==> name in defaults.items || name in fns.items
    ensures |defaults.keys| <= |WithDefaults(defaults, fns).keys|
    ensures WithDefaults(defaults, fns).keys[..|defaults.keys|] == defaults.keys
  {
    AssignOntoEmpty(defaults);
    AssignLookup(defaults, fns, name);
  }

  // ----- Format detection -----

  /** `registeredFormats.filter(format => formats[format](data))`. */
  function Matching(names: seq<string>, formats: map<string, FormatLookup>, data: Json): seq<string>
    requires forall f :: f in names ==> f in formats
  {
    if names == [] then []
    else
      var last := names[|names| - 1];
      Matching(names[..|names| - 1], formats, data) + (if formats[last](data) then [last] else [])
  }

  lemma {:induction false} MatchingMembers(names: seq<string>, formats: map<string, FormatLookup>, data: Json, f: string)
    requires forall g :: g in names ==> g in formats
    ensures f in Matching(names, formats, data) <==> f in names && formats[f](data)
  {
    if names != [] {
      var init := names[..|names| - 1];
      assert names == init + [names[|names| - 1]];
      MatchingMembers(init, formats, data, f);
    }
  }

  /** Each name comes after the ones before it in `names`. */
  ghost predicate InRegistrationOrder(names: seq<string>, s: seq<string>)
  {
    forall i, j :: 0 <= i < j < |s| ==> Pivot.Position(names, s[i]) < Pivot.Position(names, s[j])
  }

  lemma {:induction false} MatchingOrdered(names: seq<string>, formats: map<string, FormatLookup>, data: Json)
    requires forall g :: g in names ==> g in formats
    requires forall i, j :: 0 <= i < j < |names| ==> names[i] != names[j]
    ensures InRegistrationOrder(names, Matching(names, formats, data))
  {
    if names != [] {
      var init := names[..|names| - 1];
      var last := names[|names| - 1];
      var front := Matching(init, formats, data);
      var s := Matching(names, formats, data);
      MatchingOrdered(init, formats, data);
      DistinctLast(names);
      forall i, j | 0 <= i < j < |s|
        ensures Pivot.Position(names, s[i]) < Pivot.Position(names, s[j])
      {
        assert s[i] == front[i];
        MatchingMembers(init, formats, data, s[i]);
        Pivot.PositionOfPrefix(names, s[i]);
        if j < |front| {
          assert s[j] == front[j];
          MatchingMembers(init, formats, data, s[j]);
          Pivot.PositionOfPrefix(names, s[j]);
        } else {
          assert s[j] == last;
        }
      }
    }
  }

  /** What format detection decides: the document's new formats and
      whether an `unrecognized-format` warning is added. */
  datatype Detection = Detection(formats: Formats, warn: bool)

  /** The decision at the start of `runWithResolved`, for the registered
      detectors, the document's current formats, the resolved data and the
      `ignoreUnknownFormat` option. */
  function Detect(registered: Dict<FormatLookup>, current: Formats, data: Json, ignoreUnknownFormat: bool): Detection
  {
    if !current.Undetected? then Detection(current, false)
    else
      var found := Matching(registered.keys, registered.items, data);
      if |found| == 0 && !ignoreUnknownFormat then Detection(Unrecognized, |registered.keys| > 0)
      else Detection(Detected(found), false)
  }

  /** Formats the document already has are kept, and nothing is reported. */
  lemma DetectKeepsDefined(registered: Dict<FormatLookup>, current: Formats, data: Json, ignoreUnknownFormat: bool)
    requires !current.Undetected?
    ensures Detect(registered, current, data, ignoreUnknownFormat) == Detection(current, false)
  {
  }

  /** An undetected document becomes unrecognised exactly when no detector
      accepts it and unknown formats are not ignored; a warning comes with
      it exactly when some format is registered. */
  lemma DetectUnrecognized(registered: Dict<FormatLookup>, data: Json, ignoreUnknownFormat: bool)
    ensures Detect(registered, Undetected, data, ignoreUnknownFormat).formats == Unrecognized <==>
              !ignoreUnknownFormat && forall f :: f in registered.items ==> !registered.items[f](data)
    ensures Detect(registered, Undetected, data, ignoreUnknownFormat).warn <==>
              Detect(registered, Undetected, data, ignoreUnknownFormat).formats == Unrecognized && registered.keys != []
  {
    var found := Matching(registered.keys, registered.items, data);
    if |found| > 0 {
      MatchingMembers(registered.keys, registered.items, data, found[0]);
    } else {
      forall f | f in registered.items
        ensures !registered.items[f](data)
      {
        MatchingMembers(registered.keys, registered.items, data, f);
      }
    }
  }

  /** Otherwise the document gets the registered formats whose detector
      accepts it, in registration order, possibly none, and nothing is
      reported. */
  lemma DetectFound(registered: Dict<FormatLookup>, data: Json, ignoreUnknownFormat: bool, f: string)
    requires Detect(registered, Undetected, data, ignoreUnknownFormat).formats != Unrecognized
    ensures Detect(registered, Undetected, data, ignoreUnknownFormat).formats.Detected?
    ensures !Detect(registered, Undetected, data, ignoreUnknownFormat).warn
    ensures f in Detect(registered, Undetected, data, ignoreUnknownFormat).formats.names <==>
              f in registered.items && registered.items[f](data)
    ensures InRegistrationOrder(registered.keys, Detect(registered, Undetected, data, ignoreUnknownFormat).formats.names)
  {
    MatchingMembers(registered.keys, registered.items, data, f);
    MatchingOrdered(registered.keys, registered.items, data);
  }

  /** `_generateUnrecognizedFormatError`, given the registered format names. */
  function UnrecognizedFormatError(document: Document, registered: seq<string>): Violation
  {
    Violation(
      code := "unrecognized-format",
      message := "The provided document does not match any of the registered formats [" + JoinWith(registered, ", ") + "]",
      path := [],
      severity := 1,
      source := document.source,
      range := match document.rangeFor([]) case Some(r) => r case None => DefaultRange)
  }

  /** The warning sits at the root of the document, has severity Warning
      (1), carries the document's source, and names every registered
      format. */
  lemma UnrecognizedFormatErrorShape(document: Document, registered: seq<string>, i: nat)
    requires i < |registered|
    ensures UnrecognizedFormatError(document, registered).code == "unrecognized-format"
    ensures UnrecognizedFormatError(document, registered).path == []
    ensures UnrecognizedFormatError(document, registered).severity == 1
    ensures UnrecognizedFormatError(document, registered).source == document.source
    ensures Contains(UnrecognizedFormatError(document, registered).message, registered[i])
  {
    JoinWithContains(registered, ", ", i);
    ContainsWithin(JoinWith(registered, ", "), registered[i],
      "The provided document does not match any of the registered formats [", "]");
  }

  // ----- The class -----

  /** The document being linted; format detection assigns its `formats`. */
  class LintedDocument {
    const document: Document
    var formats: Formats

    constructor(document: Document, formats: Formats)
      ensures this.document == document && this.formats == formats
    {
      this.document := document;
      this.formats := formats;
    }
  }

  class Spectral {
    /** `defaultFunctions`, the built-in rule functions. */
    const defaultFunctions: Dict<RuleFunction>
    var functions: Dict<RuleFunction>
    var rules: Dict<Rule>
    var exceptions: Dict<seq<string>>
    var formats: Dict<FormatLookup>

    constructor(defaultFunctions: Dict<RuleFunction>)
      ensures this.defaultFunctions == defaultFunctions
      ensures functions == defaultFunctions && rules == Empty()
      ensures exceptions == Empty() && formats == Empty()
    {
      this.defaultFunctions := defaultFunctions;
      functions := defaultFunctions;
      rules := Empty();
      exceptions := Empty();
      formats := Empty();
    }

    /** Empties the function table, then copies in the defaults overridden
        by `fns`. */
    method SetFunctions(fns: Dict<RuleFunction>)
      modifies this
      ensures functions == WithDefaults(defaultFunctions, fns)
      ensures rules == old(rules) && exceptions == old(exceptions) && formats == old(formats)
    {
      functions := Empty();
      functions := Assign(functions, WithDefaults(defaultFunctions, fns));
      AssignOntoEmpty(WithDefaults(defaultFunctions, fns));
    }

    /** Empties the rule table, then stores every declared rule under its
        key. */
    method SetRules(defs: Dict<RuleDef>, host: Host)
      modifies this
      ensures rules == StoredRules(defs, |defs.keys|, host)
      ensures functions == old(functions) && exceptions == old(exceptions) && formats == old(formats)
    {
      rules := Empty();
      for i := 0 to |defs.keys|
        invariant rules == StoredRules(defs, i, host)
        invariant functions == old(functions) && exceptions == old(exceptions) && formats == old(formats)
      {
        var name := defs.keys[i];
        rules := Put(rules, name, Stored(name, defs.items[name], host));
      }
    }

    /** Merges every truthy patch into the rule of the same name. */
    method MergeRules(patches: Dict<Option<RulePatch>>, host: Host)
      modifies this
      ensures rules == Merged(old(rules), patches, |patches.keys|, host)
      ensures functions == old(functions) && exceptions == old(exceptions) && formats == old(formats)
    {
      for i := 0 to |patches.keys|
        invariant rules == Merged(old(rules), patches, i, host)
        invariant functions == old(functions) && exceptions == old(exceptions) && formats == old(formats)
      {
        var name := patches.keys[i];
        var patch := patches.items[name];
        if patch.Some? {
          rules := Put(rules, name, host.mergeRule(Get(rules, name), patch.value));
        }
      }
    }

    /** Empties the exception table, then copies each location's list of
        rules into it: the table ends up equal to `source`. */
    method SetExceptions(source: Dict<seq<string>>)
      modifies this
      ensures exceptions == source
      ensures functions == old(functions) && rules == old(rules) && formats == old(formats)
    {
      exceptions := Empty();
      for i := 0 to |source.keys|
        invariant exceptions == AssignKeys(Empty(), source, source.keys[..i])
        invariant functions == old(functions) && rules == old(rules) && formats == old(formats)
      {
        var location := source.keys[i];
        AssignKeysStep(source, i + 1);
        exceptions := Put(exceptions, location, source.items[location]);
      }
      assert source.keys[..|source.keys|] == source.keys;
      AssignOntoEmpty(source);
    }

    /** Registers (or replaces) the detector for one format. */
    method RegisterFormat(format: string, fn: FormatLookup)
      modifies this
      ensures formats == Put(old(formats), format, fn)
      ensures functions == old(functions) && rules == old(rules) && exceptions == old(exceptions)
    {
      formats := Put(formats, format, fn);
    }

    /** Format detection on a document about to be linted: assigns its
        formats as `Detect` decides and appends the warning to `results`
        when `Detect` says so. */
    method DetectFormats(doc: LintedDocument, data: Json, ignoreUnknownFormat: bool, results: seq<Violation>)
      returns (out: seq<Violation>)
      modifies doc
      ensures doc.formats == Detect(formats, old(doc.formats), data, ignoreUnknownFormat).formats
      ensures out == results +
                if Detect(formats, old(doc.formats), data, ignoreUnknownFormat).warn
                then [UnrecognizedFormatError(doc.document, formats.keys)] else []
    {
      out := results;
      if doc.formats.Undetected? {
        var registered := formats.keys;
        var found := Matching(registered, formats.items, data);
        if |found| == 0 && !ignoreUnknownFormat {
          doc.formats := Unrecognized;
          if |registered| > 0 {
            out := out + [UnrecognizedFormatError(doc.document, registered)];
          }
        } else {
          doc.formats := Detected(found);
        }
      }
    }
  }
}
