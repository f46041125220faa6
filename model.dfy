/** The values the linter works on: JSON data, paths into it, source
    ranges, documents and their inventory, rules and the violations they
    report. The helpers the core calls but that live elsewhere (the
    message renderer, the JSONPath evaluator, lodash `get` and `merge`,
    severity mapping, ...) are function-valued fields of `Host`, so every
    property proved here holds whatever values they return. None of them
    except the JSONPath evaluator is modelled as throwing. */
module Model {
  import opened Dicts

  /** A parsed JSON or YAML value. */
  datatype Json =
    | Null
    | Bool(b: bool)
    | Num(n: int)
    | Str(s: string)
    | Arr(elems: seq<Json>)
    | Obj(props: seq<(string, Json)>)

  /** One step of a JSON path: a property name or an array index. */
  datatype Segment = Key(name: string) | Index(i: int)

  type JsonPath = seq<Segment>

  datatype Position = Position(line: int, character: int)

  datatype Range = Range(start: Position, end: Position)

  /** `Document.DEFAULT_RANGE`, the empty range at the start of the file.
      src/document.ts is not part of this model; nothing proved here depends
      on this value. */
  const DefaultRange := Range(Position(0, 0), Position(0, 0))

  /** A parsed document: its data, where it was read from (`None` for
      `null` or absent) and `getRangeForJsonPath(path, true)`. */
  datatype Document = Document(data: Json, source: Option<string>, rangeFor: JsonPath -> Option<Range>)

  /** `DocumentInventoryItem`: the document that owns a path (one reached
      through a `$ref`), the path inside it, and the part of the path that
      does not exist there. */
  datatype Item = Item(document: Document, path: JsonPath, missingPropertyPath: Option<JsonPath>)

  /** The formats of a document: `undefined` (not detected yet), `null`
      (none recognised) or the list of recognised format names. */
  datatype Formats = Undetected | Unrecognized | Detected(names: seq<string>)

  /** `DocumentInventory`: the root document, its resolved and unresolved
      trees, its formats, and `findAssociatedItemForPath(path, resolved)`. */
  datatype Inventory = Inventory(
    document: Document,
    resolved: Json,
    unresolved: Json,
    formats: Formats,
    findItem: (JsonPath, bool) -> Option<Item>)

  /** A severity as a ruleset writes it: a number or a name such as `warn`. */
  datatype SeverityInput = Level(n: int) | Named(name: string)

  /** `string | string[]`. */
  datatype OneOrMany<T> = One(item: T) | Many(items: seq<T>)

  function AsList<T>(x: OneOrMany<T>): (r: seq<T>)
    ensures x.One? ==> r == [x.item]
    ensures x.Many? ==> r == x.items
  {
    match x
    case One(item) => [item]
    case Many(items) => items
  }

  /** `IThen`, one clause of a rule (`rule.then`): the property to look at,
      the name of the function to call and its options. */
  datatype Then = Then(field: Option<string>, functionName: string, functionOptions: Option<Json>)

  /** `IRunRule`, a rule as the runner sees it. */
  datatype Rule = Rule(
    name: string,
    given: OneOrMany<string>,
    clauses: OneOrMany<Then>,
    severity: Option<SeverityInput>,
    formats: Option<seq<string>>,
    resolved: Option<bool>,
    message: Option<string>,
    description: Option<string>)

  /** `IRule`, a rule as a ruleset declares it: its own `name` is optional. */
  datatype RuleDef = RuleDef(
    name: Option<string>,
    given: OneOrMany<string>,
    clauses: OneOrMany<Then>,
    severity: Option<SeverityInput>,
    formats: Option<seq<string>>,
    resolved: Option<bool>,
    message: Option<string>,
    description: Option<string>)

  /** A partial rule for `mergeRules`, as its list of properties. */
  datatype RulePatch = RulePatch(props: seq<(string, Json)>)

  /** What a rule function reports: a message and, optionally, a path. */
  datatype Failure = Failure(message: string, path: Option<JsonPath>)

  /** The outcome of code that can throw. */
  datatype Try<T> = Returned(value: T) | Threw

  /** A rule function (`IFunction`): called with the target value, the
      options, the given and target paths and the given node's value. It
      returns failures, `null`/`undefined` (`None`), or throws. */
  type RuleFunction = (Json, Json, JsonPath, JsonPath, Json) -> Try<Option<seq<Failure>>>

  /** A format detector (`FormatLookup`). */
  type FormatLookup = Json -> bool

  /** A node picked by `given`, and a target picked by `then.field`. */
  datatype Node = Node(path: JsonPath, value: Json)

  /** `IRuleResult`. */
  datatype Violation = Violation(
    code: string,
    message: string,
    path: JsonPath,
    severity: int,
    source: Option<string>,
    range: Range)

  /** The value of the `property` message variable. */
  datatype Property = PathSegment(segment: Segment) | Text(text: string)

  /** `IMessageVars`. */
  datatype MessageVars = MessageVars(
    property: Property,
    error: string,
    path: string,
    description: Option<string>,
    value: Json)

  /** The helpers the core calls and that are not part of this model:
      `getLintTargets`, the `message` template renderer, `printPath` in its
      dot and escaped-pointer styles, `decodePointerFragment`, lodash `get`
      and `merge`, `getDiagnosticSeverity`, `getClosestJsonPath`,
      `DEFAULT_SEVERITY_LEVEL` and the JSONPath evaluator. */
  datatype Host = Host(
    lintTargets: (Json, Option<string>) -> seq<Node>,
    render: (string, MessageVars) -> string,
    printDot: JsonPath -> string,
    printPointer: JsonPath -> string,
    decode: string -> string,
    get: (Json, JsonPath) -> Json,
    severityOf: Option<SeverityInput> -> int,
    closestPath: (Json, JsonPath) -> JsonPath,
    defaultSeverity: int,
    query: (string, Json) -> Try<seq<Node>>,
    mergeRule: (Option<Rule>, RulePatch) -> Rule)
}
