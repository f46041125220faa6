/** Ruleset `except` tables: location strings `source#pointer` mapped to the
    names of the rules that are not to be reported there. `Normalize` checks
    one location and rebases it on the ruleset, `MergeExceptions` folds a
    ruleset's table into the collected one in place. */
module Exceptions {
  import opened Dicts
  import opened Strings
  import opened Refs

  const MissingSource := "Missing source"
  const OnlyAbsolute := "Only absolute Uris are allowed when no base ruleset uri has been provided"
  const MissingPointer := "Missing pointer fragment"

  const NotValidUri := "is not a valid uri"

  /** A name between backticks, as the messages quote it. */
  function Quote(s: string): string
  {
    "`" + s + "`"
  }

  /** `buildErrorMessage($ref, rulesetUri?, precision?)`; an empty precision
      is falsy and adds nothing. */
  function BuildErrorMessage(ref: string, rulesetUri: Option<string>, precision: Option<string>): string
  {
    var detail := if precision.Some? && precision.value != "" then " (" + precision.value + ")" else "";
    match rulesetUri
    case Some(uri) =>
      "Ruleset " + Quote(uri) + " exposes an `except` key " + Quote(ref) + " which " + NotValidUri + detail + "."
    case None =>
      "`except` key " + Quote(ref) + " " + NotValidUri + detail + "."
  }

  /** `a`, then `b`, then `c` occur in `m` in this order with at least one
      character before `a` and between them: the pattern `.+a.+b.+c`. */
  ghost predicate InOrder(m: string, a: string, b: string, c: string)
  {
    exists i, j, k :: OccursAt(m, a, i) && OccursAt(m, b, j) && OccursAt(m, c, k)
      && 0 < i && i + |a| < j && j + |b| < k
  }

  /** Where the pieces of a message built as `a + x + b + y + c + z + t + u` start. */
  lemma {:induction false} PiecesAt(a: string, x: string, b: string, y: string, c: string, z: string, t: string, u: string)
    ensures var m := a + x + b + y + c + z + t + u;
            && OccursAt(m, x, |a|) && OccursAt(m, y, |a| + |x| + |b|)
            && OccursAt(m, z, |a| + |x| + |b| + |y| + |c|)
  {
    var m := a + x + b + y + c + z + t + u;
    assert m[|a|..|a| + |x|] == x;
    assert m[|a| + |x| + |b|..|a| + |x| + |b| + |y|] == y;
    assert m[|a| + |x| + |b| + |y| + |c|..|a| + |x| + |b| + |y| + |c| + |z|] == z;
  }

  /** With a ruleset, the message quotes the ruleset, then the location, then
      says it is not a valid uri. */
  lemma ErrorMessageWithBase(ref: string, uri: string, precision: Option<string>)
    ensures InOrder(BuildErrorMessage(ref, Some(uri), precision), Quote(uri), Quote(ref), NotValidUri)
  {
    var detail := if precision.Some? && precision.value != "" then " (" + precision.value + ")" else "";
    var a, b, c := "Ruleset ", " exposes an `except` key ", " which ";
    PiecesAt(a, Quote(uri), b, Quote(ref), c, NotValidUri, detail, ".");
    assert |a| > 0 && |b| > 0 && |c| > 0;
  }

  /** Without a ruleset, the message quotes the location, then says it is
      not a valid uri. */
  lemma ErrorMessageWithoutBase(ref: string, precision: Option<string>)
    ensures exists j, k :: OccursAt(BuildErrorMessage(ref, None, precision), Quote(ref), j)
              && OccursAt(BuildErrorMessage(ref, None, precision), NotValidUri, k) && j + |Quote(ref)| < k
  {
    var detail := if precision.Some? && precision.value != "" then " (" + precision.value + ")" else "";
    var b, c := "`except` key ", " ";
    var m := b + Quote(ref) + c + NotValidUri + detail + ".";
    assert m[|b|..|b| + |Quote(ref)|] == Quote(ref);
    assert m[|b| + |Quote(ref)| + |c|..|b| + |Quote(ref)| + |c| + |NotValidUri|] == NotValidUri;
    assert m == BuildErrorMessage(ref, None, precision);
    assert OccursAt(m, Quote(ref), |b|) && OccursAt(m, NotValidUri, |b| + |Quote(ref)| + |c|);
  }

  /** `normalize($ref, rulesetUri?)`: the checks run in the order source,
      base, pointer presence, pointer syntax; an absolute source is kept as
      written, a relative one is rebased on the directory of the ruleset. */
  function Normalize(ref: string, rulesetUri: Option<string>): Result<string, string>
  {
    match ExtractSource(ref)
    case None => Err(BuildErrorMessage(ref, rulesetUri, Some(MissingSource)))
    case Some(source) =>
      if rulesetUri.None? && !IsAbsolute(source) then Err(BuildErrorMessage(ref, rulesetUri, Some(OnlyAbsolute)))
      else match ExtractPointer(ref)
        case None => Err(BuildErrorMessage(ref, rulesetUri, Some(MissingPointer)))
        case Some(pointer) =>
          if !IsUriFragmentPointer(pointer) then Err(BuildErrorMessage(ref, rulesetUri, None))
          else if IsAbsolute(source) then Ok(ref)
          else if rulesetUri.None? then Ok(source + pointer)
          else Ok(Join(rulesetUri.value, ["..", source]) + pointer)
  }

  /** The four rejections, each with its own precision, in the order the
      checks run; every other location is accepted. */
  lemma NormalizeErrors(ref: string, rulesetUri: Option<string>)
    ensures (|ref| == 0 || ref[0] == '#') ==>
              Normalize(ref, rulesetUri) == Err(BuildErrorMessage(ref, rulesetUri, Some(MissingSource)))
    ensures !(|ref| == 0 || ref[0] == '#') && rulesetUri.None? && !IsAbsolute(ExtractSource(ref).value) ==>
              Normalize(ref, rulesetUri) == Err(BuildErrorMessage(ref, rulesetUri, Some(OnlyAbsolute)))
    ensures !(|ref| == 0 || ref[0] == '#') && (rulesetUri.Some? || IsAbsolute(ExtractSource(ref).value)) && '#' !in ref ==>
              Normalize(ref, rulesetUri) == Err(BuildErrorMessage(ref, rulesetUri, Some(MissingPointer)))
    ensures !(|ref| == 0 || ref[0] == '#') && (rulesetUri.Some? || IsAbsolute(ExtractSource(ref).value)) && '#' in ref
              && !IsUriFragmentPointer(ExtractPointer(ref).value) ==>
              Normalize(ref, rulesetUri) == Err(BuildErrorMessage(ref, rulesetUri, None))
    ensures Normalize(ref, rulesetUri).Ok? <==>
              && !(|ref| == 0 || ref[0] == '#')
              && (rulesetUri.Some? || IsAbsolute(ExtractSource(ref).value))
              && '#' in ref
              && IsUriFragmentPointer(ExtractPointer(ref).value)
  {
    SplitRoundTrip(ref);
  }

  /** Every rejection quotes the location and says it is not a valid uri;
      with a ruleset it quotes the ruleset before the location. */
  lemma NormalizeErrorMentions(ref: string, rulesetUri: Option<string>)
    ensures Normalize(ref, rulesetUri).Err? ==>
              var m := Normalize(ref, rulesetUri).error;
              && Contains(m, Quote(ref))
              && Contains(m, NotValidUri)
              && (rulesetUri.Some? ==> InOrder(m, Quote(rulesetUri.value), Quote(ref), NotValidUri))
  {
    if Normalize(ref, rulesetUri).Err? {
      var precision :=
        if ExtractSource(ref).None? then Some(MissingSource)
        else if rulesetUri.None? && !IsAbsolute(ExtractSource(ref).value) then Some(OnlyAbsolute)
        else if ExtractPointer(ref).None? then Some(MissingPointer)
        else None;
      assert Normalize(ref, rulesetUri).error == BuildErrorMessage(ref, rulesetUri, precision);
      match rulesetUri
      case Some(uri) => ErrorMessageWithBase(ref, uri, precision);
      case None => ErrorMessageWithoutBase(ref, precision);
    }
  }

  /** An accepted location with an absolute source is returned as written,
      whatever the base. */
  lemma NormalizeAbsolute(ref: string, rulesetUri: Option<string>, other: Option<string>)
    requires ExtractSource(ref).Some? && IsAbsolute(ExtractSource(ref).value)
    ensures Normalize(ref, rulesetUri).Ok? ==> Normalize(ref, rulesetUri).value == ref
    ensures Normalize(ref, rulesetUri).Ok? <==> Normalize(ref, other).Ok?
  {
  }

  /** Without a base, a location is either accepted unchanged or rejected:
      the `source + pointer` branch cannot be reached. */
  lemma NormalizeWithoutBase(ref: string)
    ensures Normalize(ref, None).Ok? ==> Normalize(ref, None).value == ref
    ensures Normalize(ref, None).Ok? ==> IsAbsolute(ExtractSource(ref).value)
  {
  }

  /** A relative source is joined to the parent of the ruleset location and
      the pointer follows unchanged. */
  lemma NormalizeRelative(ref: string, base: string)
    requires Normalize(ref, Some(base)).Ok?
    requires !IsAbsolute(ExtractSource(ref).value)
    ensures ExtractSource(ref).Some? && ExtractPointer(ref).Some?
    ensures Normalize(ref, Some(base)).value ==
              Join(base, ["..", ExtractSource(ref).value]) + ExtractPointer(ref).value
    ensures IsUriFragmentPointer(ExtractPointer(ref).value)
  {
  }

  lemma {:induction false} IndexOfHashAfter(s: string, t: string)
    requires forall k :: 0 <= k < |s| ==> s[k] != '#'
    requires t != [] && t[0] == '#'
    ensures IndexOfHash(s + t) == Some(|s|)
  {
    if s != [] {
      assert (s + t)[1..] == s[1..] + t;
      IndexOfHashAfter(s[1..], t);
    }
  }

  /** The location splits at the first `#` when its source has none. */
  lemma SplitLocation(source: string, pointer: string)
    requires source != [] && source[0] != '#' && forall k :: 0 <= k < |source| ==> source[k] != '#'
    requires pointer != [] && pointer[0] == '#'
    ensures ExtractSource(source + pointer) == Some(source)
    ensures ExtractPointer(source + pointer) == Some(pointer)
  {
    IndexOfHashAfter(source, pointer);
    assert (source + pointer)[..|source|] == source;
    assert (source + pointer)[|source|..] == pointer;
  }

  /** `../a` as ruleset and `../b#/p` as location give `../../b#/p`. */
  lemma NormalizeRelativeParent(a: string, b: string, p: string)
    requires Plain(a) && Plain(b) && forall k :: 0 <= k < |b| ==> b[k] != '#'
    ensures Normalize("../" + b + "#/" + p, Some("../" + a)) == Ok("../../" + b + "#/" + p)
  {
    var source := "../" + b;
    var pointer := "#/" + p;
    assert "../" + b + "#/" + p == source + pointer;
    SplitLocation(source, pointer);
    assert !IsAbsolute(source) by {
      assert source[0] == '.';
    }
    assert IsUriFragmentPointer(pointer) by {
      assert pointer[0] == '#' && pointer[1] == '/';
    }
    JoinRelativeParent(a, b);
    assert Normalize(source + pointer, Some("../" + a)) == Ok(Join("../" + a, ["..", source]) + pointer);
    assert "../../" + b + "#/" + p == ("../../" + b) + pointer;
  }

  /** A ruleset `./a` with a location `b#/p` beside it keeps `b#/p`. */
  lemma NormalizeSibling(a: string, b: string, p: string)
    requires Plain(a) && Plain(b) && forall k :: 0 <= k < |b| ==> b[k] != '#'
    ensures Normalize(b + "#/" + p, Some("./" + a)) == Ok(b + "#/" + p)
  {
    var pointer := "#/" + p;
    assert b + "#/" + p == b + pointer;
    SplitLocation(b, pointer);
    assert !IsAbsolute(b) by {
      assert !IsSeparator(b[0]);
      assert !IsDriveQualified(b) by {
        if |b| >= 3 {
          assert !IsSeparator(b[2]);
        }
      }
      assert !IsUrl(b) by {
        var n := SchemeLength(b);
        if n + 3 <= |b| {
          assert b[n..n + 3][1] == b[n + 1];
          assert !IsSeparator(b[n + 1]);
        }
      }
    }
    assert IsUriFragmentPointer(pointer) by {
      assert pointer[0] == '#' && pointer[1] == '/';
    }
    JoinDotSibling(a, b);
    assert Normalize(b + pointer, Some("./" + a)) == Ok(Join("./" + a, ["..", b]) + pointer);
  }

  /** A URL ruleset `scheme://host/d/f` with `../g#/p` gives `scheme://host/g#/p`. */
  lemma NormalizeUrlParent(scheme: string, host: string, d: string, f: string, g: string, p: string)
    requires |scheme| > 0 && IsLetter(scheme[0])
    requires forall k :: 0 <= k < |scheme| ==> IsSchemeChar(scheme[k])
    requires forall k :: 0 <= k < |host| ==> !IsSeparator(host[k])
    requires Plain(d) && Plain(f) && Plain(g) && forall k :: 0 <= k < |g| ==> g[k] != '#'
    ensures Normalize("../" + g + "#/" + p, Some(scheme + "://" + host + "/" + d + "/" + f))
              == Ok(scheme + "://" + host + "/" + g + "#/" + p)
  {
    var source := "../" + g;
    var pointer := "#/" + p;
    assert "../" + g + "#/" + p == source + pointer;
    SplitLocation(source, pointer);
    assert !IsAbsolute(source) by {
      assert source[0] == '.';
    }
    assert IsUriFragmentPointer(pointer) by {
      assert pointer[0] == '#' && pointer[1] == '/';
    }
    var base := scheme + "://" + host + "/" + d + "/" + f;
    assert base == scheme + "://" + host + "/" + (d + "/" + f);
    UrlRoot(scheme, host, d + "/" + f);
    JoinUrlParent(base, scheme + "://" + host, d, f, g);
    assert Normalize(source + pointer, Some(base)) == Ok(Join(base, ["..", source]) + pointer);
    assert scheme + "://" + host + "/" + g + "#/" + p == (scheme + "://" + host + "/" + g) + pointer;
  }

  /** The rules listed under `key` in `table`, `[]` when there is no entry. */
  function RulesAt(table: Dict<seq<string>>, key: string): seq<string>
  {
    if key in table.items then table.items[key] else []
  }

  /** One entry of the merge: the sorted, duplicate-free union of the rules
      already there and the new ones (see `MergeEntryEffect`). */
  function MergeEntry(table: Dict<seq<string>>, key: string, rules: seq<string>): Dict<seq<string>>
  {
    Put(table, key, SortedUnion(RulesAt(table, key), rules))
  }

  lemma MergeEntryEffect(table: Dict<seq<string>>, key: string, rules: seq<string>)
    ensures var r := MergeEntry(table, key, rules);
            && key in r.items && StrictlySorted(r.items[key])
            && (forall e :: e in r.items[key] <==> e in RulesAt(table, key) || e in rules)
            && (forall k :: k != key ==> Get(r, k) == Get(table, k))
            && |table.keys| <= |r.keys| && r.keys[..|table.keys|] == table.keys
  {
    SortedUnionMembers(RulesAt(table, key), rules);
  }

  /** Every location of `source`, normalised, in key order. */
  function NormalizeAll(locations: seq<string>, baseUri: Option<string>): (r: seq<Result<string, string>>)
    ensures |r| == |locations|
    ensures forall j :: 0 <= j < |r| ==> r[j] == Normalize(locations[j], baseUri)
  {
    if locations == [] then []
    else NormalizeAll(locations[..|locations| - 1], baseUri) + [Normalize(locations[|locations| - 1], baseUri)]
  }

  /** Index of the first location that does not normalise, or the number
      of locations when they all do. */
  function FirstError(norms: seq<Result<string, string>>): (i: nat)
    ensures i <= |norms|
    ensures forall j :: 0 <= j < i ==> norms[j].Ok?
    ensures i < |norms| ==> norms[i].Err?
  {
    if norms == [] || norms[0].Err? then 0 else 1 + FirstError(norms[1..])
  }

  /** The first `n` source entries merged into `table` under their
      normalised locations `norms`, all of which normalise. */
  function MergeFirst(table: Dict<seq<string>>, source: Dict<seq<string>>, norms: seq<Result<string, string>>, n: nat)
    : Dict<seq<string>>
    requires n <= |source.keys| == |norms|
    requires forall j :: 0 <= j < n ==> norms[j].Ok?
  {
    if n == 0 then table
    else MergeEntry(MergeFirst(table, source, norms, n - 1), norms[n - 1].value, source.items[source.keys[n - 1]])
  }

  /** A rule-exception table that is updated in place. */
  class ExceptionTable {
    var entries: Dict<seq<string>>

    constructor(entries: Dict<seq<string>>)
      ensures this.entries == entries
    {
      this.entries := entries;
    }
  }

  /** `mergeExceptions(target, source, baseUri?)`: each source entry in turn
      is normalised and merged into `target`. The first location that does
      not normalise throws, reported here as `Some(message)`; the entries
      before it stay merged and the ones after it are not looked at. */
  method MergeExceptions(target: ExceptionTable, source: Dict<seq<string>>, baseUri: Option<string>)
    returns (error: Option<string>)
    modifies target
    ensures var norms := NormalizeAll(source.keys, baseUri);
            var stop := FirstError(norms);
            && target.entries == MergeFirst(old(target.entries), source, norms, stop)
            && error == if stop < |norms| then Some(norms[stop].error) else None
  {
    ghost var norms := NormalizeAll(source.keys, baseUri);
    var i := 0;
    while i < |source.keys|
      invariant 0 <= i <= |source.keys|
      invariant forall j :: 0 <= j < i ==> norms[j].Ok?
      invariant target.entries == MergeFirst(old(target.entries), source, norms, i)
    {
      var location := source.keys[i];
      var normalized := Normalize(location, baseUri);
      assert norms[i] == normalized;
      if normalized.Err? {
        FirstErrorAt(norms, i);
        return Some(normalized.error);
      }
      var key := normalized.value;
      var targetRules := if key in target.entries.items then target.entries.items[key] else [];
      assert targetRules == RulesAt(target.entries, key);
      assert forall j :: 0 <= j < i + 1 ==> norms[j].Ok? by {
        assert norms[i] == Ok(key);
      }
      target.entries := Put(target.entries, key, SortedUnion(targetRules, source.items[location]));
      assert target.entries == MergeFirst(old(target.entries), source, norms, i + 1) by {
        assert norms[i] == Ok(key);
      }
      i := i + 1;
    }
    FirstErrorAt(norms, i);
    return None;
  }

  /** The first error is where the prefix of successes ends. */
  lemma FirstErrorAt(norms: seq<Result<string, string>>, i: nat)
    requires i <= |norms|
    requires forall j :: 0 <= j < i ==> norms[j].Ok?
    requires i < |norms| ==> norms[i].Err?
    ensures FirstError(norms) == i
  {
  }

  /** Some location among the first `n` normalises to `key`. */
  ghost predicate Touches(norms: seq<Result<string, string>>, n: nat, key: string)
    requires n <= |norms|
  {
    exists j :: 0 <= j < n && norms[j] == Ok(key)
  }

  /** `Touches` for `n` locations splits into the first `n - 1` and the last. */
  lemma TouchesStep(norms: seq<Result<string, string>>, n: nat, k: string)
    requires 0 < n <= |norms|
    ensures Touches(norms, n, k) <==> Touches(norms, n - 1, k) || norms[n - 1] == Ok(k)
  {
    if Touches(norms, n, k) {
      var j :| 0 <= j < n && norms[j] == Ok(k);
      if j < n - 1 {
        assert Touches(norms, n - 1, k);
      }
    }
  }

  /** The rule lists of the first `n` locations that normalise to `key`,
      one after the other. */
  function Supplied(source: Dict<seq<string>>, norms: seq<Result<string, string>>, n: nat, key: string): seq<string>
    requires n <= |source.keys| == |norms|
  {
    if n == 0 then []
    else Supplied(source, norms, n - 1, key) + (if norms[n - 1] == Ok(key) then source.items[source.keys[n - 1]] else [])
  }

  /** A key no location normalises to is supplied nothing. */
  lemma {:induction false} SuppliedUntouched(source: Dict<seq<string>>, norms: seq<Result<string, string>>, n: nat, key: string)
    requires n <= |source.keys| == |norms|
    requires !Touches(norms, n, key)
    ensures Supplied(source, norms, n, key) == []
  {
    if n > 0 {
      TouchesStep(norms, n, key);
      SuppliedUntouched(source, norms, n - 1, key);
    }
  }

  /** A merge step changes no key but its own and keeps the existing keys
      first and in their order. */
  lemma MergeEntryKeeps(table: Dict<seq<string>>, key: string, rules: seq<string>, k: string)
    ensures k != key ==> Get(MergeEntry(table, key, rules), k) == Get(table, k)
    ensures table.keys <= MergeEntry(table, key, rules).keys
  {
  }

  /** The last step of merging the first `n` entries keeps the keys already there. */
  lemma MergeFirstStepKeys(table: Dict<seq<string>>, source: Dict<seq<string>>, norms: seq<Result<string, string>>, n: nat)
    requires 0 < n <= |source.keys| == |norms|
    requires forall j :: 0 <= j < n ==> norms[j].Ok?
    ensures MergeFirst(table, source, norms, n - 1).keys <= MergeFirst(table, source, norms, n).keys
  {
    var t := MergeFirst(table, source, norms, n - 1);
    var key, rules := norms[n - 1].value, source.items[source.keys[n - 1]];
    MergeEntryKeeps(t, key, rules, key);
    assert MergeFirst(table, source, norms, n) == MergeEntry(t, key, rules);
  }

  /** The last step of merging the first `n` entries changes only the key
      its location normalises to. */
  lemma MergeFirstStepOthers(table: Dict<seq<string>>, source: Dict<seq<string>>, norms: seq<Result<string, string>>, n: nat, k: string)
    requires 0 < n <= |source.keys| == |norms|
    requires forall j :: 0 <= j < n ==> norms[j].Ok?
    requires norms[n - 1] != Ok(k)
    ensures Get(MergeFirst(table, source, norms, n), k) == Get(MergeFirst(table, source, norms, n - 1), k)
  {
    var t := MergeFirst(table, source, norms, n - 1);
    var key, rules := norms[n - 1].value, source.items[source.keys[n - 1]];
    assert norms[n - 1] == Ok(key);
    MergeEntryKeeps(t, key, rules, k);
    assert MergeFirst(table, source, norms, n) == MergeEntry(t, key, rules);
  }

  /** A merge never removes a key nor moves the existing ones. */
  lemma {:induction false} MergeKeepsKeys(table: Dict<seq<string>>, source: Dict<seq<string>>, norms: seq<Result<string, string>>, n: nat)
    requires n <= |source.keys| == |norms|
    requires forall j :: 0 <= j < n ==> norms[j].Ok?
    ensures table.keys <= MergeFirst(table, source, norms, n).keys
    decreases n, 1
  {
    if 0 < n {
      KeepsKeysStep(table, source, norms, n);
    }
  }

  lemma KeepsKeysStep(table: Dict<seq<string>>, source: Dict<seq<string>>, norms: seq<Result<string, string>>, n: nat)
    requires 0 < n <= |source.keys| == |norms|
    requires forall j :: 0 <= j < n ==> norms[j].Ok?
    ensures table.keys <= MergeFirst(table, source, norms, n).keys
    decreases n, 0
  {
    MergeKeepsKeys(table, source, norms, n - 1);
    MergeFirstStepKeys(table, source, norms, n);
  }

  /** A merge leaves every key that no merged location normalises to as it was. */
  lemma {:induction false} MergeKeepsOthers(table: Dict<seq<string>>, source: Dict<seq<string>>, norms: seq<Result<string, string>>, n: nat, k: string)
    requires n <= |source.keys| == |norms|
    requires forall j :: 0 <= j < n ==> norms[j].Ok?
    requires !Touches(norms, n, k)
    ensures Get(MergeFirst(table, source, norms, n), k) == Get(table, k)
    decreases n, 1
  {
    if 0 < n {
      KeepsOthersStep(table, source, norms, n, k);
    }
  }

  lemma KeepsOthersStep(table: Dict<seq<string>>, source: Dict<seq<string>>, norms: seq<Result<string, string>>, n: nat, k: string)
    requires 0 < n <= |source.keys| == |norms|
    requires forall j :: 0 <= j < n ==> norms[j].Ok?
    requires !Touches(norms, n, k)
    ensures Get(MergeFirst(table, source, norms, n), k) == Get(table, k)
    decreases n, 0
  {
    TouchesStep(norms, n, k);
    MergeKeepsOthers(table, source, norms, n - 1, k);
    MergeFirstStepOthers(table, source, norms, n, k);
  }

  /** One merge step adds `rules` to the rules under `key` and changes no other key. */
  lemma RulesAtStep(t: Dict<seq<string>>, key: string, rules: seq<string>, k: string, before: seq<string>, base: seq<string>)
    requires forall e :: e in RulesAt(t, k) <==> e in base || e in before
    ensures forall e :: e in RulesAt(MergeEntry(t, key, rules), k) <==>
                        e in base || e in before + (if key == k then rules else [])
  {
    MergeEntryEffect(t, key, rules);
    var r := MergeEntry(t, key, rules);
    if key != k {
      assert RulesAt(r, k) == RulesAt(t, k) by {
        assert Get(r, k) == Get(t, k);
      }
      assert before + [] == before;
    }
  }

  /** After the merge, the rules under any key are exactly the rules it
      held before and the rules of all the locations that normalise to it. */
  lemma {:induction false} MergeRulesAt(table: Dict<seq<string>>, source: Dict<seq<string>>, norms: seq<Result<string, string>>, n: nat, k: string)
    requires n <= |source.keys| == |norms|
    requires forall j :: 0 <= j < n ==> norms[j].Ok?
    ensures forall e :: e in RulesAt(MergeFirst(table, source, norms, n), k) <==>
                        e in RulesAt(table, k) || e in Supplied(source, norms, n, k)
    decreases n, 1
  {
    if 0 < n {
      RulesAtMergeStep(table, source, norms, n, k);
    }
  }

  lemma RulesAtMergeStep(table: Dict<seq<string>>, source: Dict<seq<string>>, norms: seq<Result<string, string>>, n: nat, k: string)
    requires 0 < n <= |source.keys| == |norms|
    requires forall j :: 0 <= j < n ==> norms[j].Ok?
    ensures forall e :: e in RulesAt(MergeFirst(table, source, norms, n), k) <==>
                        e in RulesAt(table, k) || e in Supplied(source, norms, n, k)
    decreases n, 0
  {
    MergeRulesAt(table, source, norms, n - 1, k);
    var t := MergeFirst(table, source, norms, n - 1);
    var key, rules := norms[n - 1].value, source.items[source.keys[n - 1]];
    assert norms[n - 1] == Ok(key);
    RulesAtStep(t, key, rules, k, Supplied(source, norms, n - 1, k), RulesAt(table, k));
    assert MergeFirst(table, source, norms, n) == MergeEntry(t, key, rules);
  }

  /** An entry that is present and holds a sorted, duplicate-free list. */
  ghost predicate SortedEntry(entry: Option<seq<string>>)
  {
    entry.Some? && StrictlySorted(entry.value)
  }

  /** Every key a location normalises to is present and holds a sorted,
      duplicate-free list. */
  lemma {:induction false} MergeSorted(table: Dict<seq<string>>, source: Dict<seq<string>>, norms: seq<Result<string, string>>, n: nat, k: string)
    requires n <= |source.keys| == |norms|
    requires forall j :: 0 <= j < n ==> norms[j].Ok?
    requires Touches(norms, n, k)
    ensures SortedEntry(Get(MergeFirst(table, source, norms, n), k))
    decreases n, 1
  {
    TouchesStep(norms, n, k);
    if norms[n - 1] == Ok(k) {
      var t := MergeFirst(table, source, norms, n - 1);
      var rules := source.items[source.keys[n - 1]];
      MergeEntryEffect(t, k, rules);
      assert MergeFirst(table, source, norms, n) == MergeEntry(t, k, rules);
    } else {
      SortedEarlier(table, source, norms, n, k);
    }
  }

  lemma SortedEarlier(table: Dict<seq<string>>, source: Dict<seq<string>>, norms: seq<Result<string, string>>, n: nat, k: string)
    requires 0 < n <= |source.keys| == |norms|
    requires forall j :: 0 <= j < n ==> norms[j].Ok?
    requires Touches(norms, n - 1, k) && norms[n - 1] != Ok(k)
    ensures SortedEntry(Get(MergeFirst(table, source, norms, n), k))
    decreases n, 0
  {
    MergeSorted(table, source, norms, n - 1, k);
    MergeFirstStepOthers(table, source, norms, n, k);
  }

  /** Hence the list is the sorted set of the old rules and the supplied ones. */
  lemma MergeIsSortedUnion(table: Dict<seq<string>>, source: Dict<seq<string>>, norms: seq<Result<string, string>>, n: nat, k: string)
    requires n <= |source.keys| == |norms|
    requires forall j :: 0 <= j < n ==> norms[j].Ok?
    requires Touches(norms, n, k)
    ensures Get(MergeFirst(table, source, norms, n), k) == Some(SortedSet(RulesAt(table, k) + Supplied(source, norms, n, k)))
  {
    var r := MergeFirst(table, source, norms, n);
    var expected := SortedSet(RulesAt(table, k) + Supplied(source, norms, n, k));
    MergeSorted(table, source, norms, n, k);
    MergeRulesAt(table, source, norms, n, k);
    SortedSetMembers(RulesAt(table, k) + Supplied(source, norms, n, k));
    assert RulesAt(r, k) == Get(r, k).value;
    StrictlySortedUnique(Get(r, k).value, expected);
  }

}
