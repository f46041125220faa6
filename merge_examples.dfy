/** The tables of the `mergeExceptions` tests, merged under the ruleset
    `./ruleset.yaml`, with the results those tests expect. */
module MergeExamples {
  import opened Dicts
  import opened Strings
  import opened Refs
  import opened Exceptions

  const RulesetUri := "./ruleset.yaml"
  const A := "file.yaml#/a"
  const B := "file.yaml#/b"
  const C := "file.yaml#/c"
  const D := "file.yaml#/d"

  /** `{k1: v1, k2: v2}` */
  function Pair(k1: string, v1: seq<string>, k2: string, v2: seq<string>): (d: Dict<seq<string>>)
    requires k1 != k2
    ensures d.keys == [k1, k2] && d.items == map[k1 := v1, k2 := v2]
  {
    Put(Put(Empty(), k1, v1), k2, v2)
  }

  /** `file.yaml#/x` beside `./ruleset.yaml` normalises to itself. */
  lemma SiblingLocation(x: string)
    ensures Normalize("file.yaml#/" + x, Some(RulesetUri)) == Ok("file.yaml#/" + x)
  {
    assert Plain("ruleset.yaml");
    assert Plain("file.yaml");
    NormalizeSibling("ruleset.yaml", "file.yaml", x);
    assert "file.yaml" + "#/" + x == "file.yaml#/" + x;
    assert "./" + "ruleset.yaml" == RulesetUri;
  }

  /** A two-entry source whose locations normalise to themselves is merged
      entry by entry, with no error. */
  lemma MergeTwo(target: Dict<seq<string>>, x: string, v: seq<string>, y: string, w: seq<string>)
    requires x != y
    requires Normalize(x, Some(RulesetUri)) == Ok(x) && Normalize(y, Some(RulesetUri)) == Ok(y)
    ensures var norms := NormalizeAll([x, y], Some(RulesetUri));
            && FirstError(norms) == 2
            && MergeFirst(target, Pair(x, v, y, w), norms, 2) == MergeEntry(MergeEntry(target, x, v), y, w)
  {
    var norms := NormalizeAll([x, y], Some(RulesetUri));
    assert norms == [Ok(x), Ok(y)];
    MergeFirstTwo(target, x, v, y, w, norms);
  }

  lemma MergeFirstTwo(target: Dict<seq<string>>, x: string, v: seq<string>, y: string, w: seq<string>,
                      norms: seq<Result<string, string>>)
    requires x != y
    requires norms == [Ok(x), Ok(y)]
    ensures FirstError(norms) == 2
    ensures MergeFirst(target, Pair(x, v, y, w), norms, 2) == MergeEntry(MergeEntry(target, x, v), y, w)
  {
    assert norms[1..] == [Ok(y)] && norms[1..][1..] == [];
    var source := Pair(x, v, y, w);
    var first := MergeFirst(target, source, norms, 1);
    assert first == MergeEntry(target, x, v) by {
      assert MergeFirst(target, source, norms, 0) == target;
      assert source.keys[0] == x && source.items[x] == v;
    }
    assert source.keys[1] == y && source.items[y] == w;
    assert MergeFirst(target, source, norms, 2) == MergeEntry(first, y, w);
  }

  /** The four locations of the tests normalise to themselves. */
  lemma TestLocations()
    ensures Normalize(A, Some(RulesetUri)) == Ok(A) && Normalize(B, Some(RulesetUri)) == Ok(B)
    ensures Normalize(C, Some(RulesetUri)) == Ok(C) && Normalize(D, Some(RulesetUri)) == Ok(D)
  {
    SiblingLocation("a");
    SiblingLocation("b");
    SiblingLocation("c");
    SiblingLocation("d");
    assert "file.yaml#/" + "a" == A && "file.yaml#/" + "b" == B;
    assert "file.yaml#/" + "c" == C && "file.yaml#/" + "d" == D;
  }

  /** The four locations differ in their last character. */
  lemma DistinctLocations()
    ensures A != B && A != C && A != D && B != C && B != D && C != D
  {
    assert A[11] == 'a' && B[11] == 'b' && C[11] == 'c' && D[11] == 'd';
  }

  /** A strictly sorted list holding exactly the elements of `a` and `b` is their sorted union. */
  lemma SortedUnionIs(a: seq<string>, b: seq<string>, r: seq<string>)
    requires StrictlySorted(r)
    requires forall e :: e in r <==> e in a || e in b
    ensures SortedUnion(a, b) == r
  {
    SortedUnionMembers(a, b);
    StrictlySortedUnique(SortedUnion(a, b), r);
  }

  lemma OneToFour()
    ensures StrictlySorted(["1", "2", "3", "4"])
  {
    assert Less("1", "2") && Less("1", "3") && Less("1", "4");
    assert Less("2", "3") && Less("2", "4") && Less("3", "4");
  }

  /** One merge step whose sorted union is already known. */
  lemma MergeEntryIs(table: Dict<seq<string>>, key: string, rules: seq<string>, r: seq<string>)
    requires StrictlySorted(r)
    requires forall e :: e in r <==> e in RulesAt(table, key) || e in rules
    ensures MergeEntry(table, key, rules) == Put(table, key, r)
  {
    SortedUnionIs(RulesAt(table, key), rules, r);
  }

  /** A merge of two entries into `target` under locations that normalise to themselves. */
  lemma MergedAs(target: Dict<seq<string>>, x: string, v: seq<string>, y: string, w: seq<string>, r: Dict<seq<string>>)
    requires x != y
    requires Normalize(x, Some(RulesetUri)) == Ok(x) && Normalize(y, Some(RulesetUri)) == Ok(y)
    requires MergeEntry(MergeEntry(target, x, v), y, w) == r
    ensures var norms := NormalizeAll(Pair(x, v, y, w).keys, Some(RulesetUri));
            && FirstError(norms) == |norms|
            && MergeFirst(target, Pair(x, v, y, w), norms, FirstError(norms)) == r
  {
    MergeTwo(target, x, v, y, w);
  }

  /** `{k1: v1, k2: v2, k3: v3, k4: v4}` */
  function Quad(k1: string, v1: seq<string>, k2: string, v2: seq<string>,
                k3: string, v3: seq<string>, k4: string, v4: seq<string>): (d: Dict<seq<string>>)
    requires k1 != k2 && k1 != k3 && k1 != k4 && k2 != k3 && k2 != k4 && k3 != k4
    ensures d.keys == [k1, k2, k3, k4] && d.items == map[k1 := v1, k2 := v2, k3 := v3, k4 := v4]
  {
    Put(Put(Pair(k1, v1, k2, v2), k3, v3), k4, v4)
  }

  lemma IncludesNewEntries()
    ensures MergeEntry(MergeEntry(Pair(A, [], B, ["1", "2"]), C, ["3"]), D, ["4", "5"])
            == Quad(A, [], B, ["1", "2"], C, ["3"], D, ["4", "5"])
  {
    DistinctLocations();
    var target := Pair(A, [], B, ["1", "2"]);
    var first := Put(target, C, ["3"]);
    MergeEntryIs(target, C, ["3"], ["3"]);
    assert StrictlySorted(["4", "5"]) by {
      assert Less("4", "5");
    }
    MergeEntryIs(first, D, ["4", "5"], ["4", "5"]);
  }

  /** "includes new exceptions": new locations are added after the existing ones. */
  lemma IncludesNewExceptions()
    ensures var target := Pair(A, [], B, ["1", "2"]);
            var source := Pair(C, ["3"], D, ["4", "5"]);
            var norms := NormalizeAll(source.keys, Some(RulesetUri));
            var merged := MergeFirst(target, source, norms, FirstError(norms));
            && FirstError(norms) == |norms|
            && merged.keys == [A, B, C, D]
            && merged.items == map[A := [], B := ["1", "2"], C := ["3"], D := ["4", "5"]]
  {
    DistinctLocations();
    TestLocations();
    IncludesNewEntries();
    MergedAs(Pair(A, [], B, ["1", "2"]), C, ["3"], D, ["4", "5"], Quad(A, [], B, ["1", "2"], C, ["3"], D, ["4", "5"]));
  }

  lemma MergesExistingEntries(v: seq<string>, w: seq<string>)
    requires forall e :: e in v <==> e == "0"
    requires forall e :: e in w ==> e in ["2", "3", "4"]
    requires "2" in w && "4" in w
    ensures MergeEntry(MergeEntry(Pair(A, [], B, ["1", "3"]), A, v), B, w)
            == Pair(A, ["0"], B, ["1", "2", "3", "4"])
  {
    DistinctLocations();
    var target := Pair(A, [], B, ["1", "3"]);
    var first := Put(target, A, ["0"]);
    MergeEntryIs(target, A, v, ["0"]);
    OneToFour();
    MergeEntryIs(first, B, w, ["1", "2", "3", "4"]);
  }

  /** "merges existing exceptions": existing lists absorb the new rules, sorted. */
  lemma MergesExistingExceptions()
    ensures var target := Pair(A, [], B, ["1", "3"]);
            var source := Pair(A, ["0"], B, ["2", "4"]);
            var norms := NormalizeAll(source.keys, Some(RulesetUri));
            var merged := MergeFirst(target, source, norms, FirstError(norms));
            && FirstError(norms) == |norms|
            && merged.keys == [A, B]
            && merged.items == map[A := ["0"], B := ["1", "2", "3", "4"]]
  {
    DistinctLocations();
    TestLocations();
    MergesExistingEntries(["0"], ["2", "4"]);
    MergedAs(Pair(A, [], B, ["1", "3"]), A, ["0"], B, ["2", "4"], Pair(A, ["0"], B, ["1", "2", "3", "4"]));
  }

  /** "deduplicates exceptions": a rule listed twice, or already present, appears once. */
  lemma DeduplicatesExceptions()
    ensures var target := Pair(A, [], B, ["1", "3"]);
            var source := Pair(A, ["0", "0"], B, ["2", "4", "2", "3"]);
            var norms := NormalizeAll(source.keys, Some(RulesetUri));
            var merged := MergeFirst(target, source, norms, FirstError(norms));
            && FirstError(norms) == |norms|
            && merged.keys == [A, B]
            && merged.items == map[A := ["0"], B := ["1", "2", "3", "4"]]
  {
    DistinctLocations();
    TestLocations();
    MergesExistingEntries(["0", "0"], ["2", "4", "2", "3"]);
    MergedAs(Pair(A, [], B, ["1", "3"]), A, ["0", "0"], B, ["2", "4", "2", "3"],
             Pair(A, ["0"], B, ["1", "2", "3", "4"]));
  }
}
