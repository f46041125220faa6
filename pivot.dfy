/** `pivotExceptions`: turns the `except` table, location -> rule names, into
    rule name -> locations, the shape the runner looks rules up in. */
module Pivot {
  import opened Dicts

  /** `dic[rule].push(location)`, creating the list first when `rule` is new. */
  function Push(dic: Dict<seq<string>>, rule: string, location: string): Dict<seq<string>>
  {
    Put(dic, rule, (if rule in dic.items then dic.items[rule] else []) + [location])
  }

  /** The inner loop: `location` pushed under each of `rules` in turn. */
  function PushAll(dic: Dict<seq<string>>, location: string, rules: seq<string>): Dict<seq<string>>
  {
    if rules == [] then dic
    else Push(PushAll(dic, location, rules[..|rules| - 1]), rules[|rules| - 1], location)
  }

  /** The outer loop over the locations `ks`, starting from `{}`. */
  function PivotKeys(exceptions: Dict<seq<string>>, ks: seq<string>): Dict<seq<string>>
    requires forall k :: k in ks ==> k in exceptions.items
  {
    if ks == [] then Empty()
    else
      var location := ks[|ks| - 1];
      PushAll(PivotKeys(exceptions, ks[..|ks| - 1]), location, exceptions.items[location])
  }

  /** What `pivotExceptions(exceptions)` returns. */
  function Pivoted(exceptions: Dict<seq<string>>): Dict<seq<string>>
  {
    PivotKeys(exceptions, exceptions.keys)
  }

  /** `pivotExceptions(exceptions)`: the outer `forEach` over the entries.
      The input is a value and is left as it was. */
  method PivotExceptions(exceptions: Dict<seq<string>>) returns (dic: Dict<seq<string>>)
    ensures dic == Pivoted(exceptions)
  {
    dic := Empty();
    var i := 0;
    while i < |exceptions.keys|
      invariant 0 <= i <= |exceptions.keys|
      invariant dic == PivotKeys(exceptions, exceptions.keys[..i])
    {
      var location := exceptions.keys[i];
      dic := PushLocation(dic, location, exceptions.items[location]);
      assert exceptions.keys[..i + 1][..i] == exceptions.keys[..i];
      i := i + 1;
    }
    assert exceptions.keys[..i] == exceptions.keys;
  }

  /** The inner `forEach`: `location` pushed under each of its rules,
      creating a rule's list the first time the rule is seen. */
  method PushLocation(dic0: Dict<seq<string>>, location: string, rules: seq<string>) returns (dic: Dict<seq<string>>)
    ensures dic == PushAll(dic0, location, rules)
  {
    dic := dic0;
    var j := 0;
    while j < |rules|
      invariant 0 <= j <= |rules|
      invariant dic == PushAll(dic0, location, rules[..j])
    {
      var rule := rules[j];
      if rule !in dic.items {
        NewRulePush(dic, rule, location);
        dic := Put(dic, rule, []);
      }
      dic := Put(dic, rule, dic.items[rule] + [location]);
      assert rules[..j + 1][..j] == rules[..j];
      j := j + 1;
    }
    assert rules[..j] == rules;
  }

  /** `dic[rule] = []` followed by the push is the same single write. */
  lemma NewRulePush(dic: Dict<seq<string>>, rule: string, location: string)
    requires rule !in dic.items
    ensures Put(Put(dic, rule, []), rule, Put(dic, rule, []).items[rule] + [location]) == Push(dic, rule, location)
  {
    PutPut(dic, rule, [], [location]);
  }

  // ----- An independent description of the result -----

  /** How many times `rule` is listed in `rules`. */
  function Count(rules: seq<string>, rule: string): nat
  {
    if rules == [] then 0
    else Count(rules[..|rules| - 1], rule) + (if rules[|rules| - 1] == rule then 1 else 0)
  }

  /** `n` copies of `x`. */
  function Repeat(x: string, n: nat): seq<string>
  {
    if n == 0 then [] else Repeat(x, n - 1) + [x]
  }

  /** The locations among `ks` that list `rule`, in the order of `ks`, each
      as many times as it lists `rule`. */
  function Listing(exceptions: Dict<seq<string>>, ks: seq<string>, rule: string): seq<string>
    requires forall k :: k in ks ==> k in exceptions.items
  {
    if ks == [] then []
    else
      var location := ks[|ks| - 1];
      Listing(exceptions, ks[..|ks| - 1], rule) + Repeat(location, Count(exceptions.items[location], rule))
  }

  /** A list entry extended by `s`; a missing entry is only created when `s`
      is not empty. */
  function Extend(entry: Option<seq<string>>, s: seq<string>): Option<seq<string>>
  {
    match entry
    case None => if s == [] then None else Some(s)
    case Some(list) => Some(list + s)
  }

  lemma ExtendExtend(entry: Option<seq<string>>, s: seq<string>, t: seq<string>)
    ensures Extend(Extend(entry, s), t) == Extend(entry, s + t)
  {
    if entry.Some? {
      assert entry.value + s + t == entry.value + (s + t);
    } else if s == [] {
      assert s + t == t;
    }
  }

  lemma PushGet(dic: Dict<seq<string>>, rule: string, location: string, other: string)
    ensures Get(Push(dic, rule, location), other) ==
              if other == rule then Extend(Get(dic, other), [location]) else Get(dic, other)
  {
    if other == rule && rule !in dic.items {
      assert [] + [location] == [location];
    }
  }

  lemma {:induction false} PushAllGet(dic: Dict<seq<string>>, location: string, rules: seq<string>, rule: string)
    ensures Get(PushAll(dic, location, rules), rule) == Extend(Get(dic, rule), Repeat(location, Count(rules, rule)))
  {
    if rules != [] {
      var init := rules[..|rules| - 1];
      var last := rules[|rules| - 1];
      PushAllGet(dic, location, init, rule);
      PushGet(PushAll(dic, location, init), last, location, rule);
      var c := Count(init, rule);
      if last == rule {
        assert Count(rules, rule) == c + 1;
        ExtendExtend(Get(dic, rule), Repeat(location, c), [location]);
      } else {
        assert Count(rules, rule) == c;
      }
    } else if rule in dic.items {
      assert dic.items[rule] + [] == dic.items[rule];
    }
  }

  lemma {:induction false} PivotKeysGet(exceptions: Dict<seq<string>>, ks: seq<string>, rule: string)
    requires forall k :: k in ks ==> k in exceptions.items
    ensures Get(PivotKeys(exceptions, ks), rule) == Extend(None, Listing(exceptions, ks, rule))
  {
    if ks != [] {
      var init := ks[..|ks| - 1];
      var location := ks[|ks| - 1];
      PivotKeysGet(exceptions, init, rule);
      PushAllGet(PivotKeys(exceptions, init), location, exceptions.items[location], rule);
      ExtendExtend(None, Listing(exceptions, init, rule), Repeat(location, Count(exceptions.items[location], rule)));
    }
  }

  /** The pivot holds, under each rule, exactly `Listing` of all locations,
      and holds nothing under a rule no location lists. */
  lemma PivotedGet(exceptions: Dict<seq<string>>, rule: string)
    ensures var listing := Listing(exceptions, exceptions.keys, rule);
            Get(Pivoted(exceptions), rule) == if listing == [] then None else Some(listing)
  {
    PivotKeysGet(exceptions, exceptions.keys, rule);
  }

  /** Every list in the pivot is non-empty: a location with no rules adds
      no key. */
  lemma PivotedNonEmpty(exceptions: Dict<seq<string>>, rule: string)
    requires rule in Pivoted(exceptions).items
    ensures Pivoted(exceptions).items[rule] != []
  {
    PivotedGet(exceptions, rule);
  }

  // ----- Membership -----

  lemma {:induction false} CountPositive(rules: seq<string>, rule: string)
    ensures Count(rules, rule) > 0 <==> rule in rules
  {
    if rules != [] {
      var init := rules[..|rules| - 1];
      CountPositive(init, rule);
      assert rules == init + [rules[|rules| - 1]];
    }
  }

  lemma {:induction false} RepeatMembers(x: string, n: nat, y: string)
    ensures y in Repeat(x, n) <==> n > 0 && y == x
  {
    if n > 0 {
      RepeatMembers(x, n - 1, y);
    }
  }

  lemma {:induction false} ListingMembers(exceptions: Dict<seq<string>>, ks: seq<string>, rule: string, location: string)
    requires forall k :: k in ks ==> k in exceptions.items
    ensures location in Listing(exceptions, ks, rule) <==> location in ks && rule in exceptions.items[location]
  {
    if ks != [] {
      var init := ks[..|ks| - 1];
      var last := ks[|ks| - 1];
      ListingMembers(exceptions, init, rule, location);
      RepeatMembers(last, Count(exceptions.items[last], rule), location);
      CountPositive(exceptions.items[last], rule);
      assert ks == init + [last];
    }
  }

  /** Location `l` is listed under rule `r` in the pivot exactly when `r`
      is listed under `l` in the input. */
  lemma PivotedMembers(exceptions: Dict<seq<string>>, rule: string, location: string)
    ensures (rule in Pivoted(exceptions).items && location in Pivoted(exceptions).items[rule])
            <==> (location in exceptions.items && rule in exceptions.items[location])
  {
    PivotedGet(exceptions, rule);
    ListingMembers(exceptions, exceptions.keys, rule, location);
  }

  lemma {:induction false} ListingAbsent(exceptions: Dict<seq<string>>, ks: seq<string>, rule: string)
    requires forall k :: k in ks ==> k in exceptions.items
    requires forall k :: k in ks ==> rule !in exceptions.items[k]
    ensures Listing(exceptions, ks, rule) == []
  {
    if ks != [] {
      var last := ks[|ks| - 1];
      ListingAbsent(exceptions, ks[..|ks| - 1], rule);
      CountPositive(exceptions.items[last], rule);
    }
  }

  /** A rule that no location lists has no entry in the pivot. */
  lemma PivotedAbsent(exceptions: Dict<seq<string>>, rule: string)
    requires forall location :: location in exceptions.items ==> rule !in exceptions.items[location]
    ensures Get(Pivoted(exceptions), rule) == None
  {
    PivotedGet(exceptions, rule);
    ListingAbsent(exceptions, exceptions.keys, rule);
  }

  // ----- No deduplication -----

  lemma {:induction false} RepeatCount(x: string, n: nat, y: string)
    ensures multiset(Repeat(x, n))[y] == if x == y then n else 0
  {
    if n > 0 {
      RepeatCount(x, n - 1, y);
    }
  }

  lemma {:induction false} ListingCount(exceptions: Dict<seq<string>>, ks: seq<string>, rule: string, location: string)
    requires forall k :: k in ks ==> k in exceptions.items
    requires forall i, j :: 0 <= i < j < |ks| ==> ks[i] != ks[j]
    ensures multiset(Listing(exceptions, ks, rule))[location] ==
              if location in ks then Count(exceptions.items[location], rule) else 0
  {
    if ks != [] {
      var init := ks[..|ks| - 1];
      var last := ks[|ks| - 1];
      ListingCount(exceptions, init, rule, location);
      RepeatCount(last, Count(exceptions.items[last], rule), location);
      assert ks == init + [last];
      DistinctLast(ks);
    }
  }

  /** A rule listed `n` times under one location gets that location `n`
      times in the pivot. */
  lemma PivotedCount(exceptions: Dict<seq<string>>, rule: string, location: string)
    requires location in exceptions.items
    ensures multiset(RulesOf(Pivoted(exceptions), rule))[location] == Count(exceptions.items[location], rule)
  {
    PivotedGet(exceptions, rule);
    ListingCount(exceptions, exceptions.keys, rule, location);
  }

  /** The list under `rule`, `[]` when there is none. */
  function RulesOf(dic: Dict<seq<string>>, rule: string): seq<string>
  {
    if rule in dic.items then dic.items[rule] else []
  }

  // ----- Order -----

  /** The position of `location` among the keys, or past the end. */
  function Position(ks: seq<string>, location: string): (n: nat)
    ensures n <= |ks|
    ensures n < |ks| ==> ks[n] == location
    ensures location in ks ==> n < |ks|
  {
    if ks == [] then 0
    else if ks[|ks| - 1] == location && location !in ks[..|ks| - 1] then |ks| - 1
    else if location in ks[..|ks| - 1] then Position(ks[..|ks| - 1], location)
    else |ks|
  }

  /** Listed locations are in the order of the keys. */
  ghost predicate InKeyOrder(ks: seq<string>, s: seq<string>)
  {
    forall i, j :: 0 <= i < j < |s| ==> Position(ks, s[i]) <= Position(ks, s[j])
  }

  lemma {:induction false} PositionOfPrefix(ks: seq<string>, location: string)
    requires ks != [] && location in ks[..|ks| - 1]
    ensures Position(ks, location) == Position(ks[..|ks| - 1], location)
  {
  }

  lemma {:induction false} ListingOrdered(exceptions: Dict<seq<string>>, ks: seq<string>, rule: string)
    requires forall k :: k in ks ==> k in exceptions.items
    requires forall i, j :: 0 <= i < j < |ks| ==> ks[i] != ks[j]
    ensures InKeyOrder(ks, Listing(exceptions, ks, rule))
  {
    if ks != [] {
      var init := ks[..|ks| - 1];
      var last := ks[|ks| - 1];
      var front := Listing(exceptions, init, rule);
      var s := Listing(exceptions, ks, rule);
      ListingOrdered(exceptions, init, rule);
      forall i, j | 0 <= i < j < |s|
        ensures Position(ks, s[i]) <= Position(ks, s[j])
      {
        if j < |front| {
          OrderedFront(exceptions, ks, rule, i, j);
        } else {
          OrderedBack(exceptions, ks, rule, i, j);
        }
      }
    }
  }

  /** Two locations of the listing for all but the last key keep their order. */
  lemma OrderedFront(exceptions: Dict<seq<string>>, ks: seq<string>, rule: string, i: nat, j: nat)
    requires ks != [] && forall k :: k in ks ==> k in exceptions.items
    requires InKeyOrder(ks[..|ks| - 1], Listing(exceptions, ks[..|ks| - 1], rule))
    requires i < j < |Listing(exceptions, ks[..|ks| - 1], rule)|
    ensures Position(ks, Listing(exceptions, ks, rule)[i]) <= Position(ks, Listing(exceptions, ks, rule)[j])
  {
    var init := ks[..|ks| - 1];
    var front := Listing(exceptions, init, rule);
    assert Listing(exceptions, ks, rule)[i] == front[i];
    assert Listing(exceptions, ks, rule)[j] == front[j];
    ListingMembers(exceptions, init, rule, front[i]);
    ListingMembers(exceptions, init, rule, front[j]);
    PositionOfPrefix(ks, front[i]);
    PositionOfPrefix(ks, front[j]);
  }

  /** A location contributed by the last key comes after everything else. */
  lemma OrderedBack(exceptions: Dict<seq<string>>, ks: seq<string>, rule: string, i: nat, j: nat)
    requires ks != [] && forall k :: k in ks ==> k in exceptions.items
    requires forall i, j :: 0 <= i < j < |ks| ==> ks[i] != ks[j]
    requires |Listing(exceptions, ks[..|ks| - 1], rule)| <= j
    requires i < j < |Listing(exceptions, ks, rule)|
    ensures Position(ks, Listing(exceptions, ks, rule)[i]) <= Position(ks, Listing(exceptions, ks, rule)[j])
  {
    var s := Listing(exceptions, ks, rule);
    var last := ks[|ks| - 1];
    var back := Repeat(last, Count(exceptions.items[last], rule));
    var n := |Listing(exceptions, ks[..|ks| - 1], rule)|;
    assert s[j] == back[j - n];
    RepeatMembers(last, Count(exceptions.items[last], rule), s[j]);
    DistinctLast(ks);
    assert Position(ks, s[j]) == |ks| - 1;
    ListingMembers(exceptions, ks, rule, s[i]);
  }

  /** Under each rule, locations appear in the order of the input's keys. */
  lemma PivotedOrdered(exceptions: Dict<seq<string>>, rule: string)
    ensures InKeyOrder(exceptions.keys, RulesOf(Pivoted(exceptions), rule))
  {
    PivotedGet(exceptions, rule);
    ListingOrdered(exceptions, exceptions.keys, rule);
    assert RulesOf(Pivoted(exceptions), rule) == Listing(exceptions, exceptions.keys, rule);
  }

  // ----- Total size -----

  /** The summed lengths of the lists under `ks`. */
  function SumLengths(ks: seq<string>, items: map<string, seq<string>>): nat
    requires forall k :: k in ks ==> k in items
  {
    if ks == [] then 0 else SumLengths(ks[..|ks| - 1], items) + |items[ks[|ks| - 1]]|
  }

  function Total(dic: Dict<seq<string>>): nat
  {
    SumLengths(dic.keys, dic.items)
  }

  lemma {:induction false} SumLengthsOther(ks: seq<string>, items: map<string, seq<string>>, k: string, v: seq<string>)
    requires forall x :: x in ks ==> x in items
    requires k !in ks
    ensures SumLengths(ks, items[k := v]) == SumLengths(ks, items)
  {
    if ks != [] {
      SumLengthsOther(ks[..|ks| - 1], items, k, v);
    }
  }

  lemma {:induction false} SumLengthsUpdate(ks: seq<string>, items: map<string, seq<string>>, k: string, v: seq<string>)
    requires forall x :: x in ks ==> x in items
    requires forall i, j :: 0 <= i < j < |ks| ==> ks[i] != ks[j]
    requires k in ks
    ensures SumLengths(ks, items[k := v]) + |items[k]| == SumLengths(ks, items) + |v|
  {
    var init := ks[..|ks| - 1];
    var last := ks[|ks| - 1];
    if last == k {
      DistinctLast(ks);
      SumLengthsOther(init, items, k, v);
    } else {
      assert ks == init + [last];
      SumLengthsUpdate(init, items, k, v);
    }
  }

  /** One push adds one entry to the total. */
  lemma PushTotal(dic: Dict<seq<string>>, rule: string, location: string)
    ensures Total(Push(dic, rule, location)) == Total(dic) + 1
  {
    var v := (if rule in dic.items then dic.items[rule] else []) + [location];
    if rule in dic.items {
      SumLengthsUpdate(dic.keys, dic.items, rule, v);
    } else {
      var r := Push(dic, rule, location);
      assert r.keys[..|r.keys| - 1] == dic.keys;
      SumLengthsOther(dic.keys, dic.items, rule, v);
    }
  }

  lemma {:induction false} PushAllTotal(dic: Dict<seq<string>>, location: string, rules: seq<string>)
    ensures Total(PushAll(dic, location, rules)) == Total(dic) + |rules|
  {
    if rules != [] {
      PushAllTotal(dic, location, rules[..|rules| - 1]);
      PushTotal(PushAll(dic, location, rules[..|rules| - 1]), rules[|rules| - 1], location);
    }
  }

  lemma {:induction false} PivotKeysTotal(exceptions: Dict<seq<string>>, ks: seq<string>)
    requires forall k :: k in ks ==> k in exceptions.items
    ensures Total(PivotKeys(exceptions, ks)) == SumLengths(ks, exceptions.items)
  {
    if ks != [] {
      var init := ks[..|ks| - 1];
      var location := ks[|ks| - 1];
      PivotKeysTotal(exceptions, init);
      PushAllTotal(PivotKeys(exceptions, init), location, exceptions.items[location]);
    }
  }

  /** The pivot holds as many entries in all as the input. */
  lemma PivotedTotal(exceptions: Dict<seq<string>>)
    ensures Total(Pivoted(exceptions)) == Total(exceptions)
  {
    PivotKeysTotal(exceptions, exceptions.keys);
  }

  // ----- The documented example -----

  function ExampleExceptions(): Dict<seq<string>>
  {
    DictRep(["a", "b", "c"], map["a" := [], "b" := ["1", "2"], "c" := ["2", "3"]])
  }

  lemma ExampleAfterB()
    ensures PushAll(Empty(), "b", ["1", "2"]) == DictRep(["1", "2"], map["1" := ["b"], "2" := ["b"]])
  {
    var rules := ["1", "2"];
    assert rules[..1] == ["1"] && rules[..1][..0] == [];
    var d1 := Push(Empty(), "1", "b");
    assert [] + ["b"] == ["b"] && [] + ["1"] == ["1"];
    assert d1.items == map["1" := ["b"]];
    assert d1 == DictRep(["1"], map["1" := ["b"]]);
    assert Push(d1, "2", "b") == DictRep(["1", "2"], map["1" := ["b"], "2" := ["b"]]);
  }

  lemma ExampleAfterC()
    ensures PushAll(DictRep(["1", "2"], map["1" := ["b"], "2" := ["b"]]), "c", ["2", "3"])
            == DictRep(["1", "2", "3"], map["1" := ["b"], "2" := ["b", "c"], "3" := ["c"]])
  {
    var rules := ["2", "3"];
    assert rules[..1] == ["2"] && rules[..1][..0] == [];
    var d2: Dict<seq<string>> := DictRep(["1", "2"], map["1" := ["b"], "2" := ["b"]]);
    var d3 := Push(d2, "2", "c");
    assert "2" in d2.items && d2.items["2"] + ["c"] == ["b", "c"];
    assert d3.items == map["1" := ["b"], "2" := ["b", "c"]];
    assert d3 == DictRep(["1", "2"], map["1" := ["b"], "2" := ["b", "c"]]);
    assert "3" !in d3.items && [] + ["c"] == ["c"];
    assert d3.keys + ["3"] == ["1", "2", "3"];
    assert Push(d3, "3", "c") == DictRep(["1", "2", "3"], map["1" := ["b"], "2" := ["b", "c"], "3" := ["c"]]);
  }

  /** `{a: [], b: ['1', '2'], c: ['2', '3']}` pivots to
      `{'1': ['b'], '2': ['b', 'c'], '3': ['c']}`. */
  lemma PivotedExample()
    ensures Pivoted(ExampleExceptions())
            == DictRep(["1", "2", "3"], map["1" := ["b"], "2" := ["b", "c"], "3" := ["c"]])
  {
    var exceptions := ExampleExceptions();
    var ks := exceptions.keys;
    assert ks[..2] == ["a", "b"] && ks[..2][..1] == ["a"] && ks[..2][..1][..0] == [];
    assert PivotKeys(exceptions, ["a"]) == Empty();
    ExampleAfterB();
    ExampleAfterC();
  }
}
