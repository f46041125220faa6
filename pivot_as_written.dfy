/** `pivotExceptions` as written: `rule in dic` also sees the names every
    plain object inherits from `Object.prototype`. For such a name the list
    is never created, and `dic[rule]` is an inherited function (or, for
    `__proto__`, the prototype itself) with no `push`, so the push throws a
    `TypeError`. `Pivot` models the evidently intended behaviour, which
    looks up own keys only. */
module PivotAsWritten {
  import opened Dicts
  import opened Model
  import opened Pivot

  /** The property names of `Object.prototype`. */
  const InheritedNames: set<string> := {
    "constructor", "hasOwnProperty", "isPrototypeOf", "propertyIsEnumerable", "toLocaleString",
    "toString", "valueOf", "__proto__", "__defineGetter__", "__defineSetter__",
    "__lookupGetter__", "__lookupSetter__"
  }

  /** The inner `forEach` as written. */
  function PushAllAsWritten(dic: Dict<seq<string>>, location: string, rules: seq<string>): Try<Dict<seq<string>>>
  {
    if rules == [] then Returned(dic)
    else match PushAllAsWritten(dic, location, rules[..|rules| - 1])
      case Threw => Threw
      case Returned(d) =>
        var rule := rules[|rules| - 1];
        if rule !in d.items && rule in InheritedNames then Threw
        else Returned(Push(d, rule, location))
  }

  /** The outer `forEach` over the locations `ks`, as written. */
  function PivotKeysAsWritten(exceptions: Dict<seq<string>>, ks: seq<string>): Try<Dict<seq<string>>>
    requires forall k :: k in ks ==> k in exceptions.items
  {
    if ks == [] then Returned(Empty())
    else match PivotKeysAsWritten(exceptions, ks[..|ks| - 1])
      case Threw => Threw
      case Returned(d) =>
        var location := ks[|ks| - 1];
        PushAllAsWritten(d, location, exceptions.items[location])
  }

  /** What `pivotExceptions(exceptions)` does as written. */
  function PivotedAsWritten(exceptions: Dict<seq<string>>): Try<Dict<seq<string>>>
  {
    PivotKeysAsWritten(exceptions, exceptions.keys)
  }

  /** Some rule in `rules` is an inherited name. */
  predicate ListsInherited(rules: seq<string>)
  {
    exists r :: r in rules && r in InheritedNames
  }

  /** Some location among `ks` lists an inherited name. */
  predicate AnyInherited(exceptions: Dict<seq<string>>, ks: seq<string>)
    requires forall k :: k in ks ==> k in exceptions.items
  {
    exists k :: k in ks && ListsInherited(exceptions.items[k])
  }

  /** Pushing never adds a key that is not among the rules pushed. */
  lemma {:induction false} PushAllKeys(dic: Dict<seq<string>>, location: string, rules: seq<string>)
    ensures forall k :: k in PushAll(dic, location, rules).items ==> k in dic.items || k in rules
  {
    if rules != [] {
      PushAllKeys(dic, location, rules[..|rules| - 1]);
    }
  }

  /** The inner loop as written throws exactly when a rule is an inherited
      name, and otherwise does what `Pivot.PushAll` does. */
  lemma {:induction false} PushAllAsWrittenIs(dic: Dict<seq<string>>, location: string, rules: seq<string>)
    requires forall k :: k in InheritedNames ==> k !in dic.items
    ensures PushAllAsWritten(dic, location, rules)
            == if ListsInherited(rules) then Threw else Returned(PushAll(dic, location, rules))
  {
    if rules != [] {
      var init := rules[..|rules| - 1];
      var rule := rules[|rules| - 1];
      PushAllAsWrittenIs(dic, location, init);
      assert rules == init + [rule];
      assert ListsInherited(rules) <==> ListsInherited(init) || rule in InheritedNames;
      if !ListsInherited(init) {
        PushAllKeys(dic, location, init);
      }
    }
  }

  /** The whole pivot as written throws exactly when some location lists an
      inherited name, and otherwise returns `Pivot.Pivoted`'s table. */
  lemma {:induction false} PivotKeysAsWrittenIs(exceptions: Dict<seq<string>>, ks: seq<string>)
    requires forall k :: k in ks ==> k in exceptions.items
    ensures PivotKeysAsWritten(exceptions, ks)
            == if AnyInherited(exceptions, ks) then Threw else Returned(PivotKeys(exceptions, ks))
    ensures !AnyInherited(exceptions, ks) ==> forall k :: k in InheritedNames ==> k !in PivotKeys(exceptions, ks).items
  {
    if ks != [] {
      var init := ks[..|ks| - 1];
      var location := ks[|ks| - 1];
      PivotKeysAsWrittenIs(exceptions, init);
      assert ks == init + [location];
      assert AnyInherited(exceptions, ks)
             <==> AnyInherited(exceptions, init) || ListsInherited(exceptions.items[location]);
      if !AnyInherited(exceptions, init) {
        var d := PivotKeys(exceptions, init);
        PushAllAsWrittenIs(d, location, exceptions.items[location]);
        PushAllKeys(d, location, exceptions.items[location]);
      }
    }
  }

  lemma PivotedAsWrittenIs(exceptions: Dict<seq<string>>)
    ensures PivotedAsWritten(exceptions)
            == if AnyInherited(exceptions, exceptions.keys) then Threw else Returned(Pivoted(exceptions))
  {
    PivotKeysAsWrittenIs(exceptions, exceptions.keys);
  }

  /** `{'a.yaml#/x': ['toString']}`: the source throws, while the intended
      pivot lists the location under `toString`. */
  lemma ToStringThrows()
    ensures var exceptions := Put(Empty(), "a.yaml#/x", ["toString"]);
            && PivotedAsWritten(exceptions) == Threw
            && Get(Pivoted(exceptions), "toString") == Some(["a.yaml#/x"])
  {
    var exceptions := Put(Empty(), "a.yaml#/x", ["toString"]);
    PivotedAsWrittenIs(exceptions);
    assert ListsInherited(exceptions.items["a.yaml#/x"]) by {
      assert "toString" in ["toString"];
    }
    assert AnyInherited(exceptions, exceptions.keys);
    PivotedGet(exceptions, "toString");
    assert Listing(exceptions, exceptions.keys, "toString") == ["a.yaml#/x"] by {
      assert exceptions.keys == ["a.yaml#/x"] && exceptions.keys[..0] == [];
      assert Count(["toString"], "toString") == 1 by {
        assert ["toString"][..0] == [];
      }
      assert Repeat("a.yaml#/x", 1) == ["a.yaml#/x"];
    }
  }
}
