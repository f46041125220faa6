/** String helpers the core relies on: the order `Array.prototype.sort`
    uses by default, the sorted duplicate-free list `[...new Set(xs)].sort()`
    builds, `String.prototype.trim`, substring search and `Array.prototype.join`. */
module Strings {

  /** Lexicographic order on character codes: a proper prefix comes first. */
  predicate Less(a: string, b: string)
    decreases |a|
  {
    if |a| == 0 then |b| > 0
    else if |b| == 0 then false
    else if a[0] != b[0] then a[0] < b[0]
    else Less(a[1..], b[1..])
  }

  lemma {:induction false} LessIrreflexive(a: string)
    ensures !Less(a, a)
    decreases |a|
  {
    if |a| > 0 {
      LessIrreflexive(a[1..]);
    }
  }

  lemma {:induction false} LessAsymmetric(a: string, b: string)
    requires Less(a, b)
    ensures !Less(b, a)
    decreases |a|
  {
    if |a| > 0 && |b| > 0 && a[0] == b[0] {
      LessAsymmetric(a[1..], b[1..]);
    }
  }

  lemma {:induction false} LessTransitive(a: string, b: string, c: string)
    requires Less(a, b) && Less(b, c)
    ensures Less(a, c)
    decreases |a|
  {
    if |a| > 0 && a[0] == b[0] && b[0] == c[0] {
      LessTransitive(a[1..], b[1..], c[1..]);
    }
  }

  lemma {:induction false} LessTotal(a: string, b: string)
    requires a != b
    ensures Less(a, b) || Less(b, a)
    decreases |a|
  {
    if |a| > 0 && |b| > 0 && a[0] == b[0] {
      assert a == [a[0]] + a[1..] && b == [b[0]] + b[1..];
      LessTotal(a[1..], b[1..]);
    }
  }

  /** Strictly increasing, hence also free of duplicates. */
  ghost predicate StrictlySorted(s: seq<string>)
  {
    forall i, j {:trigger Less(s[i], s[j])} :: 0 <= i < j < |s| ==> Less(s[i], s[j])
  }

  /** Inserts `x` at its place in a strictly sorted list, unless it is there already. */
  function Insert(x: string, s: seq<string>): (r: seq<string>)
    requires StrictlySorted(s)
    ensures StrictlySorted(r)
    ensures forall e :: e in r <==> e in s || e == x
  {
    if s == [] then [x]
    else if x == s[0] then s
    else if Less(x, s[0]) then
      assert forall j :: 0 <= j < |s| ==> Less(x, s[j]) by {
        forall j | 0 < j < |s| ensures Less(x, s[j]) {
          LessTransitive(x, s[0], s[j]);
        }
      }
      [x] + s
    else
      LessTotal(x, s[0]);
      var tail := Insert(x, s[1..]);
      assert forall e :: e in tail ==> Less(s[0], e);
      [s[0]] + tail
  }

  /** `[...new Set(xs)].sort()`: the distinct elements of `xs` in increasing
      order; `SortedSetMembers` states which elements those are. */
  function SortedSet(xs: seq<string>): (r: seq<string>)
    ensures StrictlySorted(r)
  {
    if xs == [] then [] else Insert(xs[|xs| - 1], SortedSet(xs[..|xs| - 1]))
  }

  /** The sorted list holds exactly the elements of its input. */
  lemma {:induction false} SortedSetMembers(xs: seq<string>)
    ensures forall e :: e in SortedSet(xs) <==> e in xs
  {
    if xs != [] {
      var init := xs[..|xs| - 1];
      SortedSetMembers(init);
      assert xs == init + [xs[|xs| - 1]];
    }
  }

  /** `b`'s elements inserted one by one into the strictly sorted `s`. */
  function InsertAll(s: seq<string>, b: seq<string>): (r: seq<string>)
    requires StrictlySorted(s)
    ensures StrictlySorted(r)
  {
    if b == [] then s else Insert(b[|b| - 1], InsertAll(s, b[..|b| - 1]))
  }

  lemma {:induction false} InsertAllMembers(s: seq<string>, b: seq<string>)
    requires StrictlySorted(s)
    ensures forall e :: e in InsertAll(s, b) <==> e in s || e in b
  {
    if b != [] {
      var init := b[..|b| - 1];
      InsertAllMembers(s, init);
      assert b == init + [b[|b| - 1]];
    }
  }

  /** The sorted union of two lists, built as the source builds it: a set
      of the first, the second added to it, then sorted. */
  function SortedUnion(a: seq<string>, b: seq<string>): (r: seq<string>)
    ensures StrictlySorted(r)
  {
    InsertAll(SortedSet(a), b)
  }

  lemma SortedUnionMembers(a: seq<string>, b: seq<string>)
    ensures forall e :: e in SortedUnion(a, b) <==> e in a || e in b
  {
    SortedSetMembers(a);
    InsertAllMembers(SortedSet(a), b);
  }

  /** A strictly sorted list is determined by its elements, so the sorted
      result does not depend on the order in which elements were added. */
  lemma {:induction false} StrictlySortedUnique(s: seq<string>, t: seq<string>)
    requires StrictlySorted(s) && StrictlySorted(t)
    requires forall e :: e in s <==> e in t
    ensures s == t
    decreases |s|
  {
    if s != [] && t != [] {
      if s[0] != t[0] {
        assert s[0] in t && t[0] in s;
        var i :| 0 <= i < |t| && t[i] == s[0];
        var j :| 0 <= j < |s| && s[j] == t[0];
        LessIrreflexive(s[0]);
        LessIrreflexive(t[0]);
        LessAsymmetric(s[0], t[0]);
        assert false;
      }
      LessIrreflexive(s[0]);
      assert s == [s[0]] + s[1..] && t == [t[0]] + t[1..];
      assert forall e :: e in s[1..] ==> e in t[1..] by {
        forall e | e in s[1..] ensures e in t[1..] {
          var k :| 0 <= k < |s[1..]| && s[1..][k] == e;
          assert Less(s[0], s[k + 1]);
          assert e in t;
          var m :| 0 <= m < |t| && t[m] == e;
          assert m != 0 && t[1..][m - 1] == e;
        }
      }
      assert forall e :: e in t[1..] ==> e in s[1..] by {
        forall e | e in t[1..] ensures e in s[1..] {
          var k :| 0 <= k < |t[1..]| && t[1..][k] == e;
          assert Less(t[0], t[k + 1]);
          assert e in s;
          var m :| 0 <= m < |s| && s[m] == e;
          assert m != 0 && s[1..][m - 1] == e;
        }
      }
      StrictlySortedUnique(s[1..], t[1..]);
      assert s == [s[0]] + s[1..] && t == [t[0]] + t[1..];
    } else if s != [] {
      HeadIsMember(s);
      assert false;
    } else if t != [] {
      HeadIsMember(t);
      assert false;
    }
  }

  lemma HeadIsMember(s: seq<string>)
    ensures s != [] ==> s[0] in s
  {
  }

  /** Adding the same names in another order, or in two rounds, yields the same list. */
  lemma SortedSetOrderFree(xs: seq<string>, ys: seq<string>)
    ensures SortedSet(xs + ys) == SortedSet(ys + xs)
    ensures SortedSet(SortedSet(xs) + ys) == SortedSet(xs + ys)
  {
    SortedSetMembers(xs + ys);
    SortedSetMembers(ys + xs);
    SortedSetMembers(xs);
    SortedSetMembers(SortedSet(xs) + ys);
    StrictlySortedUnique(SortedSet(xs + ys), SortedSet(ys + xs));
    StrictlySortedUnique(SortedSet(SortedSet(xs) + ys), SortedSet(xs + ys));
  }

  /** The characters `String.prototype.trim` removes: ECMAScript WhiteSpace
      (tab, vertical tab, form feed, space, no-break space, byte order mark
      and the Unicode space separators) and LineTerminator. */
  predicate IsWhitespace(c: char)
  {
    || c == '\t' || c == '\U{000B}' || c == '\U{000C}' || c == ' ' || c == '\U{00A0}' || c == '\U{FEFF}'
    || c == '\n' || c == '\r' || c == '\U{2028}' || c == '\U{2029}'
    || c == '\U{1680}' || ('\U{2000}' <= c <= '\U{200A}') || c == '\U{202F}' || c == '\U{205F}' || c == '\U{3000}'
  }

  /** Number of leading whitespace characters. */
  function LeadingSpace(s: string): (n: nat)
    ensures n <= |s|
    ensures forall k :: 0 <= k < n ==> IsWhitespace(s[k])
    ensures n < |s| ==> !IsWhitespace(s[n])
  {
    if s == [] || !IsWhitespace(s[0]) then 0 else 1 + LeadingSpace(s[1..])
  }

  /** Number of trailing whitespace characters. */
  function TrailingSpace(s: string): (n: nat)
    ensures n <= |s|
    ensures forall k :: |s| - n <= k < |s| ==> IsWhitespace(s[k])
    ensures n < |s| ==> !IsWhitespace(s[|s| - 1 - n])
  {
    if s == [] || !IsWhitespace(s[|s| - 1]) then 0 else 1 + TrailingSpace(s[..|s| - 1])
  }

  /** `s.trim()`: the slice of `s` between its leading and its trailing whitespace. */
  function Trim(s: string): string
  {
    var lead := LeadingSpace(s);
    if lead == |s| then ""
    else s[lead..|s| - TrailingSpace(s)]
  }

  /** `trim` removes whitespace only, and all of it at both ends: the result
      is a slice of `s` with nothing but whitespace around it, and neither
      of its ends is whitespace. */
  lemma TrimSlice(s: string)
    ensures var r := Trim(s);
            && (|r| > 0 ==> !IsWhitespace(r[0]) && !IsWhitespace(r[|r| - 1]))
            && exists i, j :: 0 <= i <= j <= |s| && r == s[i..j]
                 && (forall k :: 0 <= k < i ==> IsWhitespace(s[k]))
                 && (forall k :: j <= k < |s| ==> IsWhitespace(s[k]))
  {
    if LeadingSpace(s) == |s| {
      assert Trim(s) == s[0..0];
    } else {
      assert Trim(s) == s[LeadingSpace(s)..|s| - TrailingSpace(s)];
    }
  }

  /** `s.includes(sub)`. */
  ghost predicate Contains(s: string, sub: string)
  {
    exists i :: OccursAt(s, sub, i)
  }

  /** `sub` starts at index `i` of `s`. */
  predicate OccursAt(s: string, sub: string, i: int)
  {
    0 <= i && i + |sub| <= |s| && s[i..i + |sub|] == sub
  }

  /** `parts.join(sep)`. */
  function JoinWith(parts: seq<string>, sep: string): string
  {
    if parts == [] then ""
    else if |parts| == 1 then parts[0]
    else JoinWith(parts[..|parts| - 1], sep) + sep + parts[|parts| - 1]
  }

  /** Every part of a join occurs in it. */
  lemma {:induction false} JoinWithContains(parts: seq<string>, sep: string, i: nat)
    requires i < |parts|
    ensures Contains(JoinWith(parts, sep), parts[i])
  {
    if |parts| == 1 {
      assert OccursAt(JoinWith(parts, sep), parts[i], 0);
    } else {
      var init := parts[..|parts| - 1];
      var front := JoinWith(init, sep);
      var whole := JoinWith(parts, sep);
      assert whole == front + sep + parts[|parts| - 1];
      if i == |parts| - 1 {
        assert whole[|front| + |sep|..|front| + |sep| + |parts[i]|] == parts[i];
        assert OccursAt(whole, parts[i], |front| + |sep|);
      } else {
        assert init[i] == parts[i];
        JoinWithContains(init, sep, i);
        var p :| OccursAt(front, parts[i], p);
        assert whole[p..p + |parts[i]|] == front[p..p + |parts[i]|];
        assert OccursAt(whole, parts[i], p);
      }
    }
  }

  /** Text around a string keeps what the string contains. */
  lemma ContainsWithin(s: string, sub: string, before: string, after: string)
    requires Contains(s, sub)
    ensures Contains(before + s + after, sub)
  {
    var p :| OccursAt(s, sub, p);
    assert (before + s + after)[|before| + p..|before| + p + |sub|] == s[p..p + |sub|];
    assert OccursAt(before + s + after, sub, |before| + p);
  }
}
