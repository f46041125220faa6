/** The reference and path helpers exception normalisation calls:
    splitting `source#pointer` (`extractSourceFromRef`, `extractPointerFromRef`),
    the URI-fragment JSON Pointer shape `pointerToPath` accepts (section 6 of
    RFC 6901), `isAbsolute` and `join`. */
module Refs {
  import opened Dicts
  import opened Strings

  /** Index of the first `#`, if any. */
  function IndexOfHash(s: string): (r: Option<nat>)
    ensures r.Some? ==> r.value < |s| && s[r.value] == '#' && forall k :: 0 <= k < r.value ==> s[k] != '#'
    ensures r.None? ==> forall k :: 0 <= k < |s| ==> s[k] != '#'
  {
    if s == [] then None
    else if s[0] == '#' then Some(0)
    else match IndexOfHash(s[1..])
      case None => None
      case Some(i) => Some(i + 1)
  }

  /** The text before the first `#`; absent for the empty string and for a
      local reference (one that starts with `#`). */
  function ExtractSource(ref: string): Option<string>
  {
    if |ref| == 0 || ref[0] == '#' then None
    else match IndexOfHash(ref)
      case None => Some(ref)
      case Some(i) => Some(ref[..i])
  }

  /** The text from the first `#` onwards; absent when there is no `#`. */
  function ExtractPointer(ref: string): Option<string>
  {
    if |ref| == 0 then None
    else match IndexOfHash(ref)
      case None => None
      case Some(i) => Some(ref[i..])
  }

  /** A reference splits into its source and its pointer with nothing lost:
      the source is absent exactly for empty and local references, the
      pointer exactly when there is no `#`, and when both exist they
      concatenate back to the reference. */
  lemma SplitRoundTrip(ref: string)
    ensures ExtractSource(ref).None? <==> |ref| == 0 || ref[0] == '#'
    ensures ExtractPointer(ref).None? <==> '#' !in ref
    ensures ExtractSource(ref).Some? ==> '#' !in ExtractSource(ref).value && |ExtractSource(ref).value| > 0
    ensures ExtractPointer(ref).Some? ==> ExtractPointer(ref).value[0] == '#'
    ensures ExtractSource(ref).Some? && ExtractPointer(ref).Some? ==>
              ref == ExtractSource(ref).value + ExtractPointer(ref).value
  {
    var h := IndexOfHash(ref);
    if h.Some? {
      assert '#' in ref;
      assert ref == ref[..h.value] + ref[h.value..];
    } else {
      assert '#' !in ref;
    }
  }

  /** What `pointerToPath` accepts: `#` alone or `#/` followed by anything. */
  predicate IsUriFragmentPointer(p: string)
  {
    p == "#" || (|p| >= 2 && p[0] == '#' && p[1] == '/')
  }

  predicate IsLetter(c: char)
  {
    ('a' <= c <= 'z') || ('A' <= c <= 'Z')
  }

  /** Characters allowed in a URI scheme (section 3.1 of RFC 3986). */
  predicate IsSchemeChar(c: char)
  {
    IsLetter(c) || ('0' <= c <= '9') || c == '+' || c == '-' || c == '.'
  }

  /** Length of the longest prefix made of scheme characters. */
  function SchemeLength(s: string): (n: nat)
    ensures n <= |s|
    ensures forall k :: 0 <= k < n ==> IsSchemeChar(s[k])
    ensures n < |s| ==> !IsSchemeChar(s[n])
  {
    if s == [] || !IsSchemeChar(s[0]) then 0 else 1 + SchemeLength(s[1..])
  }

  /** `scheme://...` */
  predicate IsUrl(s: string)
  {
    |s| > 0 && IsLetter(s[0]) &&
    var n := SchemeLength(s);
    n + 3 <= |s| && s[n..n + 3] == "://"
  }

  /** A drive letter followed by `:/` or `:\`. */
  predicate IsDriveQualified(s: string)
  {
    |s| >= 3 && IsLetter(s[0]) && s[1] == ':' && (s[2] == '/' || s[2] == '\\')
  }

  /** `isAbsolute`: a leading `/`, a URL, or a drive-qualified path. */
  predicate IsAbsolute(s: string)
  {
    (|s| > 0 && s[0] == '/') || IsUrl(s) || IsDriveQualified(s)
  }

  predicate IsSeparator(c: char)
  {
    c == '/' || c == '\\'
  }

  /** Index of the first separator, or the length when there is none. */
  function SeparatorIndex(s: string): (n: nat)
    ensures n <= |s|
    ensures forall k :: 0 <= k < n ==> !IsSeparator(s[k])
    ensures n < |s| ==> IsSeparator(s[n])
  {
    if s == [] || IsSeparator(s[0]) then 0 else 1 + SeparatorIndex(s[1..])
  }

  /** The part of a path that `..` can never climb above. */
  datatype Root = Relative | Slash | Prefix(text: string)

  /** Where the `scheme://host` part of a URL ends: at the first separator
      after `://`, or at the end. */
  function HostEnd(s: string): (n: nat)
    requires IsUrl(s)
    ensures SchemeLength(s) + 3 <= n <= |s|
  {
    var start := SchemeLength(s) + 3;
    start + SeparatorIndex(s[start..])
  }

  /** Splits a path into its root (`scheme://host`, a drive `c:`, a leading
      `/`, or nothing) and the rest. */
  function RootOf(s: string): (Root, string)
  {
    if IsUrl(s) then (Prefix(s[..HostEnd(s)]), s[HostEnd(s)..])
    else if IsDriveQualified(s) then (Prefix(s[..2]), s[2..])
    else if |s| > 0 && s[0] == '/' then (Slash, s)
    else (Relative, s)
  }

  /** The segments between separators, empty ones included. */
  function Split(s: string): (r: seq<string>)
    ensures |r| > 0
  {
    if s == [] then [""]
    else
      var rest := Split(s[1..]);
      if IsSeparator(s[0]) then [""] + rest
      else [[s[0]] + rest[0]] + rest[1..]
  }

  /** Applies one segment: empty and `.` segments vanish, `..` removes the
      segment before it, and when there is none it is kept on a relative
      path and dropped at a root. */
  function Step(rooted: bool, stack: seq<string>, seg: string): seq<string>
  {
    if seg == "" || seg == "." then stack
    else if seg == ".." then
      if |stack| > 0 && stack[|stack| - 1] != ".." then stack[..|stack| - 1]
      else if rooted then stack
      else stack + [".."]
    else stack + [seg]
  }

  function Resolve(rooted: bool, segs: seq<string>): seq<string>
  {
    if segs == [] then []
    else Step(rooted, Resolve(rooted, segs[..|segs| - 1]), segs[|segs| - 1])
  }

  /** Number of leading `..` segments. */
  function LeadingUps(stack: seq<string>): (n: nat)
    ensures n <= |stack|
    ensures forall i :: 0 <= i < n ==> stack[i] == ".."
    ensures n < |stack| ==> stack[n] != ".."
  {
    if stack == [] || stack[0] != ".." then 0 else 1 + LeadingUps(stack[1..])
  }

  /** A resolved path: some `..` segments (none under a root), then plain segments. */
  ghost predicate Collapsed(rooted: bool, stack: seq<string>)
  {
    && (rooted ==> LeadingUps(stack) == 0)
    && (forall i :: LeadingUps(stack) <= i < |stack| ==> stack[i] != "" && stack[i] != "." && stack[i] != "..")
  }

  lemma {:induction false} ResolveCollapses(rooted: bool, segs: seq<string>)
    ensures Collapsed(rooted, Resolve(rooted, segs))
  {
    if segs != [] {
      var stack := Resolve(rooted, segs[..|segs| - 1]);
      ResolveCollapses(rooted, segs[..|segs| - 1]);
      var n := LeadingUps(stack);
      var seg := segs[|segs| - 1];
      var r := Step(rooted, stack, seg);
      if seg == "" || seg == "." {
      } else if seg == ".." {
        if |stack| > 0 && stack[|stack| - 1] != ".." {
          assert n <= |stack| - 1;
          UpsOfPrefix(stack, |stack| - 1);
        } else if !rooted {
          assert n == |stack|;
          UpsOfAllUps(r);
        }
      } else {
        UpsOfExtension(stack, seg);
      }
    }
  }

  lemma {:induction false} UpsOfPrefix(stack: seq<string>, m: nat)
    requires LeadingUps(stack) <= m <= |stack|
    ensures LeadingUps(stack[..m]) == LeadingUps(stack)
  {
    if stack != [] && stack[0] == ".." {
      assert stack[..m][1..] == stack[1..][..m - 1];
      UpsOfPrefix(stack[1..], m - 1);
    }
  }

  lemma {:induction false} UpsOfAllUps(stack: seq<string>)
    requires forall i :: 0 <= i < |stack| ==> stack[i] == ".."
    ensures LeadingUps(stack) == |stack|
  {
    if stack != [] {
      UpsOfAllUps(stack[1..]);
    }
  }

  lemma {:induction false} UpsOfExtension(stack: seq<string>, seg: string)
    requires seg != ".."
    ensures LeadingUps(stack + [seg]) == LeadingUps(stack)
  {
    if stack != [] && stack[0] == ".." {
      assert (stack + [seg])[1..] == stack[1..] + [seg];
      UpsOfExtension(stack[1..], seg);
    }
  }

  /** Characters of the resolved segments all come from the input segments. */
  lemma {:induction false} ResolveChars(rooted: bool, segs: seq<string>, c: char)
    requires forall i :: 0 <= i < |segs| ==> c !in segs[i]
    ensures forall i :: 0 <= i < |Resolve(rooted, segs)| ==> c !in Resolve(rooted, segs)[i]
  {
    if segs != [] {
      ResolveChars(rooted, segs[..|segs| - 1], c);
    }
  }

  function Format(root: Root, segs: seq<string>): string
  {
    match root
    case Relative => if segs == [] then "." else JoinWith(segs, "/")
    case Slash => "/" + JoinWith(segs, "/")
    case Prefix(p) => p + "/" + JoinWith(segs, "/")
  }

  function SplitAll(parts: seq<string>): seq<string>
  {
    if parts == [] then [] else SplitAll(parts[..|parts| - 1]) + Split(parts[|parts| - 1])
  }

  /** `join(base, ...parts)` for relative `parts`: the segments of `base` and
      `parts` resolved under the root of `base`. */
  function Join(base: string, parts: seq<string>): string
  {
    var (root, rest) := RootOf(base);
    Format(root, Resolve(root != Relative, Split(rest) + SplitAll(parts)))
  }

  /** Joining under a URL keeps its `scheme://host`; under any root, no `..`
      survives, and on a relative path `..` segments only lead. */
  lemma JoinShape(base: string, parts: seq<string>)
    ensures IsUrl(base) ==>
              && RootOf(base).0.Prefix?
              && var p := RootOf(base).0.text;
              && |p| > 0 && base[..|p|] == p
              && |p| < |Join(base, parts)| && Join(base, parts)[..|p| + 1] == p + "/"
    ensures Collapsed(RootOf(base).0 != Relative, Resolve(RootOf(base).0 != Relative, Split(RootOf(base).1) + SplitAll(parts)))
  {
    var (root, rest) := RootOf(base);
    var segs := Resolve(root != Relative, Split(rest) + SplitAll(parts));
    ResolveCollapses(root != Relative, Split(rest) + SplitAll(parts));
    if IsUrl(base) {
      var p := root.text;
      assert Join(base, parts) == p + "/" + JoinWith(segs, "/");
      assert Join(base, parts)[..|p| + 1] == p + "/";
    }
  }

  /** A path segment with no separator that is neither empty, `.` nor `..`. */
  predicate Plain(w: string)
  {
    w != "" && w != "." && w != ".." && forall k :: 0 <= k < |w| ==> !IsSeparator(w[k])
  }

  lemma {:induction false} SplitPlain(w: string)
    requires forall k :: 0 <= k < |w| ==> !IsSeparator(w[k])
    ensures Split(w) == [w]
  {
    if w != [] {
      SplitPlain(w[1..]);
      assert w == [w[0]] + w[1..];
    }
  }

  lemma {:induction false} SplitAt(a: string, sep: char, b: string)
    requires IsSeparator(sep)
    ensures Split(a + [sep] + b) == Split(a) + Split(b)
    decreases |a|, 1
  {
    if a == [] {
      var x := a + [sep] + b;
      assert x == [sep] + b;
      assert x[1..] == b;
    } else if IsSeparator(a[0]) {
      SplitAtSeparator(a, sep, b);
    } else {
      SplitAtOther(a, sep, b);
    }
  }

  lemma SplitAtSeparator(a: string, sep: char, b: string)
    requires IsSeparator(sep) && a != [] && IsSeparator(a[0])
    ensures Split(a + [sep] + b) == Split(a) + Split(b)
    decreases |a|, 0
  {
    var x := a + [sep] + b;
    assert x[1..] == a[1..] + [sep] + b;
    SplitAt(a[1..], sep, b);
    assert Split(x) == [""] + Split(x[1..]);
  }

  lemma SplitAtOther(a: string, sep: char, b: string)
    requires IsSeparator(sep) && a != [] && !IsSeparator(a[0])
    ensures Split(a + [sep] + b) == Split(a) + Split(b)
    decreases |a|, 0
  {
    var x := a + [sep] + b;
    assert x[0] == a[0] && x[1..] == a[1..] + [sep] + b;
    SplitAt(a[1..], sep, b);
    ConsHead([a[0]], Split(a[1..]), Split(b));
  }

  /** Extending the first element of `s` commutes with appending `t`. */
  lemma ConsHead(c: string, s: seq<string>, t: seq<string>)
    requires |s| > 0
    ensures [c + (s + t)[0]] + (s + t)[1..] == ([c + s[0]] + s[1..]) + t
  {
    assert (s + t)[1..] == s[1..] + t;
  }

  lemma ResolveSnoc(rooted: bool, segs: seq<string>, seg: string)
    ensures Resolve(rooted, segs + [seg]) == Step(rooted, Resolve(rooted, segs), seg)
  {
    assert (segs + [seg])[..|segs|] == segs;
  }

  lemma SplitUp(w: string)
    requires Plain(w)
    ensures Split("../" + w) == ["..", w]
  {
    assert "../" + w == ".." + ['/'] + w;
    SplitAt("..", '/', w);
    SplitPlain("..");
    SplitPlain(w);
  }

  lemma JoinRelativeSegments(a: string, b: string)
    requires Plain(a) && Plain(b)
    ensures RootOf("../" + a) == (Relative, "../" + a)
    ensures Split("../" + a) + SplitAll(["..", "../" + b]) == ["..", a, "..", "..", b]
  {
    assert ("../" + a)[0] == '.';
    SplitUp(a);
    SplitUp(b);
    SplitPlain("..");
    assert SplitAll([".."]) == [".."] by {
      assert [".."][..0] == [];
    }
    assert SplitAll(["..", "../" + b]) == ["..", "..", b] by {
      assert ["..", "../" + b][..1] == [".."];
    }
  }

  lemma ResolveRelativeParent(a: string, b: string)
    requires Plain(a) && Plain(b)
    ensures Resolve(false, ["..", a, "..", "..", b]) == ["..", "..", b]
  {
    assert Resolve(false, [".."]) == [".."] by {
      ResolveSnoc(false, [], "..");
      assert [] + [".."] == [".."];
    }
    assert Resolve(false, ["..", a]) == ["..", a] by {
      ResolveSnoc(false, [".."], a);
      assert [".."] + [a] == ["..", a];
    }
    assert Resolve(false, ["..", a, ".."]) == [".."] by {
      ResolveSnoc(false, ["..", a], "..");
      assert ["..", a] + [".."] == ["..", a, ".."];
    }
    assert Resolve(false, ["..", a, "..", ".."]) == ["..", ".."] by {
      ResolveSnoc(false, ["..", a, ".."], "..");
      assert ["..", a, ".."] + [".."] == ["..", a, "..", ".."];
    }
    ResolveSnoc(false, ["..", a, "..", ".."], b);
    assert ["..", a, "..", ".."] + [b] == ["..", a, "..", "..", b];
  }

  lemma DotSiblingSegments(a: string, b: string)
    requires Plain(a) && Plain(b)
    ensures RootOf("./" + a) == (Relative, "./" + a)
    ensures Split("./" + a) + SplitAll(["..", b]) == [".", a, "..", b]
  {
    assert ("./" + a)[0] == '.';
    assert "./" + a == "." + ['/'] + a;
    SplitAt(".", '/', a);
    SplitPlain(".");
    SplitPlain("..");
    SplitPlain(a);
    SplitPlain(b);
    assert SplitAll([".."]) == [".."] by {
      assert [".."][..0] == [];
    }
    assert SplitAll(["..", b]) == ["..", b] by {
      assert ["..", b][..1] == [".."];
    }
  }

  lemma ResolveDotSibling(a: string, b: string)
    requires Plain(a) && Plain(b)
    ensures Resolve(false, [".", a, "..", b]) == [b]
  {
    assert Resolve(false, ["."]) == [] by {
      ResolveSnoc(false, [], ".");
      assert [] + ["."] == ["."];
    }
    assert Resolve(false, [".", a]) == [a] by {
      ResolveSnoc(false, ["."], a);
      assert ["."] + [a] == [".", a];
    }
    assert Resolve(false, [".", a, ".."]) == [] by {
      ResolveSnoc(false, [".", a], "..");
      assert [".", a] + [".."] == [".", a, ".."];
    }
    ResolveSnoc(false, [".", a, ".."], b);
    assert [".", a, ".."] + [b] == [".", a, "..", b];
  }

  /** A file beside a ruleset in the current directory:
      `join('./a', '..', 'b')` is `'b'`. */
  lemma JoinDotSibling(a: string, b: string)
    requires Plain(a) && Plain(b)
    ensures Join("./" + a, ["..", b]) == b
  {
    DotSiblingSegments(a, b);
    ResolveDotSibling(a, b);
  }

  /** Rebasing a sibling of the parent directory onto a relative ruleset path:
      `join('../a', '..', '../b')` is `'../../b'`. */
  lemma JoinRelativeParent(a: string, b: string)
    requires Plain(a) && Plain(b)
    ensures Join("../" + a, ["..", "../" + b]) == "../../" + b
  {
    JoinRelativeSegments(a, b);
    ResolveRelativeParent(a, b);
    assert JoinWith(["..", "..", b], "/") == "../../" + b by {
      assert ["..", "..", b][..2] == ["..", ".."];
      assert ["..", ".."][..1] == [".."];
    }
  }

  lemma {:induction false} SchemeLengthOf(scheme: string, rest: string)
    requires forall k :: 0 <= k < |scheme| ==> IsSchemeChar(scheme[k])
    requires rest != [] && !IsSchemeChar(rest[0])
    ensures SchemeLength(scheme + rest) == |scheme|
  {
    if scheme != [] {
      assert (scheme + rest)[1..] == scheme[1..] + rest;
      SchemeLengthOf(scheme[1..], rest);
    }
  }

  lemma {:induction false} SeparatorIndexOf(host: string, rest: string)
    requires forall k :: 0 <= k < |host| ==> !IsSeparator(host[k])
    requires rest != [] && IsSeparator(rest[0])
    ensures SeparatorIndex(host + rest) == |host|
  {
    if host != [] {
      assert (host + rest)[1..] == host[1..] + rest;
      SeparatorIndexOf(host[1..], rest);
    }
  }

  /** `scheme://rest` is a URL whose scheme is exactly `scheme`. */
  lemma UrlScheme(scheme: string, rest: string)
    requires |scheme| > 0 && IsLetter(scheme[0])
    requires forall k :: 0 <= k < |scheme| ==> IsSchemeChar(scheme[k])
    ensures IsUrl(scheme + "://" + rest)
    ensures SchemeLength(scheme + "://" + rest) == |scheme|
    ensures (scheme + "://" + rest)[|scheme| + 3..] == rest
  {
    var s := scheme + "://" + rest;
    assert s == scheme + ("://" + rest);
    SchemeLengthOf(scheme, "://" + rest);
    assert s[|scheme|..|scheme| + 3] == "://";
  }

  /** The host of a URL runs up to the first separator after `://`. */
  lemma HostEndOf(s: string, host: string, tail: string)
    requires IsUrl(s) && s[SchemeLength(s) + 3..] == host + tail
    requires forall k :: 0 <= k < |host| ==> !IsSeparator(host[k])
    requires tail != [] && IsSeparator(tail[0])
    ensures HostEnd(s) == SchemeLength(s) + 3 + |host|
  {
    SeparatorIndexOf(host, tail);
  }

  lemma RootOfUrl(s: string)
    requires IsUrl(s)
    ensures RootOf(s) == (Prefix(s[..HostEnd(s)]), s[HostEnd(s)..])
  {
  }

  lemma SliceAppend(a: string, b: string)
    ensures (a + b)[..|a|] == a && (a + b)[|a|..] == b
  {
  }

  lemma UrlHostEnd(scheme: string, host: string, path: string)
    requires |scheme| > 0 && IsLetter(scheme[0])
    requires forall k :: 0 <= k < |scheme| ==> IsSchemeChar(scheme[k])
    requires forall k :: 0 <= k < |host| ==> !IsSeparator(host[k])
    ensures IsUrl(scheme + "://" + host + "/" + path)
    ensures HostEnd(scheme + "://" + host + "/" + path) == |scheme + "://" + host|
  {
    var s := scheme + "://" + host + "/" + path;
    assert s == scheme + "://" + (host + ("/" + path));
    UrlScheme(scheme, host + ("/" + path));
    HostEndOf(s, host, "/" + path);
  }

  /** A URL's root is its `scheme://host`, and the rest is its path. */
  lemma UrlRoot(scheme: string, host: string, path: string)
    requires |scheme| > 0 && IsLetter(scheme[0])
    requires forall k :: 0 <= k < |scheme| ==> IsSchemeChar(scheme[k])
    requires forall k :: 0 <= k < |host| ==> !IsSeparator(host[k])
    ensures IsUrl(scheme + "://" + host + "/" + path)
    ensures RootOf(scheme + "://" + host + "/" + path) == (Prefix(scheme + "://" + host), "/" + path)
  {
    UrlHostEnd(scheme, host, path);
    var prefix := scheme + "://" + host;
    var s := scheme + "://" + host + "/" + path;
    assert s == prefix + ("/" + path);
    RootOfUrl(s);
    SliceAppend(prefix, "/" + path);
  }

  lemma SplitAllUp(w: string)
    requires Plain(w)
    ensures SplitAll(["..", "../" + w]) == ["..", "..", w]
  {
    SplitUp(w);
    SplitPlain("..");
    assert SplitAll([".."]) == [".."] by {
      assert [".."][..0] == [];
    }
    assert ["..", "../" + w][..1] == [".."];
  }

  lemma ResolveUrlDown(d: string, f: string)
    requires Plain(d) && Plain(f)
    ensures Resolve(true, ["", d, f]) == [d, f]
  {
    assert Resolve(true, [""]) == [] by {
      ResolveSnoc(true, [], "");
      assert [] + [""] == [""];
    }
    assert Resolve(true, ["", d]) == [d] by {
      ResolveSnoc(true, [""], d);
      assert [""] + [d] == ["", d];
    }
    ResolveSnoc(true, ["", d], f);
    assert ["", d] + [f] == ["", d, f];
  }

  lemma ResolveUrlParent(d: string, f: string, g: string)
    requires Plain(d) && Plain(f) && Plain(g)
    ensures Resolve(true, ["", d, f, "..", "..", g]) == [g]
  {
    ResolveUrlDown(d, f);
    assert Resolve(true, ["", d, f, ".."]) == [d] by {
      ResolveSnoc(true, ["", d, f], "..");
      assert ["", d, f] + [".."] == ["", d, f, ".."];
    }
    assert Resolve(true, ["", d, f, "..", ".."]) == [] by {
      ResolveSnoc(true, ["", d, f, ".."], "..");
      assert ["", d, f, ".."] + [".."] == ["", d, f, "..", ".."];
    }
    ResolveSnoc(true, ["", d, f, "..", ".."], g);
    assert ["", d, f, "..", ".."] + [g] == ["", d, f, "..", "..", g];
  }


  lemma SplitRootedPath(d: string, f: string)
    requires Plain(d) && Plain(f)
    ensures Split("/" + (d + "/" + f)) == ["", d, f]
  {
    assert "/" + (d + "/" + f) == [] + ['/'] + (d + ['/'] + f);
    SplitAt([], '/', d + ['/'] + f);
    SplitAt(d, '/', f);
    SplitPlain(d);
    SplitPlain(f);
    assert Split([]) == [""];
  }

  /** Rebasing onto a URL keeps its root `scheme://host`:
      `join('https://host/d/f', '..', '../g')` is `'https://host/g'`. */
  lemma JoinUrlParent(base: string, root: string, d: string, f: string, g: string)
    requires RootOf(base) == (Prefix(root), "/" + (d + "/" + f))
    requires Plain(d) && Plain(f) && Plain(g)
    ensures Join(base, ["..", "../" + g]) == root + "/" + g
  {
    SplitRootedPath(d, f);
    SplitAllUp(g);
    assert ["", d, f] + ["..", "..", g] == ["", d, f, "..", "..", g];
    ResolveUrlParent(d, f, g);
    assert JoinWith([g], "/") == g;
  }
}
