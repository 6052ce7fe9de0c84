/** Lexical POSIX path arithmetic: the part of Python's `os.path` (module
    posixpath) that the path converters of the plugin are built from.
    Paths are strings; no file system is consulted. */
module PosixPath {
  import opened Common

  const Sep: char := '/'
  const CurDir: string := "."
  const ParDir: string := ".."

  /** The message of the `ValueError` relpath raises on an empty path. */
  const NoPathSpecified: string := "no path specified"

  /** `os.path.isabs`: a POSIX path is absolute when it starts with a slash. */
  predicate IsAbs(p: string) {
    |p| > 0 && p[0] == Sep
  }

  /** An absolute path, such as the process's working directory. */
  type AbsPath = p: string | IsAbs(p) witness "/"

  /** A proper path component: not empty, not `.`, not `..`, no slash. */
  predicate IsName(c: string) {
    c != "" && c != CurDir && c != ParDir && Sep !in c
  }

  predicate AllNames(cs: seq<string>) {
    forall i :: 0 <= i < |cs| ==> IsName(cs[i])
  }

  predicate NoSep(cs: seq<string>) {
    forall i :: 0 <= i < |cs| ==> Sep !in cs[i]
  }

  // ---------------------------------------------------------------------------
  // Splitting and joining on '/'

  /** `s.split('/')`: the pieces between slashes, empty pieces included. */
  function Split(s: string): (parts: seq<string>)
    ensures |parts| >= 1
    ensures NoSep(parts)
    decreases |s|
  {
    if s == [] then [""]
    else if s[0] == Sep then [""] + Split(s[1..])
    else
      var rest := Split(s[1..]);
      [[s[0]] + rest[0]] + rest[1..]
  }

  /** `'/'.join(parts)`. */
  function SepJoin(parts: seq<string>): string
    decreases |parts|
  {
    if parts == [] then ""
    else if |parts| == 1 then parts[0]
    else parts[0] + [Sep] + SepJoin(parts[1..])
  }

  /** The pieces that are not empty, in order. */
  function DropEmpty(parts: seq<string>): (r: seq<string>)
    ensures forall i :: 0 <= i < |r| ==> r[i] != ""
    ensures NoSep(parts) ==> NoSep(r)
    ensures |r| <= |parts|
    decreases |parts|
  {
    if parts == [] then []
    else (if parts[0] == "" then [] else [parts[0]]) + DropEmpty(parts[1..])
  }

  /** `[x for x in s.split('/') if x]`: the non-empty components of `s`. */
  function Components(s: string): (cs: seq<string>)
    ensures forall i :: 0 <= i < |cs| ==> cs[i] != "" && Sep !in cs[i]
  {
    DropEmpty(Split(s))
  }

  /** `os.path.join(a, b)` on POSIX: an absolute `b` replaces `a`; otherwise a
      slash is inserted unless `a` is empty or already ends with one. */
  function Join(a: string, b: string): string {
    if IsAbs(b) then b
    else if a == "" || a[|a| - 1] == Sep then a + b
    else a + [Sep] + b
  }

  // ---------------------------------------------------------------------------
  // normpath / abspath

  /** One turn of `normpath`'s loop over the components of an absolute path:
      empty and `.` components vanish, `..` drops the last kept component (and
      is itself dropped at the root), anything else is kept. */
  function Step(acc: seq<string>, c: string): seq<string> {
    if c == "" || c == CurDir then acc
    else if c == ParDir then (if acc == [] then [] else acc[..|acc| - 1])
    else acc + [c]
  }

  /** `normpath`'s loop, run from the kept components `acc` over `cs`. */
  function Fold(acc: seq<string>, cs: seq<string>): (r: seq<string>)
    ensures AllNames(acc) && NoSep(cs) ==> AllNames(r)
    decreases |cs|
  {
    if cs == [] then acc else Fold(Step(acc, cs[0]), cs[1..])
  }

  /** The components of `join(cwd, p)` (of `p` itself when it is absolute):
      the path `abspath` normalizes. */
  function AbsComponents(p: string, cwd: string): seq<string> {
    Components(if IsAbs(p) then p else Join(cwd, p))
  }

  /** `[x for x in abspath(p).split('/') if x]`, the list `relpath` works on:
      `abspath(p)` is `normpath(join(cwd, p))`, and splitting the normalized
      absolute path gives back exactly the components its loop kept.
      `cwd` is the process's working directory, which the OS keeps absolute. */
  function Resolve(p: string, cwd: string): (r: seq<string>)
    requires IsAbs(cwd)
    ensures AllNames(r)
  {
    Fold([], AbsComponents(p, cwd))
  }

  // ---------------------------------------------------------------------------
  // relpath

  /** The length of the longest common prefix of `a` and `b`
      (`len(commonprefix([a, b]))`). */
  function CommonPrefixLen(a: seq<string>, b: seq<string>): (n: nat)
    ensures n <= |a| && n <= |b|
    ensures a[..n] == b[..n]
    ensures n == |a| || n == |b| || a[n] != b[n]
    decreases |a|
  {
    if a == [] || b == [] || a[0] != b[0] then 0
    else 1 + CommonPrefixLen(a[1..], b[1..])
  }

  /** `[pardir] * k`. */
  function Parents(k: nat): (r: seq<string>)
    ensures |r| == k && forall i :: 0 <= i < k ==> r[i] == ParDir
  {
    seq(k, _ => ParDir)
  }

  /** The pieces of `relpath(path, start)`: strip the common prefix of the
      two resolved component lists, climb with one `..` per leftover component
      of `start`, then descend into the rest of `path`. */
  function RelParts(path: string, start: string, cwd: string): (rel: seq<string>)
    requires IsAbs(cwd)
    ensures forall j :: 0 <= j < |rel| ==> rel[j] == ParDir || IsName(rel[j])
    ensures rel == [] <==> Resolve(path, cwd) == Resolve(start, cwd)
  {
    var s := Resolve(start, cwd);
    var p := Resolve(path, cwd);
    var i := CommonPrefixLen(s, p);
    var rel := Parents(|s| - i) + p[i..];
    assert rel == [] ==> s == s[..i] && p == p[..i];
    rel
  }

  /** `os.path.relpath(path, start)`: the relative pieces joined with '/', or
      `.` when there are none. An empty `path` raises ValueError. The final
      `join(*rel_list)` of non-empty, slash-free pieces is `'/'.join(rel_list)`. */
  function RelPath(path: string, start: string, cwd: string): (r: Result<string>)
    requires IsAbs(cwd)
    ensures r.Err? <==> path == ""
  {
    if path == "" then Err(NoPathSpecified)
    else
      var rel := RelParts(path, start, cwd);
      Ok(if rel == [] then CurDir else SepJoin(rel))
  }

  /** A normalized relative path with at least one component, such as
      `guide.md` or `api/overview.md`: no leading, trailing or doubled slash,
      no `.` and no `..`. */
  predicate IsNormalRelative(p: string) {
    var cs := Components(p);
    cs != [] && AllNames(cs) && p == SepJoin(cs)
  }

  // ---------------------------------------------------------------------------
  // Lemmas: splitting and joining

  lemma {:induction false} SplitConcat(a: string, b: string)
    ensures Split(a + [Sep] + b) == Split(a) + Split(b)
    decreases |a|
  {
    var s := a + [Sep] + b;
    if a == [] {
      assert s == [Sep] + b && s[1..] == b;
    } else {
      assert s[0] == a[0] && s[1..] == a[1..] + [Sep] + b;
      SplitConcat(a[1..], b);
    }
  }

  lemma {:induction false} SplitNoSep(x: string)
    requires Sep !in x
    ensures Split(x) == [x]
    decreases |x|
  {
    if x != [] {
      SplitNoSep(x[1..]);
      assert [x[0]] + x[1..] == x;
    }
  }

  /** Joining with '/' and splitting again returns the pieces. */
  lemma {:induction false} SplitSepJoin(parts: seq<string>)
    requires |parts| >= 1 && NoSep(parts)
    ensures Split(SepJoin(parts)) == parts
    decreases |parts|
  {
    if |parts| == 1 {
      SplitNoSep(parts[0]);
    } else {
      SplitSepJoin(parts[1..]);
      SplitConcat(parts[0], SepJoin(parts[1..]));
      SplitNoSep(parts[0]);
      assert parts == [parts[0]] + parts[1..];
    }
  }

  lemma SepJoinPrepend(c: char, parts: seq<string>)
    requires |parts| >= 1
    ensures SepJoin([[c] + parts[0]] + parts[1..]) == [c] + SepJoin(parts)
  {
    var h, rest := [c] + parts[0], parts[1..];
    var q := [h] + rest;
    assert q[0] == h && q[1..] == rest;
    if rest != [] {
      var t := SepJoin(rest);
      assert SepJoin(q) == h + [Sep] + t;
      assert SepJoin(parts) == parts[0] + [Sep] + t;
      ConcatAssoc([c], parts[0], [Sep] + t);
      ConcatAssoc(h, [Sep], t);
      ConcatAssoc(parts[0], [Sep], t);
    }
  }

  /** Splitting on '/' and joining again returns the string. */
  lemma {:induction false} SepJoinSplit(s: string)
    ensures SepJoin(Split(s)) == s
    decreases |s|
  {
    if s != [] {
      SepJoinSplit(s[1..]);
      if s[0] == Sep {
        var q := [""] + Split(s[1..]);
        assert q[0] == "" && q[1..] == Split(s[1..]);
        assert s == [Sep] + s[1..];
      } else {
        SepJoinPrepend(s[0], Split(s[1..]));
        assert s == [s[0]] + s[1..];
      }
    }
  }

  lemma {:induction false} SepJoinConcat(xs: seq<string>, ys: seq<string>)
    requires xs != [] && ys != []
    ensures SepJoin(xs + ys) == SepJoin(xs) + [Sep] + SepJoin(ys)
    decreases |xs|
  {
    if |xs| == 1 {
      assert (xs + ys)[0] == xs[0] && (xs + ys)[1..] == ys;
    } else {
      SepJoinConcat(xs[1..], ys);
      assert (xs + ys)[0] == xs[0] && (xs + ys)[1..] == xs[1..] + ys;
    }
  }

  /** A '/'-join whose first piece is a non-empty, slash-free component is
      non-empty and relative. */
  lemma {:induction false} SepJoinRelative(parts: seq<string>)
    requires parts != [] && parts[0] != "" && Sep !in parts[0]
    ensures SepJoin(parts) != "" && !IsAbs(SepJoin(parts))
    ensures SepJoin(parts)[0] == parts[0][0]
  {
    if |parts| > 1 {
      assert (parts[0] + [Sep] + SepJoin(parts[1..]))[0] == parts[0][0];
    }
    assert parts[0][0] in parts[0];
  }

  lemma {:induction false} DropEmptyConcat(xs: seq<string>, ys: seq<string>)
    ensures DropEmpty(xs + ys) == DropEmpty(xs) + DropEmpty(ys)
    decreases |xs|
  {
    if xs != [] {
      var head := if xs[0] == "" then [] else [xs[0]];
      assert (xs + ys)[0] == xs[0] && (xs + ys)[1..] == xs[1..] + ys;
      DropEmptyConcat(xs[1..], ys);
      calc {
        DropEmpty(xs + ys);
        head + DropEmpty(xs[1..] + ys);
        head + (DropEmpty(xs[1..]) + DropEmpty(ys));
        (head + DropEmpty(xs[1..])) + DropEmpty(ys);
      }
    } else {
      assert xs + ys == ys;
    }
  }

  lemma {:induction false} DropEmptyNonEmpty(xs: seq<string>)
    requires forall i :: 0 <= i < |xs| ==> xs[i] != ""
    ensures DropEmpty(xs) == xs
    decreases |xs|
  {
    if xs != [] {
      DropEmptyNonEmpty(xs[1..]);
      assert xs == [xs[0]] + xs[1..];
    }
  }

  lemma ComponentsConcat(a: string, b: string)
    ensures Components(a + [Sep] + b) == Components(a) + Components(b)
  {
    SplitConcat(a, b);
    DropEmptyConcat(Split(a), Split(b));
  }

  /** The components of `join(a, b)` for a relative `b` are those of `a`
      followed by those of `b`. */
  lemma ComponentsOfJoin(a: string, b: string)
    requires !IsAbs(b)
    ensures Components(Join(a, b)) == Components(a) + Components(b)
  {
    if a == "" {
      assert Join(a, b) == b;
      assert Components("") == [];
    } else if a[|a| - 1] == Sep {
      var a' := a[..|a| - 1];
      assert a == a' + [Sep] + "";
      assert Join(a, b) == a' + [Sep] + b;
      ComponentsConcat(a', b);
      ComponentsConcat(a', "");
      assert Components("") == [];
    } else {
      ComponentsConcat(a, b);
    }
  }

  /** A relative `b` keeps `join(a, b)` absolute exactly when `a` is. */
  lemma JoinAbs(a: string, b: string)
    requires !IsAbs(b)
    ensures IsAbs(Join(a, b)) <==> IsAbs(a)
  {
    if a != "" {
      assert Join(a, b)[0] == a[0];
    }
  }

  /** A relative path over `a` resolves from the components of `a`. */
  lemma AbsComponentsOfJoin(a: string, b: string, cwd: string)
    requires !IsAbs(b)
    ensures AbsComponents(Join(a, b), cwd) == AbsComponents(a, cwd) + Components(b)
  {
    var ab := Join(a, b);
    JoinAbs(a, b);
    ComponentsOfJoin(a, b);
    if IsAbs(a) {
      assert AbsComponents(ab, cwd) == Components(ab);
    } else {
      AbsComponentsRelative(a, b, cwd);
    }
  }

  lemma AbsComponentsRelative(a: string, b: string, cwd: string)
    requires !IsAbs(a) && !IsAbs(b) && !IsAbs(Join(a, b))
    requires Components(Join(a, b)) == Components(a) + Components(b)
    ensures AbsComponents(Join(a, b), cwd) == AbsComponents(a, cwd) + Components(b)
  {
    var ab := Join(a, b);
    assert AbsComponents(ab, cwd) == Components(Join(cwd, ab));
    assert AbsComponents(a, cwd) == Components(Join(cwd, a));
    ComponentsOfJoin(cwd, ab);
    ComponentsOfJoin(cwd, a);
    ConcatAssoc(Components(cwd), Components(a), Components(b));
  }

  /** A single proper name is a normalized relative path. */
  lemma NameIsNormalRelative(c: string)
    requires IsName(c)
    ensures IsNormalRelative(c) && Components(c) == [c]
  {
    SplitNoSep(c);
    assert DropEmpty([c]) == [c];
  }

  /** A normalized relative path is not absolute, and its components join
      back to it. */
  lemma NormalRelativeIsRelative(p: string)
    requires IsNormalRelative(p)
    ensures p != "" && !IsAbs(p)
  {
    SepJoinRelative(Components(p));
  }

  // ---------------------------------------------------------------------------
  // Lemmas: the normpath fold

  lemma {:induction false} FoldConcat(acc: seq<string>, xs: seq<string>, ys: seq<string>)
    ensures Fold(acc, xs + ys) == Fold(Fold(acc, xs), ys)
    decreases |xs|
  {
    if xs != [] {
      assert xs + ys != [] && (xs + ys)[0] == xs[0] && (xs + ys)[1..] == xs[1..] + ys;
      FoldConcat(Step(acc, xs[0]), xs[1..], ys);
    } else {
      assert xs + ys == ys;
    }
  }

  /** Proper names are kept as they are. */
  lemma {:induction false} FoldNames(acc: seq<string>, xs: seq<string>)
    requires AllNames(xs)
    ensures Fold(acc, xs) == acc + xs
    decreases |xs|
  {
    if xs != [] {
      FoldNames(acc + [xs[0]], xs[1..]);
      assert acc + [xs[0]] + xs[1..] == acc + xs;
    }
  }

  /** Each `..` climbs one level. */
  lemma {:induction false} FoldParents(acc: seq<string>, k: nat)
    requires k <= |acc|
    ensures Fold(acc, Parents(k)) == acc[..|acc| - k]
    decreases k
  {
    if k > 0 {
      var up := acc[..|acc| - 1];
      assert Parents(k)[0] == ParDir;
      assert Parents(k)[1..] == Parents(k - 1);
      FoldParents(up, k - 1);
      assert up[..|up| - (k - 1)] == acc[..|acc| - k];
    }
  }

  lemma FoldCurDir(acc: seq<string>)
    ensures Fold(acc, [CurDir]) == acc
  {
    assert [CurDir][1..] == [];
  }

  /** Resolving `join(a, b)` for a normalized relative `b` appends the
      components of `b` to the resolution of `a`. */
  lemma ResolveJoinNormal(a: string, b: string, cwd: string)
    requires IsAbs(cwd) && IsNormalRelative(b)
    ensures Resolve(Join(a, b), cwd) == Resolve(a, cwd) + Components(b)
  {
    NormalRelativeIsRelative(b);
    AbsComponentsOfJoin(a, b, cwd);
    FoldConcat([], AbsComponents(a, cwd), Components(b));
    FoldNames(Resolve(a, cwd), Components(b));
  }

  // ---------------------------------------------------------------------------
  // Lemmas: relpath

  /** The shape of `relpath`'s result: a relative, non-empty path that is `.`
      exactly when both sides resolve to the same place; otherwise its pieces
      are the relative pieces (one `..` per component of `start` beyond the
      common prefix, then the rest of `path`), none of them empty or `.`. */
  lemma RelPathShape(path: string, start: string, cwd: string)
    requires IsAbs(cwd) && path != ""
    ensures var r := RelPath(path, start, cwd).value;
            && r != "" && !IsAbs(r)
            && (r == CurDir <==> Resolve(path, cwd) == Resolve(start, cwd))
            && (r != CurDir ==>
                  && Split(r) == RelParts(path, start, cwd)
                  && forall j :: 0 <= j < |Split(r)| ==> Split(r)[j] != "" && Split(r)[j] != CurDir)
  {
    var rel := RelParts(path, start, cwd);
    if rel != [] {
      var r := SepJoin(rel);
      assert NoSep(rel);
      SplitSepJoin(rel);
      SepJoinRelative(rel);
      if r == CurDir {
        SplitNoSep(CurDir);
        assert false;
      }
    }
  }

  /** The relative pieces of `relpath` name `path` from `start`: climbing and
      descending from the resolution of `start` arrives at that of `path`. */
  lemma RelPartsResolve(path: string, start: string, cwd: string)
    requires IsAbs(cwd)
    ensures Fold(Resolve(start, cwd), RelParts(path, start, cwd)) == Resolve(path, cwd)
  {
    var s := Resolve(start, cwd);
    var p := Resolve(path, cwd);
    var i := CommonPrefixLen(s, p);
    assert RelParts(path, start, cwd) == Parents(|s| - i) + p[i..];
    assert AllNames(p[i..]);
    FoldClimbDescend(s, p, i);
  }

  /** From `s`, climbing back to the first `i` components and descending
      along the names of `p` past them arrives at `p`, when `s` and `p` share
      those `i` components. */
  lemma FoldClimbDescend(s: seq<string>, p: seq<string>, i: nat)
    requires i <= |s| && i <= |p| && s[..i] == p[..i] && AllNames(p[i..])
    ensures Fold(s, Parents(|s| - i) + p[i..]) == p
  {
    FoldConcat(s, Parents(|s| - i), p[i..]);
    FoldClimb(s, i);
    FoldDescend(s, p, i);
  }

  lemma FoldClimb(s: seq<string>, i: nat)
    requires i <= |s|
    ensures Fold(s, Parents(|s| - i)) == s[..i]
  {
    FoldParents(s, |s| - i);
    assert s[..|s| - (|s| - i)] == s[..i];
  }

  lemma FoldDescend(s: seq<string>, p: seq<string>, i: nat)
    requires i <= |s| && i <= |p| && s[..i] == p[..i] && AllNames(p[i..])
    ensures Fold(s[..i], p[i..]) == p
  {
    FoldNames(s[..i], p[i..]);
    assert s[..i] + p[i..] == p[..i] + p[i..] == p;
  }

  /** The components of a `relpath` result are its relative pieces, or the
      single `.` when there are none. */
  lemma RelPathComponents(path: string, start: string, cwd: string)
    requires IsAbs(cwd) && path != ""
    ensures var rel := RelParts(path, start, cwd);
            Components(RelPath(path, start, cwd).value) == if rel == [] then [CurDir] else rel
  {
    var rel := RelParts(path, start, cwd);
    var r := RelPath(path, start, cwd).value;
    if rel == [] {
      SplitNoSep(CurDir);
      assert Components(r) == DropEmpty([CurDir]);
    } else {
      assert NoSep(rel);
      SplitSepJoin(rel);
      DropEmptyNonEmpty(rel);
    }
  }

  /** Joining `start` with `relpath(path, start)` names the same place as
      `path` does. */
  lemma RelPathResolves(path: string, start: string, cwd: string)
    requires IsAbs(cwd) && path != ""
    ensures Resolve(Join(start, RelPath(path, start, cwd).value), cwd) == Resolve(path, cwd)
  {
    var s := Resolve(start, cwd);
    var rel := RelParts(path, start, cwd);
    var r := RelPath(path, start, cwd).value;
    RelPathShape(path, start, cwd);
    AbsComponentsOfJoin(start, r, cwd);
    FoldConcat([], AbsComponents(start, cwd), Components(r));
    assert Resolve(Join(start, r), cwd) == Fold(s, Components(r));
    RelPathComponents(path, start, cwd);
    if rel == [] {
      FoldCurDir(s);
    } else {
      RelPartsResolve(path, start, cwd);
    }
  }

  /** `relpath` against a prefix of the target keeps only the remainder. */
  lemma RelPathBelow(path: string, start: string, cwd: string)
    requires IsAbs(cwd) && path != ""
    requires var s := Resolve(start, cwd); var p := Resolve(path, cwd);
             |s| < |p| && p[..|s|] == s
    ensures RelPath(path, start, cwd)
         == Ok(SepJoin(Resolve(path, cwd)[|Resolve(start, cwd)|..]))
  {
    var s := Resolve(start, cwd);
    var p := Resolve(path, cwd);
    var i := CommonPrefixLen(s, p);
    assert i == |s|;
    assert Parents(|s| - i) + p[i..] == p[|s|..];
  }

  /** `relpath` sees its target only through its resolution. */
  lemma RelPathSameTarget(x: string, y: string, start: string, cwd: string)
    requires IsAbs(cwd) && x != "" && y != ""
    requires Resolve(x, cwd) == Resolve(y, cwd)
    ensures RelPath(x, start, cwd) == RelPath(y, start, cwd)
  {
  }

  /** Descending from `a` into a normalized relative `q` and taking the
      result relative to `a` again gives `q`. */
  lemma RelPathOfJoin(a: string, q: string, cwd: string)
    requires IsAbs(cwd) && IsNormalRelative(q)
    ensures RelPath(Join(a, q), a, cwd) == Ok(q)
  {
    NormalRelativeIsRelative(q);
    JoinAbs(a, q);
    assert Join(a, q) != "" by {
      if a == "" { assert Join(a, q) == q; }
    }
    ResolveJoinNormal(a, q, cwd);
    var an := Resolve(a, cwd);
    var cs := Components(q);
    assert (an + cs)[..|an|] == an;
    RelPathBelow(Join(a, q), a, cwd);
    assert (an + cs)[|an|..] == cs;
  }

  /** Two normalized relative paths joined by a slash form another. */
  lemma NormalRelativeConcat(x: string, y: string)
    requires IsNormalRelative(x) && IsNormalRelative(y)
    ensures Components(x + [Sep] + y) == Components(x) + Components(y)
    ensures IsNormalRelative(x + [Sep] + y)
  {
    ComponentsConcat(x, y);
    SepJoinConcat(Components(x), Components(y));
  }

  lemma JoinNonEmpty(a: string, q: string)
    requires IsNormalRelative(q)
    ensures Join(a, q) != ""
  {
    NormalRelativeIsRelative(q);
    if a == "" { assert Join(a, q) == q; }
  }

  /** Round trip through two frames: for a normalized relative `p`, taking
      `join(a, p)` relative to `b`, then joining the result to `b` and taking
      it relative to `a`, gives `p` back, wherever `a` and `b` lie. */
  lemma RelPathRoundTrip(p: string, a: string, b: string, cwd: string)
    requires IsAbs(cwd) && IsNormalRelative(p)
    ensures Join(a, p) != ""
    ensures var r := RelPath(Join(a, p), b, cwd);
            r.Ok? && RelPath(Join(b, r.value), a, cwd) == Ok(p)
  {
    NormalRelativeIsRelative(p);
    JoinAbs(a, p);
    assert Join(a, p) != "" by {
      if a == "" { assert Join(a, p) == p; }
    }
    var r := RelPath(Join(a, p), b, cwd).value;
    RelPathShape(Join(a, p), b, cwd);
    JoinAbs(b, r);
    assert Join(b, r) != "" by {
      if b == "" { assert Join(b, r) == r; }
    }
    RelPathResolves(Join(a, p), b, cwd);
    ResolveJoinNormal(a, p, cwd);
    var an := Resolve(a, cwd);
    var cs := Components(p);
    assert Resolve(Join(b, r), cwd) == an + cs;
    assert (an + cs)[..|an|] == an;
    RelPathBelow(Join(b, r), a, cwd);
    assert (an + cs)[|an|..] == cs;
  }
}
