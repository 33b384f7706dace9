/**
 * POSIX `path.join` and `path.resolve` for an absolute starting directory, and the
 * guard both HLS handlers put on their result: `filePath.startsWith(base)`, a plain
 * string-prefix test on the resolved media directory.
 */
module NodePath {
  import opened JsStrings

  /** A segment that survives normalisation. */
  predicate IsName(s: string) {
    s != "" && s != "." && s != ".."
  }

  predicate AllNames(segs: seq<string>) {
    forall i :: 0 <= i < |segs| ==> IsName(segs[i])
  }

  /** A directory as `path.resolve` returns it: absolute, at least one segment,
      every segment a name without `/`. */
  predicate IsResolvedDir(dir: seq<string>) {
    && dir != []
    && AllNames(dir)
    && forall i :: 0 <= i < |dir| ==> Free(dir[i], Char('/'))
  }

  /** The segment walk of `path.normalize` on an absolute path: empty and "."
      segments vanish, ".." removes the segment before it (and nothing at the
      root), every other segment is kept. */
  function Collapse(acc: seq<string>, segs: seq<string>): (r: seq<string>)
    requires AllNames(acc)
    ensures AllNames(r)
    decreases |segs|
  {
    if segs == [] then acc
    else if segs[0] == "" || segs[0] == "." then Collapse(acc, segs[1..])
    else if segs[0] == ".." then Collapse(if acc == [] then [] else acc[..|acc| - 1], segs[1..])
    else Collapse(acc + [segs[0]], segs[1..])
  }

  /** "/" followed by the segments joined with "/" (the root alone is "/"). */
  function Absolute(segs: seq<string>): string {
    "/" + Join(segs, '/')
  }

  /** `path.normalize(p)` for an absolute `p`; a trailing "/" is kept. */
  function Normalize(p: string): string
    requires p != [] && p[0] == '/'
  {
    var segs := Collapse([], Split(p[1..], Char('/')));
    if segs == [] then "/"
    else Absolute(segs) + (if p[|p| - 1] == '/' then "/" else "")
  }

  /** The arguments `dir`, `a`, `b` glued with "/", empty ones skipped. */
  function Glue(dir: string, a: string, b: string): string {
    dir + (if a == "" then "" else "/" + a) + (if b == "" then "" else "/" + b)
  }

  /** `path.join(dir, a, b)` for an absolute `dir`. */
  function JoinPath(dir: string, a: string, b: string): string
    requires dir != [] && dir[0] == '/'
  {
    Normalize(Glue(dir, a, b))
  }

  /** `path.resolve(dir, a, b)` for an absolute `dir`: the arguments from the last
      absolute one on, normalised, with no trailing "/". */
  function ResolvePath(dir: string, a: string, b: string): string
    requires dir != [] && dir[0] == '/'
  {
    var p :=
      if b != "" && b[0] == '/' then b
      else if a != "" && a[0] == '/' then Glue(a, b, "")
      else Glue(dir, a, b);
    Absolute(Collapse([], Split(p[1..], Char('/'))))
  }

  /** The guard of both handlers: `filePath.startsWith(base)`. */
  predicate InsideBase(filePath: string, base: seq<string>) {
    StartsWith(filePath, Absolute(base))
  }

  /** No segment of `s` is "..". */
  predicate NoParentStep(s: string) {
    forall i :: 0 <= i < |Split(s, Char('/'))| ==> Split(s, Char('/'))[i] != ".."
  }

  // ------------------------------------------------------------------ lemmas

  lemma SplitOfFree(s: string, d: Delimiter)
    requires Free(s, d)
    ensures Split(s, d) == [s]
  {
    SplitFreePrefix(s, "", d);
    assert s + "" == s;
  }

  /** Segments that are already names are taken over one by one. */
  lemma {:induction false} CollapseNames(x: seq<string>, names: seq<string>, segs: seq<string>)
    requires AllNames(x) && AllNames(names)
    ensures Collapse(x, names + segs) == Collapse(x + names, segs)
    decreases |names|
  {
    if names == [] {
      assert names + segs == segs && x + names == x;
    } else {
      var all := names + segs;
      assert all[0] == names[0] && all[1..] == names[1..] + segs;
      CollapseNames(x + [names[0]], names[1..], segs);
      assert x + [names[0]] + names[1..] == x + names;
    }
  }

  /** Without a ".." nothing already collected is removed. */
  lemma {:induction false} CollapseKeepsPrefix(acc: seq<string>, segs: seq<string>)
    requires AllNames(acc)
    requires forall i :: 0 <= i < |segs| ==> segs[i] != ".."
    ensures acc <= Collapse(acc, segs)
    decreases |segs|
  {
    if segs != [] {
      if segs[0] == "" || segs[0] == "." {
        CollapseKeepsPrefix(acc, segs[1..]);
      } else {
        CollapseKeepsPrefix(acc + [segs[0]], segs[1..]);
      }
    }
  }

  /** A longer list of segments names a path below the shorter one's path. */
  lemma AbsoluteExtends(a: seq<string>, b: seq<string>)
    requires a != [] && a <= b
    ensures StartsWith(Absolute(b), Absolute(a))
  {
    if |b| > |a| {
      var rest := b[|a|..];
      assert b == a + rest;
      JoinConcat(a, rest, '/');
      var x := Absolute(a);
      assert Absolute(b) == x + (['/'] + Join(rest, '/'));
      assert (x + (['/'] + Join(rest, '/')))[..|x|] == x;
    } else {
      assert b == a;
    }
  }

  /** The segments of `dir/a/b`, before collapsing. */
  lemma SegmentsOfGlue(base: seq<string>, a: string, b: string)
    requires IsResolvedDir(base) && a != "" && b != ""
    ensures Glue(Absolute(base), a, b)[1..] == Join(base, '/') + ['/'] + a + ['/'] + b
    ensures Split(Glue(Absolute(base), a, b)[1..], Char('/'))
         == base + Split(a, Char('/')) + Split(b, Char('/'))
  {
    var j := Join(base, '/');
    assert Glue(Absolute(base), a, b) == ['/'] + (j + ['/'] + a + ['/'] + b);
    SplitAtDelimiter(j + ['/'] + a, '/', b, Char('/'));
    SplitAtDelimiter(j, '/', a, Char('/'));
    SplitJoin(base, '/');
  }

  /** Joining names without ".." onto the base collapses to a path under it. */
  lemma CollapseBelowBase(base: seq<string>, a: string, b: string)
    requires IsResolvedDir(base) && a != "" && b != ""
    requires NoParentStep(a) && NoParentStep(b)
    ensures base <= Collapse([], Split(Glue(Absolute(base), a, b)[1..], Char('/')))
  {
    SegmentsOfGlue(base, a, b);
    CollapsePiecesBelowBase(
      base, Split(a, Char('/')), Split(b, Char('/')), Split(Glue(Absolute(base), a, b)[1..], Char('/')));
  }

  lemma CollapsePiecesBelowBase(base: seq<string>, sa: seq<string>, sb: seq<string>, segs: seq<string>)
    requires AllNames(base) && segs == base + sa + sb
    requires forall i :: 0 <= i < |sa| ==> sa[i] != ".."
    requires forall i :: 0 <= i < |sb| ==> sb[i] != ".."
    ensures base <= Collapse([], segs)
  {
    var rest := sa + sb;
    assert segs == base + rest;
    CollapseNames([], base, rest);
    assert [] + base == base;
    forall i | 0 <= i < |rest|
      ensures rest[i] != ".."
    {
      if i < |sa| {
        assert rest[i] == sa[i];
      } else {
        assert rest[i] == sb[i - |sa|];
      }
    }
    CollapseKeepsPrefix(base, rest);
  }

  /** `path.join(base, a, b)` for names with no ".." segment passes the guard. */
  lemma JoinWithoutParentStepPassesGuard(base: seq<string>, a: string, b: string)
    requires IsResolvedDir(base) && a != "" && b != ""
    requires NoParentStep(a) && NoParentStep(b)
    ensures InsideBase(JoinPath(Absolute(base), a, b), base)
  {
    var p := Glue(Absolute(base), a, b);
    var segs := Collapse([], Split(p[1..], Char('/')));
    CollapseBelowBase(base, a, b);
    AbsoluteExtends(base, segs);
  }

  /** `path.resolve(base, a, b)` for relative names with no ".." segment passes
      the guard. */
  lemma ResolveWithoutParentStepPassesGuard(base: seq<string>, a: string, b: string)
    requires IsResolvedDir(base) && a != "" && b != ""
    requires a[0] != '/' && b[0] != '/'
    requires NoParentStep(a) && NoParentStep(b)
    ensures InsideBase(ResolvePath(Absolute(base), a, b), base)
  {
    var p := Glue(Absolute(base), a, b);
    var segs := Collapse([], Split(p[1..], Char('/')));
    CollapseBelowBase(base, a, b);
    AbsoluteExtends(base, segs);
  }

  /** `base/../n` collapses to the base's parent followed by `n`. */
  lemma CollapseParentStep(base: seq<string>, n: string)
    requires IsResolvedDir(base) && IsName(n) && Free(n, Char('/'))
    ensures Collapse([], Split(Glue(Absolute(base), "..", n)[1..], Char('/')))
         == base[..|base| - 1] + [n]
  {
    SegmentsOfGlue(base, "..", n);
    assert Free("..", Char('/'));
    SplitOfFree("..", Char('/'));
    SplitOfFree(n, Char('/'));
    CollapseUpFromBase(base, n, Split(Glue(Absolute(base), "..", n)[1..], Char('/')));
  }

  lemma CollapseUpFromBase(base: seq<string>, n: string, segs: seq<string>)
    requires AllNames(base) && base != [] && IsName(n) && segs == base + [".."] + [n]
    ensures Collapse([], segs) == base[..|base| - 1] + [n]
  {
    assert segs == base + ([".."] + [n]);
    CollapseNames([], base, [".."] + [n]);
    assert [] + base == base;
    CollapseUpThenNames(base, [n]);
  }

  /** After one step up, the guard compares the sibling `n` against the base's
      last segment `last` as strings: `n` passes exactly when it starts with `last`,
      so a sibling directory such as `videos-old` next to `videos` passes. */
  lemma ParentStepGuard(base: seq<string>, n: string, path: string)
    requires IsResolvedDir(base) && IsName(n) && Free(n, Char('/'))
    requires path == Absolute(base[..|base| - 1] + [n])
    ensures InsideBase(path, base) <==> StartsWith(n, base[|base| - 1])
  {
    var pre, last := base[..|base| - 1], base[|base| - 1];
    assert base == pre + [last];
    if pre == [] {
      assert path == "/" + n && Absolute(base) == "/" + last;
      StartsWithCancel("/", n, last);
    } else {
      JoinConcat(pre, [n], '/');
      JoinConcat(pre, [last], '/');
      var x := "/" + Join(pre, '/') + ['/'];
      assert path == x + n && Absolute(base) == x + last;
      StartsWithCancel(x, n, last);
    }
  }

  /** `path.join(base, "..", n)` is the sibling `n` of the base. */
  lemma JoinParentStep(base: seq<string>, n: string)
    requires IsResolvedDir(base) && IsName(n) && Free(n, Char('/'))
    ensures JoinPath(Absolute(base), "..", n) == Absolute(base[..|base| - 1] + [n])
  {
    CollapseParentStep(base, n);
    var p := Glue(Absolute(base), "..", n);
    assert p[|p| - 1] == n[|n| - 1];
  }

  /** `path.resolve(base, "..", n)` is the sibling `n` of the base. */
  lemma ResolveParentStep(base: seq<string>, n: string)
    requires IsResolvedDir(base) && IsName(n) && Free(n, Char('/'))
    ensures ResolvePath(Absolute(base), "..", n) == Absolute(base[..|base| - 1] + [n])
  {
    CollapseParentStep(base, n);
  }

  lemma JoinTwo(a: string, b: string, c: char)
    ensures Join([a, b], c) == a + [c] + b
  {
    var seps := seq(1, _ => c);
    assert seps == [c];
    assert [a, b][1..] == [b] && seps[1..] == [];
    assert Join([a, b], c) == Interleave([a, b], seps);
    assert Interleave([b], []) == b;
    assert Interleave([a, b], seps) == a + [c] + Interleave([b], []);
  }

  /** A prefix without "/" sees only the first segment of a path. */
  lemma StartsWithBeforeSlash(n: string, tail: string, last: string)
    requires Free(last, Char('/'))
    ensures StartsWith(n + "/" + tail, last) <==> StartsWith(n, last)
  {
    var p := n + "/" + tail;
    if |last| <= |n| {
      assert p[..|last|] == n[..|last|];
    } else {
      assert p[|n|] == '/' && last[|n|] != '/';
    }
  }

  /** The segments of `base/../n/tail`, before collapsing. */
  lemma SiblingSegments(base: seq<string>, n: string, tail: string)
    requires IsResolvedDir(base) && IsName(n) && Free(n, Char('/'))
    requires IsName(tail) && Free(tail, Char('/'))
    ensures Split(Glue(Absolute(base), "../" + n, tail)[1..], Char('/')) == base + ["..", n, tail]
  {
    SegmentsOfGlue(base, "../" + n, tail);
    SplitParentThenName(n);
    SplitOfFree(tail, Char('/'));
    AppendParentThenName(base, n, tail);
  }

  lemma SplitParentThenName(n: string)
    requires Free(n, Char('/'))
    ensures Split("../" + n, Char('/')) == ["..", n]
  {
    assert "../" + n == ".." + ['/'] + n;
    SplitAtDelimiter("..", '/', n, Char('/'));
    assert Free("..", Char('/'));
    SplitOfFree("..", Char('/'));
    SplitOfFree(n, Char('/'));
  }

  /** A ".." followed by names drops the last collected segment and keeps the
      names. */
  lemma CollapseUpThenNames(acc: seq<string>, names: seq<string>)
    requires AllNames(acc) && acc != [] && AllNames(names)
    ensures Collapse(acc, [".."] + names) == acc[..|acc| - 1] + names
  {
    assert ([".."] + names)[0] == ".." && ([".."] + names)[1..] == names;
    CollapseNames(acc[..|acc| - 1], names, []);
    assert names + [] == names;
  }

  /** `base/../n/tail` collapses to the base's parent followed by `n` and `tail`. */
  lemma CollapseSiblingFile(base: seq<string>, n: string, tail: string)
    requires IsResolvedDir(base) && IsName(n) && Free(n, Char('/'))
    requires IsName(tail) && Free(tail, Char('/'))
    ensures Collapse([], Split(Glue(Absolute(base), "../" + n, tail)[1..], Char('/')))
         == base[..|base| - 1] + [n, tail]
  {
    SiblingSegments(base, n, tail);
    CollapseNames([], base, ["..", n, tail]);
    assert [] + base == base;
    assert ["..", n, tail] == [".."] + [n, tail];
    CollapseUpThenNames(base, [n, tail]);
  }

  /** `path.resolve(base, "../" + n, tail)` is `tail` inside the sibling `n`. */
  lemma ResolveSiblingFile(base: seq<string>, n: string, tail: string)
    requires IsResolvedDir(base) && IsName(n) && Free(n, Char('/'))
    requires IsName(tail) && Free(tail, Char('/'))
    ensures ResolvePath(Absolute(base), "../" + n, tail) == Absolute(base[..|base| - 1] + [n, tail])
  {
    assert tail[0] != '/';
    CollapseSiblingFile(base, n, tail);
  }

  /** A file inside the sibling `n` passes the guard exactly when `n` starts with
      the base's last segment. */
  lemma SiblingFileGuard(base: seq<string>, n: string, tail: string, path: string)
    requires IsResolvedDir(base) && IsName(n) && Free(n, Char('/'))
    requires path == Absolute(base[..|base| - 1] + [n, tail])
    ensures InsideBase(path, base) <==> StartsWith(n, base[|base| - 1])
  {
    var pre, last := base[..|base| - 1], base[|base| - 1];
    assert base == pre + [last];
    JoinTwo(n, tail, '/');
    assert Join([last], '/') == last;
    var x;
    if pre == [] {
      x := "/";
      assert base[..|base| - 1] + [n, tail] == [n, tail] && base == [last];
      assert path == x + (n + "/" + tail) && Absolute(base) == x + last;
    } else {
      JoinConcat(pre, [n, tail], '/');
      JoinConcat(pre, [last], '/');
      x := "/" + Join(pre, '/') + ['/'];
      assert Join(pre + [n, tail], '/') == Join(pre, '/') + ['/'] + (n + "/" + tail);
      assert path == "/" + (Join(pre, '/') + ['/'] + (n + "/" + tail));
      assert path == x + (n + "/" + tail);
      assert Absolute(base) == "/" + (Join(pre, '/') + ['/'] + last);
      assert Absolute(base) == x + last;
    }
    StartsWithCancel(x, n + "/" + tail, last);
    StartsWithBeforeSlash(n, tail, last);
  }

  // ------------------------------------------------------------------ sequence facts

  // Regroupings of concatenations, kept out of the inductive proofs above so
  // that each proof context stays small.

  lemma AppendParentThenName(base: seq<string>, n: string, tail: string)
    ensures base + ["..", n] + [tail] == base + ["..", n, tail]
  {
  }
}
