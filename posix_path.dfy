/**
 * The POSIX flavour of Node's `path` module as server.js uses it:
 * `normalize`, `join`, `basename` with and without a suffix, and the
 * string tests `startsWith` / `endsWith`.
 *
 * Node's `normalizeString` scans the path once, keeping a stack of kept
 * segments; it is modelled here segment by segment: `Split` cuts at `/`,
 * `Push` is the effect of one segment on the stack, `Assemble` puts the
 * leading and trailing separators back. Only `/` is a separator; `\` is an
 * ordinary character.
 */
module PosixPath {
  import opened Seqs

  const Sep: char := '/'

  predicate StartsWith(s: string, prefix: string) {
    |prefix| <= |s| && s[..|prefix|] == prefix
  }

  predicate EndsWith(s: string, suffix: string) {
    |suffix| <= |s| && s[|s| - |suffix|..] == suffix
  }

  predicate NoSep(seg: string) {
    forall i :: 0 <= i < |seg| ==> seg[i] != Sep
  }

  predicate AllNoSep(segs: seq<string>) {
    forall i :: 0 <= i < |segs| ==> NoSep(segs[i])
  }

  /** A segment that normalization keeps as it is and that never climbs. */
  predicate Proper(seg: string) {
    seg != "" && seg != "." && seg != ".." && NoSep(seg)
  }

  predicate AllProper(segs: seq<string>) {
    forall i :: 0 <= i < |segs| ==> Proper(segs[i])
  }

  /** `s` cut at every `/`: `Split("") == [""]`, `Split("/a/") == ["", "a", ""]`. */
  function Split(s: string): (segs: seq<string>)
    ensures |segs| >= 1
  {
    if s == [] then [""]
    else
      var rest := Split(s[1..]);
      if s[0] == Sep then [""] + rest
      else [[s[0]] + rest[0]] + rest[1..]
  }

  /** No segment of a split holds a `/`. */
  lemma {:induction false} SplitSegments(s: string)
    ensures AllNoSep(Split(s))
  {
    if s != [] {
      SplitSegments(s[1..]);
      var rest := Split(s[1..]);
      if s[0] != Sep {
        assert NoSep([s[0]] + rest[0]) by {
          assert NoSep(rest[0]);
        }
        assert forall i :: 1 <= i < |Split(s)| ==> Split(s)[i] == rest[i];
      }
    }
  }

  /** The segments glued back together with `/` between them. */
  function JoinSegs(segs: seq<string>): string
  {
    if segs == [] then ""
    else if |segs| == 1 then segs[0]
    else segs[0] + [Sep] + JoinSegs(segs[1..])
  }

  lemma {:induction false} SplitNoSep(s: string)
    requires NoSep(s)
    ensures Split(s) == [s]
  {
    if s != [] {
      SplitNoSep(s[1..]);
      assert [s[0]] + s[1..] == s;
    }
  }

  lemma {:induction false} SplitConcat(a: string, b: string)
    ensures Split(a + [Sep] + b) == Split(a) + Split(b)
  {
    if a == [] {
      assert a + [Sep] + b == [Sep] + b;
      assert ([Sep] + b)[1..] == b;
    } else {
      assert (a + [Sep] + b)[1..] == a[1..] + [Sep] + b;
      SplitConcat(a[1..], b);
    }
  }

  /** Splitting undoes joining. */
  lemma {:induction false} JoinSplit(s: string)
    ensures JoinSegs(Split(s)) == s
  {
    if s != [] {
      JoinSplit(s[1..]);
      var rest := Split(s[1..]);
      if s[0] != Sep && |rest| > 1 {
        assert JoinSegs(rest) == rest[0] + [Sep] + JoinSegs(rest[1..]);
      }
    }
  }

  /** Joining undoes splitting, for segments that contain no `/`. */
  lemma {:induction false} SplitJoin(segs: seq<string>)
    requires |segs| >= 1 && AllNoSep(segs)
    ensures Split(JoinSegs(segs)) == segs
  {
    SplitNoSep(segs[0]);
    if |segs| > 1 {
      SplitJoin(segs[1..]);
      SplitConcat(segs[0], JoinSegs(segs[1..]));
    }
  }

  lemma {:induction false} JoinConcat(a: seq<string>, b: seq<string>)
    requires a != [] && b != []
    ensures JoinSegs(a + b) == JoinSegs(a) + [Sep] + JoinSegs(b)
  {
    if |a| > 1 {
      assert (a + b)[1..] == a[1..] + b;
      JoinConcat(a[1..], b);
    }
  }

  // ---------------------------------------------------------------------
  // normalize

  /**
   * The effect of one segment on the stack of kept segments: empty and `.`
   * segments vanish; `..` removes the last kept segment unless there is none
   * or it is itself `..`, in which case a relative path keeps the `..` and an
   * absolute one drops it; any other segment is kept.
   */
  function Push(stack: seq<string>, seg: string, aboveRoot: bool): seq<string>
  {
    if seg == "" || seg == "." then stack
    else if seg == ".." then
      if |stack| > 0 && stack[|stack| - 1] != ".." then stack[..|stack| - 1]
      else if aboveRoot then stack + [".."]
      else stack
    else stack + [seg]
  }

  function ResolveFrom(stack: seq<string>, segs: seq<string>, aboveRoot: bool): seq<string>
    decreases |segs|
  {
    if segs == [] then stack
    else ResolveFrom(Push(stack, segs[0], aboveRoot), segs[1..], aboveRoot)
  }

  function Resolve(segs: seq<string>, aboveRoot: bool): seq<string>
  {
    ResolveFrom([], segs, aboveRoot)
  }

  /**
   * The shape of a resolved stack: no empty or `.` segments, no `/` inside a
   * segment, `..` only as a leading run, and no `..` at all for an absolute path.
   */
  predicate Canonical(segs: seq<string>, aboveRoot: bool) {
    && (forall i :: 0 <= i < |segs| ==> segs[i] != "" && segs[i] != "." && NoSep(segs[i]))
    && (forall i, j :: 0 <= i < j < |segs| && segs[j] == ".." ==> segs[i] == "..")
    && (!aboveRoot ==> forall i :: 0 <= i < |segs| ==> segs[i] != "..")
  }

  /** Puts back the leading `/` of an absolute path and a trailing `/`. */
  function Assemble(absolute: bool, segs: seq<string>, trailing: bool): string
  {
    if segs == [] then (if absolute then "/" else if trailing then "./" else ".")
    else
      var body := if absolute then "/" + JoinSegs(segs) else JoinSegs(segs);
      if trailing then body + "/" else body
  }

  /** `path.posix.normalize(p)`. */
  function Normalize(p: string): (r: string)
    ensures p != [] && p[0] == Sep ==> r != [] && r[0] == Sep
    ensures p != [] && p[|p| - 1] == Sep ==> r != [] && r[|r| - 1] == Sep
  {
    if p == [] then "."
    else Assemble(p[0] == Sep, Resolve(Split(p), p[0] != Sep), p[|p| - 1] == Sep)
  }

  /** `path.posix.join(a, b)`: the non-empty arguments joined by `/`, then normalized. */
  function Join(a: string, b: string): (r: string)
    ensures a != [] && a[0] == Sep ==> r != [] && r[0] == Sep
  {
    if a == [] && b == [] then "."
    else Normalize(if a == [] then b else if b == [] then a else a + [Sep] + b)
  }

  lemma {:induction false} PushCanonical(stack: seq<string>, seg: string, aboveRoot: bool)
    requires Canonical(stack, aboveRoot) && NoSep(seg)
    ensures Canonical(Push(stack, seg, aboveRoot), aboveRoot)
  {
    var r := Push(stack, seg, aboveRoot);
    if seg == ".." && !(|stack| > 0 && stack[|stack| - 1] != "..") && aboveRoot {
      assert r == stack + [".."];
      forall i | 0 <= i < |r| ensures r[i] == ".." {
        if i < |stack| && i != |stack| - 1 {
          assert stack[|stack| - 1] == "..";
        }
      }
    }
  }

  lemma {:induction false} ResolveFromCanonical(stack: seq<string>, segs: seq<string>, aboveRoot: bool)
    requires Canonical(stack, aboveRoot) && AllNoSep(segs)
    ensures Canonical(ResolveFrom(stack, segs, aboveRoot), aboveRoot)
    decreases |segs|
  {
    if segs != [] {
      PushCanonical(stack, segs[0], aboveRoot);
      ResolveFromCanonical(Push(stack, segs[0], aboveRoot), segs[1..], aboveRoot);
    }
  }

  /**
   * What normalize produces: `.`, `./` or `/`, or the canonical segments with
   * the input's leading and trailing `/` kept; an absolute result never holds `..`.
   */
  lemma NormalizeShape(p: string)
    ensures var r := Normalize(p);
      var abs := p != [] && p[0] == Sep;
      var segs := if p == [] then [] else Resolve(Split(p), !abs);
      && Canonical(segs, !abs)
      && r == Assemble(abs, segs, p != [] && p[|p| - 1] == Sep)
      && r != ""
  {
    if p != [] {
      SplitSegments(p);
      ResolveFromCanonical([], Split(p), p[0] != Sep);
    }
  }

  /** Resolving segments that are all kept as they are just appends them. */
  lemma {:induction false} ResolveProper(stack: seq<string>, segs: seq<string>, aboveRoot: bool)
    requires AllProper(segs)
    ensures ResolveFrom(stack, segs, aboveRoot) == stack + segs
    decreases |segs|
  {
    if segs != [] {
      ResolveProper(stack + [segs[0]], segs[1..], aboveRoot);
      assert stack + [segs[0]] + segs[1..] == stack + segs;
    }
  }

  lemma {:induction false} ResolveFromAppend(stack: seq<string>, segs: seq<string>, last: string, aboveRoot: bool)
    ensures ResolveFrom(stack, segs + [last], aboveRoot) == Push(ResolveFrom(stack, segs, aboveRoot), last, aboveRoot)
    decreases |segs|
  {
    if segs == [] {
      assert segs + [last] == [last];
    } else {
      assert (segs + [last])[1..] == segs[1..] + [last];
      ResolveFromAppend(Push(stack, segs[0], aboveRoot), segs[1..], last, aboveRoot);
    }
  }

  /** A `..` at the bottom of a relative stack is never removed again. */
  lemma {:induction false} LeadingParentPersists(stack: seq<string>, segs: seq<string>)
    requires |stack| > 0 && stack[0] == ".."
    ensures var r := ResolveFrom(stack, segs, true); |r| > 0 && r[0] == ".."
    decreases |segs|
  {
    if segs != [] {
      LeadingParentPersists(Push(stack, segs[0], true), segs[1..]);
    }
  }

  /**
   * Below a stack of proper segments, a relative tail that never climbs above
   * its own start resolves exactly as it would on its own.
   */
  lemma {:induction false} ResolveBelow(base: seq<string>, stack: seq<string>, segs: seq<string>, aboveRoot: bool)
    requires |base| > 0 && AllProper(base)
    requires forall i :: 0 <= i < |stack| ==> stack[i] != ".."
    requires forall i :: 0 <= i < |ResolveFrom(stack, segs, true)| ==> ResolveFrom(stack, segs, true)[i] != ".."
    ensures ResolveFrom(base + stack, segs, aboveRoot) == base + ResolveFrom(stack, segs, true)
    decreases |segs|
  {
    if segs != [] {
      var seg := segs[0];
      var next := Push(stack, seg, true);
      assert ResolveFrom(stack, segs, true) == ResolveFrom(next, segs[1..], true);
      if seg == ".." && stack == [] {
        LeadingParentPersists(next, segs[1..]);
        assert false;
      }
      assert Push(base + stack, seg, aboveRoot) == base + next by {
        if seg == ".." {
          assert (base + stack)[..|base + stack| - 1] == base + stack[..|stack| - 1];
        } else if seg != "" && seg != "." {
          assert base + stack + [seg] == base + (stack + [seg]);
        }
      }
      forall i | 0 <= i < |next| ensures next[i] != ".." {
        if seg != ".." && seg != "" && seg != "." && i == |stack| {
          assert next[i] == seg;
        }
      }
      ResolveBelow(base, next, segs[1..], aboveRoot);
    }
  }

  /** An absolute path made of proper segments is already normalized. */
  lemma AbsoluteNormalized(base: seq<string>)
    requires |base| > 0 && AllProper(base)
    ensures Split("/" + JoinSegs(base)) == [""] + base
    ensures Normalize("/" + JoinSegs(base)) == "/" + JoinSegs(base)
  {
    var j := JoinSegs(base);
    var p := "/" + j;
    SplitJoin(base);
    SplitConcat("", j);
    assert "" + [Sep] + j == p;
    var segs := [""] + base;
    assert Split(p) == segs;
    assert ResolveFrom([], segs, false) == ResolveFrom([], base, false) by {
      assert segs[1..] == base;
    }
    ResolveProper([], base, false);
    LastOfJoin(base);
    assert p[0] == Sep && p[|p| - 1] != Sep;
    assert Resolve(Split(p), false) == base;
    assert Normalize(p) == Assemble(true, base, false);
  }

  /** The last character of a join is the last character of its last segment. */
  lemma {:induction false} LastOfJoin(segs: seq<string>)
    requires |segs| > 0 && segs[|segs| - 1] != ""
    ensures var j := JoinSegs(segs); |j| > 0 && j[|j| - 1] == segs[|segs| - 1][|segs[|segs| - 1]| - 1]
  {
    if |segs| > 1 {
      LastOfJoin(segs[1..]);
    }
  }

  /** A root followed by more segments lies within the root. */
  lemma ExtendRoot(root: seq<string>, r: seq<string>)
    requires |root| > 0
    ensures var base := "/" + JoinSegs(root);
      var p := "/" + JoinSegs(root + r);
      && Within(base, p)
      && (r == [] ==> p == base)
      && (r != [] ==> p == base + "/" + JoinSegs(r))
  {
    var base := "/" + JoinSegs(root);
    var p := "/" + JoinSegs(root + r);
    if r == [] {
      assert root + r == root;
    } else {
      JoinConcat(root, r);
      assert p == base + [Sep] + JoinSegs(r);
      assert p[..|base| + 1] == base + [Sep];
    }
  }

  /** A trailing `/` keeps a path within a root. */
  lemma WithinTrailing(root: string, p: string)
    requires Within(root, p)
    ensures Within(root, p + "/")
  {
    var q := p + "/";
    if p == root {
      assert q[..|root| + 1] == root + [Sep];
    } else {
      assert q[..|root| + 1] == p[..|root| + 1];
    }
  }

  /** Resolving `rel` on its own never climbs above its start: no `..` survives. */
  predicate NeverClimbs(rel: string) {
    forall i :: 0 <= i < |Resolve(Split(rel), true)| ==> Resolve(Split(rel), true)[i] != ".."
  }

  /**
   * Joining a path onto an absolute normalized root: as long as the path's
   * own resolution never climbs (`..` never reaches the bottom), the result
   * is the root followed by that resolution, so it stays under the root.
   */
  lemma JoinBelowRoot(base: seq<string>, rel: string)
    requires |base| > 0 && AllProper(base)
    requires NeverClimbs(rel)
    ensures var j := Join("/" + JoinSegs(base), rel);
      var p := "/" + JoinSegs(base + Resolve(Split(rel), true));
      && (rel != [] && rel[|rel| - 1] == Sep ==> j == p + "/")
      && (rel == [] || rel[|rel| - 1] != Sep ==> j == p)
  {
    AbsoluteNormalized(base);
    var root := "/" + JoinSegs(base);
    var r := Resolve(Split(rel), true);
    if rel == [] {
      assert Split(rel) == [""];
      assert [""][1..] == [];
      assert r == ResolveFrom(Push([], "", true), [], true) == [];
      assert base + r == base;
      assert Join(root, rel) == Normalize(root);
    } else {
      var joined := root + [Sep] + rel;
      SplitConcat(root, rel);
      var segs := [""] + base + Split(rel);
      assert Split(joined) == segs;
      ResolveAbsolute(base, Split(rel));
      ResolveBelow(base, [], Split(rel), false);
      assert base + [] == base;
      assert Resolve(Split(joined), false) == base + r;
      assert joined[0] == Sep;
      assert joined[|joined| - 1] == rel[|rel| - 1];
      assert Join(root, rel) == Normalize(joined);
      assert Normalize(joined) == Assemble(true, base + r, rel[|rel| - 1] == Sep);
    }
  }

  /** An absolute path: the empty segment before the first `/` is dropped, proper segments are kept. */
  lemma ResolveAbsolute(base: seq<string>, tail: seq<string>)
    requires AllProper(base)
    ensures ResolveFrom([], [""] + base + tail, false) == ResolveFrom(base, tail, false)
  {
    var segs := [""] + base + tail;
    assert segs[0] == "" && segs[1..] == base + tail;
    assert ResolveFrom([], segs, false) == ResolveFrom(Push([], "", false), base + tail, false);
    assert Push([], "", false) == [];
    ResolveFromSplit([], base, tail, false);
    ResolveProper([], base, false);
    assert [] + base == base;
  }

  /**
   * Joining a path that does not end in `/` onto an absolute normalized root
   * resolves the path's segments on top of the root's.
   */
  lemma JoinOntoRoot(base: seq<string>, rel: string)
    requires |base| > 0 && AllProper(base)
    requires rel != [] && rel[|rel| - 1] != Sep
    ensures Join("/" + JoinSegs(base), rel) == Assemble(true, ResolveFrom(base, Split(rel), false), false)
  {
    AbsoluteNormalized(base);
    var root := "/" + JoinSegs(base);
    var joined := root + [Sep] + rel;
    SplitConcat(root, rel);
    assert Split(joined) == [""] + base + Split(rel);
    ResolveAbsolute(base, Split(rel));
    assert joined[0] == Sep;
    assert joined[|joined| - 1] == rel[|rel| - 1];
    assert Join(root, rel) == Normalize(joined);
  }

  lemma {:induction false} ResolveFromSplit(stack: seq<string>, a: seq<string>, b: seq<string>, aboveRoot: bool)
    ensures ResolveFrom(stack, a + b, aboveRoot) == ResolveFrom(ResolveFrom(stack, a, aboveRoot), b, aboveRoot)
    decreases |a|
  {
    if a == [] {
      assert a + b == b;
    } else {
      assert (a + b)[1..] == a[1..] + b;
      ResolveFromSplit(Push(stack, a[0], aboveRoot), a[1..], b, aboveRoot);
    }
  }

  // ---------------------------------------------------------------------
  // basename

  /** Every character of `x` is `/`. */
  predicate AllSep(x: string) {
    forall i :: 0 <= i < |x| ==> x[i] == Sep
  }

  /** `p` without its trailing run of `/`. */
  function TrimTrailingSep(p: string): (r: string)
    ensures r == [] || r[|r| - 1] != Sep
  {
    if p == [] || p[|p| - 1] != Sep then p else TrimTrailingSep(p[..|p| - 1])
  }

  /** What `TrimTrailingSep` drops is a run of `/` at the end: the result is a prefix. */
  lemma {:induction false} TrimTrailingSepCuts(p: string)
    ensures var r := TrimTrailingSep(p); StartsWith(p, r) && AllSep(p[|r|..])
  {
    if p == [] || p[|p| - 1] != Sep {
      assert p[|p|..] == [];
    } else {
      TrimTrailingSepCuts(p[..|p| - 1]);
      TrimSepStep(p, TrimTrailingSep(p[..|p| - 1]));
    }
  }

  lemma TrimSepStep(p: string, r: string)
    requires p != [] && p[|p| - 1] == Sep
    requires StartsWith(p[..|p| - 1], r) && AllSep(p[..|p| - 1][|r|..])
    ensures StartsWith(p, r) && AllSep(p[|r|..])
  {
    var t := p[..|p| - 1];
    assert t[..|r|] == p[..|r|];
    assert p[|r|..] == t[|r|..] + [p[|p| - 1]];
  }

  function LastSegment(p: string): string
  {
    Split(p)[|Split(p)| - 1]
  }

  /** `path.posix.basename(p)`: the last segment once trailing `/` are dropped. */
  function Basename(p: string): string
  {
    LastSegment(TrimTrailingSep(p))
  }

  /**
   * `path.posix.basename(p, ext)` for a non-empty `ext` and a `p` that does not
   * end in `/`: the whole of `p` equal to `ext` gives `""`; otherwise the last
   * segment loses a trailing exact-case `ext` unless that is all it holds.
   */
  function BasenameExt(p: string, ext: string): string
    requires ext != []
    requires p == [] || p[|p| - 1] != Sep
  {
    if p == ext then ""
    else
      var c := Basename(p);
      if EndsWith(c, ext) && c != ext then c[..|c| - |ext|] else c
  }

  /** What `BasenameExt` returns holds no `/`. */
  lemma BasenameExtNoSep(p: string, ext: string)
    requires ext != []
    requires p == [] || p[|p| - 1] != Sep
    ensures NoSep(BasenameExt(p, ext))
  {
    assert TrimTrailingSep(p) == p;
    LastSegmentSuffix(p);
    var c := Basename(p);
    if EndsWith(c, ext) && c != ext {
      var k := |c| - |ext|;
      assert forall i :: 0 <= i < k ==> c[..k][i] == c[i];
    }
  }

  /** The last segment is a suffix of the path and holds no `/`. */
  lemma {:induction false} LastSegmentSuffix(p: string)
    ensures NoSep(LastSegment(p)) && EndsWith(p, LastSegment(p))
    ensures |LastSegment(p)| < |p| ==> p[|p| - |LastSegment(p)| - 1] == Sep
  {
    JoinSplit(p);
    SplitSegments(p);
    var segs := Split(p);
    assert NoSep(segs[|segs| - 1]);
    if |segs| > 1 {
      LastOfJoinSuffix(segs);
    }
  }

  lemma {:induction false} LastOfJoinSuffix(segs: seq<string>)
    requires |segs| > 1
    ensures var j := JoinSegs(segs); var last := segs[|segs| - 1];
      |last| < |j| && j[|j| - |last|..] == last && j[|j| - |last| - 1] == Sep
  {
    if |segs| > 2 {
      LastOfJoinSuffix(segs[1..]);
    }
  }

  /** A path that does not end in `/` has its last segment as its basename. */
  lemma BasenameOfSplit(p: string, segs: seq<string>)
    requires p != [] && p[|p| - 1] != Sep && Split(p) == segs
    ensures Basename(p) == segs[|segs| - 1]
  {
    assert TrimTrailingSep(p) == p;
  }

  /** The basename of a join of segments is its last segment. */
  lemma BasenameOfJoin(segs: seq<string>)
    requires |segs| > 0 && AllNoSep(segs) && segs[|segs| - 1] != ""
    ensures Basename(JoinSegs(segs)) == segs[|segs| - 1]
  {
    var last := segs[|segs| - 1];
    LastOfJoin(segs);
    assert last[|last| - 1] != Sep;
    SplitJoin(segs);
    BasenameOfSplit(JoinSegs(segs), segs);
  }

  lemma JoinPair(a: string, b: string)
    ensures JoinSegs([a, b]) == a + [Sep] + b
  {
    assert [a, b][1..] == [b];
  }

  lemma LastOfConcat(a: string, b: string)
    requires b != []
    ensures |a + b| > 0 && (a + b)[|a + b| - 1] == b[|b| - 1]
  {
  }

  /** What follows the last `/` of a path names it, whatever comes before. */
  lemma BasenameAfterSep(x: string, p: string)
    requires p != [] && p[|p| - 1] != Sep
    ensures Basename(x + "/" + p) == LastSegment(p)
  {
    var q := x + [Sep] + p;
    SplitConcat(x, p);
    LastOfConcat(x + [Sep], p);
    BasenameOfSplit(q, Split(x) + Split(p));
  }

  /** A path whose last segment is not empty does not end in `/`. */
  lemma EndsInLastSegment(p: string)
    requires LastSegment(p) != ""
    ensures p != [] && p[|p| - 1] != Sep
  {
    LastSegmentSuffix(p);
    var last := LastSegment(p);
    assert p[|p| - 1] == last[|last| - 1];
  }

  // ---------------------------------------------------------------------
  // confinement

  /** `p` is `root` itself or lies under it, segment-wise. */
  predicate Within(root: string, p: string) {
    p == root || StartsWith(p, root + [Sep])
  }

  /** A path within an absolute root carries the root's segments as its first segments. */
  lemma WithinSegments(root: seq<string>, p: string)
    requires |root| > 0 && AllProper(root)
    requires Within("/" + JoinSegs(root), p)
    ensures |Split(p)| > |root| && Split(p)[..|root| + 1] == [""] + root
  {
    var r := "/" + JoinSegs(root);
    AbsoluteNormalized(root);
    if p != r {
      var rest := p[|r| + 1..];
      assert p == r + [Sep] + rest;
      SplitConcat(r, rest);
      assert Split(p)[..|root| + 1] == ([""] + root + Split(rest))[..|root| + 1];
    }
  }

  lemma PrefixCancel(p: string, a: string, b: string)
    ensures StartsWith(p + a, p + b) <==> StartsWith(a, b)
  {
    if StartsWith(p + a, p + b) {
      assert (p + a)[..|p + b|] == p + a[..|b|];
      assert a[..|b|] == (p + a)[|p|..|p + b|];
    }
    if StartsWith(a, b) {
      assert (p + a)[..|p + b|] == p + a[..|b|];
    }
  }

  /** Lying within a root implies starting with its string. */
  lemma WithinStartsWith(root: string, p: string)
    requires Within(root, p)
    ensures StartsWith(p, root)
  {
    if p != root {
      assert p[..|root| + 1][..|root|] == p[..|root|];
    }
  }

  /** `/` followed by the segments `d` and a `/` after them, when there are any. */
  function DirPrefix(d: seq<string>): string
  {
    if d == [] then "/" else "/" + JoinSegs(d) + "/"
  }

  lemma RootedConcat(d: seq<string>, tail: seq<string>)
    requires tail != []
    ensures "/" + JoinSegs(d + tail) == DirPrefix(d) + JoinSegs(tail)
  {
    if d == [] {
      assert d + tail == tail;
    } else {
      JoinConcat(d, tail);
    }
  }

  /**
   * Two absolute paths with the same parent `d`: the one ending in `tail`
   * starts with the string of the one ending in `c` exactly when the joined
   * `tail` starts with `c`, and lies within it exactly when the joined `tail`
   * is `c` or starts with `c/`.
   */
  lemma WithinSibling(d: seq<string>, c: string, tail: seq<string>)
    requires tail != []
    ensures var base := "/" + JoinSegs(d + [c]);
      var full := "/" + JoinSegs(d + tail);
      var t := JoinSegs(tail);
      && (StartsWith(full, base) <==> StartsWith(t, c))
      && (Within(base, full) <==> t == c || StartsWith(t, c + "/"))
  {
    var pre := DirPrefix(d);
    var t := JoinSegs(tail);
    RootedConcat(d, [c]);
    RootedConcat(d, tail);
    assert JoinSegs([c]) == c;
    PrefixCancel(pre, t, c);
    PrefixCancel(pre, t, c + "/");
    assert pre + c + "/" == pre + (c + "/");
    if pre + t == pre + c {
      assert t == (pre + t)[|pre|..];
    }
  }

  /** Joining `../rest` onto the root `d + [c]` replaces its last segment `c` by `rest`. */
  lemma JoinClimb(d: seq<string>, c: string, rest: seq<string>, name: string)
    requires AllProper(d) && Proper(c) && rest != [] && AllProper(rest)
    requires name != [] && name[|name| - 1] != Sep && Split(name) == [".."] + rest
    ensures Join("/" + JoinSegs(d + [c]), name) == "/" + JoinSegs(d + rest)
  {
    var root := d + [c];
    assert AllProper(root);
    JoinOntoRoot(root, name);
    ClimbThenResolve(d, c, rest);
  }

  lemma ClimbThenResolve(d: seq<string>, c: string, rest: seq<string>)
    requires Proper(c) && AllProper(rest)
    ensures ResolveFrom(d + [c], [".."] + rest, false) == d + rest
  {
    var root := d + [c];
    var segs := [".."] + rest;
    assert root[..|root| - 1] == d;
    assert Push(root, segs[0], false) == d;
    assert segs[1..] == rest;
    ResolveProper(d, rest, false);
  }

  /** One segment joined onto an absolute normalized root is pushed onto the root's segments. */
  lemma JoinOne(root: seq<string>, c: string)
    requires |root| > 0 && AllProper(root) && c != [] && NoSep(c)
    ensures Join("/" + JoinSegs(root), c) == Assemble(true, Push(root, c, false), false)
  {
    JoinOntoRoot(root, c);
    SplitNoSep(c);
    assert ResolveFrom(root, [c], false) == ResolveFrom(Push(root, c, false), [], false);
  }

  /** A proper segment is pushed as it is. */
  lemma PushProper(stack: seq<string>, c: string, aboveRoot: bool)
    requires Proper(c)
    ensures Push(stack, c, aboveRoot) == stack + [c]
  {
  }

  /**
   * One name joined onto an absolute path: the path's segments are resolved,
   * then the name is pushed on top.
   */
  lemma JoinName(a: string, c: string)
    requires a != [] && a[0] == Sep && c != [] && NoSep(c)
    ensures Join(a, c) == Assemble(true, Push(Resolve(Split(a), false), c, false), false)
  {
    var p := a + [Sep] + c;
    var sa := Split(a);
    SplitConcat(a, c);
    SplitNoSep(c);
    ResolveFromAppend([], sa, c, false);
    assert Split(p) == sa + [c];
    assert p[0] == Sep && p[|p| - 1] == c[|c| - 1] != Sep;
  }

  /** `..` joined onto an absolute normalized root gives its parent, which is shorter. */
  lemma JoinParent(root: seq<string>, c: string)
    requires |root| > 0 && AllProper(root) && c == ".."
    ensures var j := Join("/" + JoinSegs(root), c);
      j == Assemble(true, root[..|root| - 1], false) && |j| < |"/" + JoinSegs(root)|
  {
    JoinOne(root, c);
    assert Proper(root[|root| - 1]);
    PopProper(root, c);
    ParentShorter(root);
  }

  lemma PopProper(root: seq<string>, c: string)
    requires |root| > 0 && Proper(root[|root| - 1]) && c == ".."
    ensures Push(root, c, false) == root[..|root| - 1]
  {
  }

  /** Dropping the last segment of a non-empty absolute path shortens it. */
  lemma ParentShorter(root: seq<string>)
    requires |root| > 0 && root[|root| - 1] != ""
    ensures |Assemble(true, root[..|root| - 1], false)| < |"/" + JoinSegs(root)|
  {
    var up := root[..|root| - 1];
    if up == [] {
      assert |root| == 1;
    } else {
      assert root == up + [root[|root| - 1]];
      JoinConcat(up, [root[|root| - 1]]);
    }
  }

  /** A proper segment joined onto an absolute normalized root is appended to it. */
  lemma JoinChild(root: seq<string>, c: string)
    requires |root| > 0 && AllProper(root) && Proper(c)
    ensures Join("/" + JoinSegs(root), c) == "/" + JoinSegs(root) + "/" + c
  {
    JoinOne(root, c);
    PushProper(root, c, false);
    JoinConcat(root, [c]);
    assert JoinSegs([c]) == c;
    Assoc("/", JoinSegs(root) + [Sep], c);
    Assoc("/", JoinSegs(root), [Sep]);
  }

  /** `.` joined onto an absolute normalized root is the root. */
  lemma JoinDot(root: seq<string>, c: string)
    requires |root| > 0 && AllProper(root) && c == "."
    ensures Join("/" + JoinSegs(root), c) == "/" + JoinSegs(root)
  {
    JoinOne(root, c);
    assert Push(root, c, false) == root;
  }

  /**
   * Joining one segment onto an absolute normalized root: the empty segment
   * and `.` leave the root, `..` gives its parent, any other name a child.
   * Only `..` leaves the root.
   */
  lemma JoinSegment(root: seq<string>, c: string)
    requires |root| > 0 && AllProper(root) && NoSep(c)
    ensures var j := Join("/" + JoinSegs(root), c);
      && (c == "" || c == "." ==> j == "/" + JoinSegs(root))
      && (c == ".." ==> j == Assemble(true, root[..|root| - 1], false))
      && (Proper(c) ==> j == "/" + JoinSegs(root) + "/" + c)
      && (Within("/" + JoinSegs(root), j) <==> c != "..")
  {
    var r := "/" + JoinSegs(root);
    var j := Join(r, c);
    if c == "" {
      AbsoluteNormalized(root);
      assert j == Normalize(r);
    } else if c == "." {
      JoinDot(root, c);
    } else if c == ".." {
      JoinParent(root, c);
    } else {
      JoinChild(root, c);
      assert j[..|r| + 1] == r + [Sep];
    }
  }
}
