/**
 * The `/download?path=...` endpoint of server.js (lines 104-142): the storage
 * root, the path sanitiser, the decision between 400, 404, a plain file and a
 * zipped directory, and the names given to that zip.
 *
 * The filesystem is an input: `kind` says what, if anything, exists at an
 * absolute path. The sanitiser's check is a raw string-prefix test
 * (`full.startsWith(baseDir)`), so it admits sibling directories whose name
 * begins with `uploads`; `SanitizeConfined` is the segment-wise check the
 * endpoint evidently intends.
 */
module Download {
  import opened PosixPath
  import opened Wrappers
  import opened Storage
  import opened Seqs

  // ---------------------------------------------------------------------
  // the sanitiser, server.js:109-112

  predicate IsSlash(c: char) {
    c == '/' || c == '\\'
  }

  /** Every character of `x` is `/` or `\`. */
  predicate AllSlashes(x: string) {
    forall i :: 0 <= i < |x| ==> IsSlash(x[i])
  }

  /** `r` is what is left of `s` after a run of `/` and `\` is cut from its front. */
  predicate CutFront(s: string, r: string) {
    |r| <= |s| && s[|s| - |r|..] == r && AllSlashes(s[..|s| - |r|])
  }

  /** `r` is what is left of `s` after a run of `/` and `\` is cut from its back. */
  predicate CutBack(s: string, r: string) {
    |r| <= |s| && s[..|r|] == r && AllSlashes(s[|r|..])
  }

  /** `s` without its leading run of `/` and `\`. */
  function TrimLeadingSlashes(s: string): (r: string)
    ensures |r| <= |s| && (r == [] || !IsSlash(r[0]))
  {
    if s == [] || !IsSlash(s[0]) then s else TrimLeadingSlashes(s[1..])
  }

  /** What `TrimLeadingSlashes` cuts is a run of separators at the front. */
  lemma {:induction false} TrimLeadingCuts(s: string)
    ensures CutFront(s, TrimLeadingSlashes(s))
  {
    if s == [] || !IsSlash(s[0]) {
      assert s[..0] == [];
    } else {
      TrimLeadingCuts(s[1..]);
      CutFrontStep(s, TrimLeadingSlashes(s[1..]));
    }
  }

  lemma CutFrontStep(s: string, r: string)
    requires s != [] && IsSlash(s[0]) && CutFront(s[1..], r)
    ensures CutFront(s, r)
  {
    var t := s[1..];
    assert t[|t| - |r|..] == s[|s| - |r|..];
    assert s[..|s| - |r|] == [s[0]] + t[..|t| - |r|];
  }

  /** `s` without its trailing run of `/` and `\`. */
  function TrimTrailingSlashes(s: string): (r: string)
    ensures |r| <= |s| && (r == [] || !IsSlash(r[|r| - 1]))
  {
    if s == [] || !IsSlash(s[|s| - 1]) then s else TrimTrailingSlashes(s[..|s| - 1])
  }

  /** What `TrimTrailingSlashes` cuts is a run of separators at the back. */
  lemma {:induction false} TrimTrailingCuts(s: string)
    ensures CutBack(s, TrimTrailingSlashes(s))
  {
    if s == [] || !IsSlash(s[|s| - 1]) {
      assert s[|s|..] == [];
    } else {
      TrimTrailingCuts(s[..|s| - 1]);
      CutBackStep(s, TrimTrailingSlashes(s[..|s| - 1]));
    }
  }

  lemma CutBackStep(s: string, r: string)
    requires s != [] && IsSlash(s[|s| - 1]) && CutBack(s[..|s| - 1], r)
    ensures CutBack(s, r)
  {
    var t := s[..|s| - 1];
    assert t[..|r|] == s[..|r|];
    assert s[|r|..] == t[|r|..] + [s[|s| - 1]];
  }

  /**
   * `.replace(/^([\\/]+)|([\\/]+)$/g, '')`: the leading run of separators is
   * removed, then the trailing run of what is left. The result neither starts
   * nor ends with `/` or `\`, and is what stands between those two runs.
   */
  function StripSlashes(s: string): (r: string)
    ensures r == [] || (!IsSlash(r[0]) && !IsSlash(r[|r| - 1]))
  {
    var t := TrimLeadingSlashes(s);
    TrimTrailingCuts(t);
    TrimTrailingSlashes(t)
  }

  /** What `StripSlashes` keeps stands between the two runs it cuts. */
  lemma StripSlashesFramed(s: string)
    ensures Framed(s, |s| - |TrimLeadingSlashes(s)|, StripSlashes(s))
  {
    var t := TrimLeadingSlashes(s);
    TrimLeadingCuts(s);
    TrimTrailingCuts(t);
    MiddleOf(s, t, TrimTrailingSlashes(t));
  }

  /** `s` is `r` starting at `k`, with nothing but `/` and `\` on either side. */
  predicate Framed(s: string, k: nat, r: string)
  {
    && k + |r| <= |s| && s[k..k + |r|] == r
    && AllSlashes(s[..k]) && AllSlashes(s[k + |r|..])
  }

  /** Cutting a run from the front, then one from the back, leaves `r` framed by slashes in `s`. */
  lemma MiddleOf(s: string, t: string, r: string)
    requires CutFront(s, t) && CutBack(t, r)
    ensures Framed(s, |s| - |t|, r)
  {
    var k := |s| - |t|;
    assert s[k + |r|..] == t[|r|..];
  }

  /** `safe` at server.js:109: the normalized request path with its outer separators stripped. */
  function SafePath(rel: string): string
  {
    StripSlashes(Normalize(rel))
  }

  datatype Check = Rejected | Accepted(safe: string, full: string)

  /** server.js:109-112: sanitise, join onto the root, keep it if it starts with the root string. */
  function Sanitize(base: string, rel: string): (c: Check)
    ensures c.Accepted? ==> c.safe == SafePath(rel) && c.full == Join(base, c.safe) && StartsWith(c.full, base)
  {
    var safe := SafePath(rel);
    var full := Join(base, safe);
    if StartsWith(full, base) then Accepted(safe, full) else Rejected
  }

  /** The sanitiser with the segment-wise check: the full path must be the root or lie under it. */
  function SanitizeConfined(base: string, rel: string): (c: Check)
    ensures c.Accepted? ==> c.safe == SafePath(rel) && c.full == Join(base, c.safe) && Within(base, c.full)
  {
    var safe := SafePath(rel);
    var full := Join(base, safe);
    if Within(base, full) then Accepted(safe, full) else Rejected
  }

  // ---------------------------------------------------------------------
  // the response, server.js:106-137

  /** What the filesystem holds at an absolute path (`existsSync` and `statSync().isDirectory()`). */
  datatype EntryKind = Absent | RegularFile | Directory

  datatype Response =
    | MissingPath                                      // 400 'Missing path query'
    | InvalidPath                                      // 400 'Invalid path'
    | NotFound                                         // 404 'Not found'
    | SendFile(full: string)                           // res.download(full)
    | SendZip(full: string, attachment: string, rootName: string)  // archiver over `full`

  /** The zip of a directory download is named `<basename(safe)>.zip` and roots its entries at `basename(safe)`. */
  function ZipNames(safe: string): (names: (string, string))
    ensures names.0 == names.1 + ".zip"
  {
    var b := Basename(safe);
    (b + ".zip", b)
  }

  /** The zip root is one segment, the tail of `safe` once its trailing `/` are dropped; the attachment adds `.zip`. */
  lemma ZipNamesSuffix(safe: string)
    ensures var names := ZipNames(safe);
      && names.0 == names.1 + ".zip"
      && NoSep(names.1) && EndsWith(TrimTrailingSep(safe), names.1)
  {
    LastSegmentSuffix(TrimTrailingSep(safe));
  }

  /** server.js:113-137: a path that passed the check is answered by what the filesystem holds there. */
  function Serve(safe: string, full: string, kind: string -> EntryKind): (r: Response)
    ensures r == NotFound <==> kind(full) == Absent
    ensures r.SendFile? || r.SendZip? ==> r.full == full
    ensures r.SendZip? ==> kind(full) == Directory && r.attachment == r.rootName + ".zip"
    ensures r != MissingPath && r != InvalidPath
  {
    match kind(full)
    case Absent => NotFound
    case Directory => SendZip(full, ZipNames(safe).0, ZipNames(safe).1)
    case RegularFile => SendFile(full)
  }

  /** The endpoint as written: `query` is `req.query.path`, `None` when absent. */
  function Respond(dirname: string, query: Option<string>, kind: string -> EntryKind): Response
  {
    if query.None? || query.value == "" then MissingPath
    else match Sanitize(BaseDir(dirname), query.value)
      case Rejected => InvalidPath
      case Accepted(safe, full) => Serve(safe, full, kind)
  }

  /** The endpoint with the segment-wise check in place of the string-prefix one. */
  function RespondConfined(dirname: string, query: Option<string>, kind: string -> EntryKind): Response
  {
    if query.None? || query.value == "" then MissingPath
    else match SanitizeConfined(BaseDir(dirname), query.value)
      case Rejected => InvalidPath
      case Accepted(safe, full) => Serve(safe, full, kind)
  }

  /**
   * Whatever the endpoint serves, a file or a zipped directory, exists at a
   * path whose string starts with the storage root's; the confined endpoint
   * serves only paths within the root, segment by segment.
   */
  lemma ServedPaths(dirname: string, query: Option<string>, kind: string -> EntryKind)
    ensures var r := Respond(dirname, query, kind);
      r.SendFile? || r.SendZip? ==> StartsWith(r.full, BaseDir(dirname)) && kind(r.full) != Absent
    ensures var r := RespondConfined(dirname, query, kind);
      r.SendFile? || r.SendZip? ==> Within(BaseDir(dirname), r.full) && kind(r.full) != Absent
  {
  }

  /**
   * The confined endpoint answers exactly as the endpoint as written, except
   * that it may refuse with "Invalid path" where the other serves; it never
   * serves what the other refuses.
   */
  lemma ConfinedRespondNarrows(dirname: string, query: Option<string>, kind: string -> EntryKind)
    ensures var r := RespondConfined(dirname, query, kind);
      r == Respond(dirname, query, kind) || r == InvalidPath
    ensures Respond(dirname, query, kind) == InvalidPath ==> RespondConfined(dirname, query, kind) == InvalidPath
  {
    if query.Some? && query.value != "" {
      ConfinedNarrows(BaseDir(dirname), query.value);
    }
  }

  // ---------------------------------------------------------------------
  // what the sanitiser accepts and rejects

  /**
   * A request whose sanitised path never climbs (no `..` survives resolving
   * it on its own) is accepted by both checks, and resolves to the root
   * followed by that resolution.
   */
  lemma AcceptedBelowRoot(dirname: string, rel: string)
    requires |dirname| > 0 && dirname[0] == Sep
    requires NeverClimbs(SafePath(rel))
    ensures var r := Resolve(Split(SafePath(rel)), true);
      var base := BaseDir(dirname);
      && Sanitize(base, rel) == SanitizeConfined(base, rel)
      && Sanitize(base, rel) == Accepted(SafePath(rel), "/" + JoinSegs(RootSegs(dirname) + r))
      && (r == [] ==> Sanitize(base, rel).full == base)
      && (r != [] ==> Sanitize(base, rel).full == base + "/" + JoinSegs(r))
  {
    BaseDirShape(dirname);
    var root := RootSegs(dirname);
    var safe := SafePath(rel);
    var r := Resolve(Split(safe), true);
    SafeJoin(root, safe);
    ExtendRoot(root, r);
    SanitizeOutcome(BaseDir(dirname), rel, safe, "/" + JoinSegs(root + r));
  }

  /** A path that never climbs and does not end in a separator, joined onto a root, is resolved beneath it. */
  lemma SafeJoin(root: seq<string>, safe: string)
    requires |root| > 0 && AllProper(root) && NeverClimbs(safe)
    requires safe == [] || !IsSlash(safe[|safe| - 1])
    ensures Join("/" + JoinSegs(root), safe) == "/" + JoinSegs(root + Resolve(Split(safe), true))
  {
    JoinBelowRoot(root, safe);
  }

  /** What both checks decide, once the sanitised path and its join onto the root are known. */
  lemma SanitizeOutcome(base: string, rel: string, safe: string, full: string)
    requires SafePath(rel) == safe && Join(base, safe) == full
    ensures Sanitize(base, rel) == if StartsWith(full, base) then Accepted(safe, full) else Rejected
    ensures SanitizeConfined(base, rel) == if Within(base, full) then Accepted(safe, full) else Rejected
    ensures Within(base, full) ==> StartsWith(full, base)
  {
    if Within(base, full) {
      WithinStartsWith(base, full);
    }
  }

  /** A sanitised path of ordinary segments is kept verbatim under the root. */
  lemma AcceptedVerbatim(dirname: string, rel: string)
    requires |dirname| > 0 && dirname[0] == Sep
    requires SafePath(rel) != "" && AllProper(Split(SafePath(rel)))
    ensures Sanitize(BaseDir(dirname), rel) == Accepted(SafePath(rel), BaseDir(dirname) + "/" + SafePath(rel))
  {
    var safe := SafePath(rel);
    ResolveProper([], Split(safe), true);
    assert Resolve(Split(safe), true) == Split(safe);
    JoinSplit(safe);
    var r := Split(safe);
    if r == [] {
    } else {
      assert forall i :: 0 <= i < |r| ==> Proper(r[i]);
    }
    AcceptedBelowRoot(dirname, rel);
  }

  /** The sanitised form of a request path that has no separators at its ends and is already normal. */
  lemma SafePathOfNormal(segs: seq<string>)
    requires |segs| > 0 && AllNoSep(segs) && Canonical(segs, true)
    requires segs[0] != "" && !IsSlash(segs[0][0])
    requires !IsSlash(segs[|segs| - 1][|segs[|segs| - 1]| - 1])
    requires Resolve(segs, true) == segs
    ensures SafePath(JoinSegs(segs)) == JoinSegs(segs)
    ensures Split(JoinSegs(segs)) == segs
  {
    var p := JoinSegs(segs);
    SplitJoin(segs);
    LastOfJoin(segs);
    assert p[0] == segs[0][0] by {
      if |segs| > 1 {
        assert p == segs[0] + [Sep] + JoinSegs(segs[1..]);
      }
    }
    assert Normalize(p) == Assemble(false, segs, false);
    assert TrimLeadingSlashes(p) == p;
    assert TrimTrailingSlashes(p) == p;
  }

  /** `etc/passwd` can never start with `<segment>/uploads`. */
  lemma EtcNotUploads(x: string, e: string, p: string, u: string)
    requires Proper(x) && e == "etc" && p == "passwd" && u == "uploads"
    ensures !StartsWith(e + [Sep] + p, x + [Sep] + u) && !StartsWith(e + [Sep] + p, u)
  {
    var a := e + [Sep] + p;
    var t := x + [Sep] + u;
    assert a == "etc/passwd";
    if |t| <= |a| {
      assert t[|x|] == Sep;
      assert a[|x|] != Sep;
      assert a[..|t|][|x|] != t[|x|];
    }
    assert a[..|u|][0] != u[0];
  }

  /** The parent of a normalized absolute path given by its segments. */
  function Parent(d: seq<string>): seq<string>
  {
    if d == [] then [] else d[..|d| - 1]
  }

  lemma EtcResolves(segs: seq<string>)
    requires segs == ["..", "..", "etc", "passwd"]
    ensures Resolve(segs, true) == segs
  {
    assert Push([], "..", true) == [".."];
    assert Push([".."], "..", true) == ["..", ".."];
    assert segs[1..][1..] == ["etc", "passwd"];
    assert ResolveFrom([], segs, true) == ResolveFrom([".."], segs[1..], true);
    assert ResolveFrom([".."], segs[1..], true) == ResolveFrom(["..", ".."], ["etc", "passwd"], true);
    ResolveProper(["..", ".."], ["etc", "passwd"], true);
  }

  lemma EtcSafePath(rel: string)
    requires rel == "../../etc/passwd"
    ensures SafePath(rel) == rel
    ensures Split(rel) == ["..", "..", "etc", "passwd"]
  {
    var segs := ["..", "..", "etc", "passwd"];
    EtcShape(segs, rel);
    EtcResolves(segs);
    SafePathOfNormal(segs);
  }

  /** `../../etc/passwd` is its four segments joined, each free of `/`, no `..` after a name. */
  lemma EtcShape(segs: seq<string>, rel: string)
    requires segs == ["..", "..", "etc", "passwd"] && rel == "../../etc/passwd"
    ensures JoinSegs(segs) == rel && AllNoSep(segs) && Canonical(segs, true)
    ensures segs[0] != "" && !IsSlash(segs[0][0]) && !IsSlash(segs[|segs| - 1][|segs[|segs| - 1]| - 1])
  {
    assert JoinSegs(segs[2..]) == "etc/passwd";
  }

  lemma ClimbTwice(d: seq<string>)
    requires AllProper(d)
    ensures ResolveFrom(d + ["uploads"], ["..", "..", "etc", "passwd"], false) == Parent(d) + ["etc", "passwd"]
  {
    var segs := ["..", "..", "etc", "passwd"];
    assert Push(d + ["uploads"], "..", false) == d;
    assert Push(d, "..", false) == Parent(d);
    ResolveProper(Parent(d), ["etc", "passwd"], false);
    assert segs[2..] == ["etc", "passwd"];
  }

  lemma EtcOutsideRoot(d: seq<string>)
    requires AllProper(d)
    ensures !StartsWith("/" + JoinSegs(Parent(d) + ["etc", "passwd"]), "/" + JoinSegs(d + ["uploads"]))
  {
    var up := Parent(d);
    var pre := DirPrefix(up);
    RootedConcat(up, ["etc", "passwd"]);
    JoinPair("etc", "passwd");
    if d == [] {
      RootedConcat(up, ["uploads"]);
      assert JoinSegs(["uploads"]) == "uploads";
      EtcNotUploads("a", "etc", "passwd", "uploads");
      PrefixCancel(pre, "etc" + [Sep] + "passwd", "uploads");
    } else {
      var x := d[|d| - 1];
      PopSnoc(d, "uploads");
      RootedConcat(up, [x, "uploads"]);
      JoinPair(x, "uploads");
      EtcNotUploads(x, "etc", "passwd", "uploads");
      PrefixCancel(pre, "etc" + [Sep] + "passwd", x + [Sep] + "uploads");
    }
  }

  lemma PopSnoc<T>(d: seq<T>, u: T)
    requires d != []
    ensures d + [u] == d[..|d| - 1] + [d[|d| - 1], u]
  {
  }

  lemma JoinEtc(d: seq<string>, rel: string)
    requires AllProper(d)
    requires rel != [] && rel[|rel| - 1] != Sep && Split(rel) == ["..", "..", "etc", "passwd"]
    ensures Join("/" + JoinSegs(d + ["uploads"]), rel) == "/" + JoinSegs(Parent(d) + ["etc", "passwd"])
  {
    var root := d + ["uploads"];
    assert AllProper(root);
    JoinOntoRoot(root, rel);
    ClimbTwice(d);
  }

  /** `../../etc/passwd` is rejected, and nothing on disk is looked at. */
  lemma EtcPasswdRejected(dirname: string, rel: string, kind: string -> EntryKind)
    requires |dirname| > 0 && dirname[0] == Sep
    requires rel == "../../etc/passwd"
    ensures Sanitize(BaseDir(dirname), rel) == Rejected
    ensures Respond(dirname, Some(rel), kind) == InvalidPath
  {
    EtcSafePath(rel);
    BaseDirShape(dirname);
    var d := Resolve(Split(dirname), false);
    var base := BaseDir(dirname);
    var full := "/" + JoinSegs(Parent(d) + ["etc", "passwd"]);
    JoinEtc(d, rel);
    EtcOutsideRoot(d);
    SanitizeOutcome(base, rel, rel, full);
    RespondRejected(dirname, rel, kind);
  }

  // ---------------------------------------------------------------------
  // the sibling-directory gap of the string-prefix check

  lemma SiblingSafePath(rel: string)
    requires rel == "../uploadsX/f"
    ensures SafePath(rel) == rel
    ensures Split(rel) == ["..", "uploadsX", "f"]
  {
    var segs := ["..", "uploadsX", "f"];
    SiblingShape(segs, rel);
    assert Resolve(segs, true) == segs by {
      assert Push([], "..", true) == [".."];
      assert ResolveFrom([], segs, true) == ResolveFrom([".."], ["uploadsX", "f"], true);
      ResolveProper([".."], ["uploadsX", "f"], true);
    }
    SafePathOfNormal(segs);
  }

  /** `../uploadsX/f` is its three segments joined, each free of `/`, no `..` after a name. */
  lemma SiblingShape(segs: seq<string>, rel: string)
    requires segs == ["..", "uploadsX", "f"] && rel == "../uploadsX/f"
    ensures JoinSegs(segs) == rel && AllNoSep(segs) && Canonical(segs, true)
    ensures segs[0] != "" && !IsSlash(segs[0][0]) && !IsSlash(segs[|segs| - 1][|segs[|segs| - 1]| - 1])
  {
    assert JoinSegs(segs[1..]) == "uploadsX/f";
  }

  lemma JoinSibling(d: seq<string>, rel: string)
    requires AllProper(d)
    requires rel != [] && rel[|rel| - 1] != Sep && Split(rel) == ["..", "uploadsX", "f"]
    ensures Join("/" + JoinSegs(d + ["uploads"]), rel) == "/" + JoinSegs(d + ["uploadsX", "f"])
  {
    UploadsProper("uploads");
    SiblingNames(["uploadsX", "f"], "uploads");
    ConsTriple("..", "uploadsX", "f");
    JoinClimb(d, "uploads", ["uploadsX", "f"], rel);
  }

  lemma SiblingNames(tail: seq<string>, b: string)
    requires tail == ["uploadsX", "f"] && b == "uploads"
    ensures AllProper(tail)
    ensures var a := JoinSegs(tail); StartsWith(a, b) && !StartsWith(a, b + "/") && a != b
  {
    var a := JoinSegs(tail);
    assert a == "uploadsX/f";
    assert a[..|b|] == b;
    assert a[..|b| + 1][|b|] != (b + "/")[|b|];
  }

  /** `<parent>/uploadsX/f` starts with the string `<parent>/uploads` but does not lie under it. */
  lemma SiblingPrefix(d: seq<string>)
    requires AllProper(d)
    ensures var base := "/" + JoinSegs(d + ["uploads"]);
      var full := "/" + JoinSegs(d + ["uploadsX", "f"]);
      StartsWith(full, base) && !Within(base, full)
  {
    WithinSibling(d, "uploads", ["uploadsX", "f"]);
    SiblingNames(["uploadsX", "f"], "uploads");
  }

  /**
   * The string-prefix check at server.js:112 accepts `../uploadsX/f`: it
   * resolves into the sibling directory `uploadsX` beside the storage root,
   * which starts with the root's string but is not under it.
   */
  lemma SiblingAccepted(dirname: string, rel: string)
    requires |dirname| > 0 && dirname[0] == Sep
    requires rel == "../uploadsX/f"
    ensures var sibling := "/" + JoinSegs(Resolve(Split(dirname), false) + ["uploadsX", "f"]);
      && Sanitize(BaseDir(dirname), rel) == Accepted(rel, sibling)
      && !Within(BaseDir(dirname), sibling)
  {
    SiblingSafePath(rel);
    BaseDirShape(dirname);
    var d := Resolve(Split(dirname), false);
    var sibling := "/" + JoinSegs(d + ["uploadsX", "f"]);
    JoinSibling(d, rel);
    SiblingPrefix(d);
    SanitizeOutcome(BaseDir(dirname), rel, rel, sibling);
  }

  /** The segment-wise check rejects the same request. */
  lemma SiblingRejectedWhenConfined(dirname: string, rel: string)
    requires |dirname| > 0 && dirname[0] == Sep
    requires rel == "../uploadsX/f"
    ensures SanitizeConfined(BaseDir(dirname), rel) == Rejected
  {
    SiblingAccepted(dirname, rel);
  }

  /** The segment-wise check accepts nothing the string-prefix check rejects, and agrees with it where it accepts. */
  lemma ConfinedNarrows(base: string, rel: string)
    ensures SanitizeConfined(base, rel).Accepted? ==> Sanitize(base, rel) == SanitizeConfined(base, rel)
  {
    var safe := SafePath(rel);
    var full := Join(base, safe);
    if Within(base, full) {
      WithinStartsWith(base, full);
    }
  }

  /**
   * Whatever the segment-wise check accepts lies in the storage root segment
   * by segment: the full path's first segments are the root's.
   */
  lemma ConfinedSegments(dirname: string, rel: string)
    requires |dirname| > 0 && dirname[0] == Sep
    ensures var c := SanitizeConfined(BaseDir(dirname), rel);
      c.Accepted? ==>
        && |Split(c.full)| > |RootSegs(dirname)|
        && Split(c.full)[..|RootSegs(dirname)| + 1] == [""] + RootSegs(dirname)
  {
    BaseDirShape(dirname);
    var c := SanitizeConfined(BaseDir(dirname), rel);
    if c.Accepted? {
      WithinSegments(RootSegs(dirname), c.full);
    }
  }

  // ---------------------------------------------------------------------
  // the response

  /**
   * The filesystem is consulted only at the sanitised full path, and not at
   * all for a missing or rejected request.
   */
  lemma RespondConsultsOnlyFull(dirname: string, query: Option<string>, k1: string -> EntryKind, k2: string -> EntryKind)
    requires query.Some? && query.value != "" && Sanitize(BaseDir(dirname), query.value).Accepted? ==>
      k1(Sanitize(BaseDir(dirname), query.value).full) == k2(Sanitize(BaseDir(dirname), query.value).full)
    ensures Respond(dirname, query, k1) == Respond(dirname, query, k2)
    ensures Respond(dirname, query, k1) == MissingPath <==> query.None? || query.value == ""
  {
  }

  /** An accepted request is served from its full path. */
  lemma RespondAccepted(dirname: string, rel: string, kind: string -> EntryKind, safe: string, full: string)
    requires rel != "" && Sanitize(BaseDir(dirname), rel) == Accepted(safe, full)
    ensures Respond(dirname, Some(rel), kind) == Serve(safe, full, kind)
  {
  }

  /** A rejected request is answered 400 without looking at the disk. */
  lemma RespondRejected(dirname: string, rel: string, kind: string -> EntryKind)
    requires rel != "" && Sanitize(BaseDir(dirname), rel) == Rejected
    ensures Respond(dirname, Some(rel), kind) == InvalidPath
  {
  }

  /** The zip of a directory named by ordinary segments takes the last segment as its name. */
  lemma ZipNamesOfSegments(safe: string)
    requires safe != "" && AllProper(Split(safe))
    ensures var name := Split(safe)[|Split(safe)| - 1];
      ZipNames(safe) == (name + ".zip", name) && name != ""
  {
    var segs := Split(safe);
    JoinSplit(safe);
    BasenameOfJoin(segs);
  }

  /** Under the root, a path of ordinary segments keeps its last segment as its basename. */
  lemma BasenameUnderRoot(dirname: string, safe: string)
    requires safe != "" && AllProper(Split(safe))
    ensures Basename(BaseDir(dirname) + "/" + safe) == Split(safe)[|Split(safe)| - 1]
  {
    var segs := Split(safe);
    assert Proper(segs[|segs| - 1]);
    EndsInLastSegment(safe);
    BasenameAfterSep(BaseDir(dirname), safe);
  }

  /**
   * A directory named by ordinary segments is sent as `<last segment>.zip`
   * whose entries are rooted at that segment, the directory's own name.
   */
  lemma DirectoryZipNamed(dirname: string, rel: string, kind: string -> EntryKind)
    requires |dirname| > 0 && dirname[0] == Sep
    requires rel != "" && SafePath(rel) != "" && AllProper(Split(SafePath(rel)))
    requires kind(BaseDir(dirname) + "/" + SafePath(rel)) == Directory
    ensures var safe := SafePath(rel);
      var full := BaseDir(dirname) + "/" + safe;
      var name := Split(safe)[|Split(safe)| - 1];
      && Respond(dirname, Some(rel), kind) == SendZip(full, name + ".zip", name)
      && name == Basename(full)
  {
    var safe := SafePath(rel);
    var full := BaseDir(dirname) + "/" + safe;
    var name := Split(safe)[|Split(safe)| - 1];
    AcceptedVerbatim(dirname, rel);
    ZipNamesOfSegments(safe);
    ZipResponse(dirname, rel, kind, safe, full, name);
    BasenameUnderRoot(dirname, safe);
  }

  /** An accepted directory is sent as a zip under the names `ZipNames` gives it. */
  lemma ZipResponse(dirname: string, rel: string, kind: string -> EntryKind, safe: string, full: string, name: string)
    requires rel != "" && Sanitize(BaseDir(dirname), rel) == Accepted(safe, full)
    requires kind(full) == Directory && ZipNames(safe) == (name + ".zip", name)
    ensures Respond(dirname, Some(rel), kind) == SendZip(full, name + ".zip", name)
  {
    RespondAccepted(dirname, rel, kind, safe, full);
  }

  lemma RootSafePath(rel: string)
    requires rel == "/"
    ensures SafePath(rel) == "" && Resolve(Split(SafePath(rel)), true) == []
  {
    assert Split(rel) == ["", ""];
    assert Push([], "", false) == [];
    assert ResolveFrom([], ["", ""], false) == ResolveFrom([], [""], false);
    assert Resolve(Split(rel), false) == [];
    assert Normalize(rel) == "/";
    assert TrimLeadingSlashes("/") == "";
    assert Split("") == [""];
    assert Push([], "", true) == [];
  }

  /** `path=/` names the root itself, which is sent as a zip named `.zip` whose entries have no folder. */
  lemma RootDirectoryZip(dirname: string, rel: string, kind: string -> EntryKind)
    requires |dirname| > 0 && dirname[0] == Sep
    requires rel == "/" && kind(BaseDir(dirname)) == Directory
    ensures Respond(dirname, Some(rel), kind) == SendZip(BaseDir(dirname), ".zip", "")
  {
    RootSafePath(rel);
    AcceptedBelowRoot(dirname, rel);
    RespondAccepted(dirname, rel, kind, "", BaseDir(dirname));
    assert TrimTrailingSep("") == "";
    assert Basename("") == "";
  }

  /** Dropping one trailing `/` or `\` from a path that ends in neither. */
  lemma TrimOneSlash(x: string, c: char)
    requires x != [] && !IsSlash(x[|x| - 1]) && IsSlash(c)
    ensures TrimTrailingSlashes(x + [c]) == x
  {
    assert (x + [c])[..|x|] == x;
  }

  lemma ExposedSafePath(rel: string, safe: string)
    requires safe == "a/.." && rel == safe + "\\"
    ensures SafePath(rel) == safe
  {
    var segs := ["a", "..\\"];
    assert JoinSegs(segs) == rel;
    SplitJoin(segs);
    assert Resolve(segs, true) == segs by {
      ResolveProper([], segs, true);
    }
    LastOfJoin(segs);
    assert Normalize(rel) == Assemble(false, segs, false);
    assert Normalize(rel) == rel;
    assert TrimLeadingSlashes(rel) == rel;
    TrimOneSlash(safe, '\\');
    assert TrimTrailingSlashes(rel) == safe;
    assert StripSlashes(rel) == safe;
    assert SafePath(rel) == StripSlashes(rel);
  }

  lemma ExposedResolves(safe: string)
    requires safe == "a/.."
    ensures Resolve(Split(safe), true) == [] && Basename(safe) == ".."
  {
    var s2 := ["a", ".."];
    assert JoinSegs(s2) == safe;
    SplitJoin(s2);
    assert ResolveFrom([], s2, true) == ResolveFrom(["a"], [".."], true);
    BasenameOfJoin(s2);
  }

  /**
   * Stripping a trailing `\` after normalizing can expose a `..` segment:
   * `a/..\` becomes `a/..`, which resolves to the root itself, and a
   * directory download of it is named `...zip` with its entries under `..`.
   */
  lemma ParentZipName(b: string)
    requires b == ".."
    ensures b + ".zip" == "...zip"
  {
  }

  lemma StripExposesParent(dirname: string, rel: string, kind: string -> EntryKind)
    requires |dirname| > 0 && dirname[0] == Sep
    requires rel == "a/..\\" && kind(BaseDir(dirname)) == Directory
    ensures SafePath(rel) == "a/.."
    ensures Sanitize(BaseDir(dirname), rel) == Accepted("a/..", BaseDir(dirname))
    ensures Respond(dirname, Some(rel), kind) == SendZip(BaseDir(dirname), "...zip", "..")
  {
    var safe := "a/..";
    assert rel == safe + "\\";
    ExposedSafePath(rel, safe);
    ExposedResolves(safe);
    AcceptedBelowRoot(dirname, rel);
    var base := BaseDir(dirname);
    assert Sanitize(base, rel) == Accepted(safe, base);
    RespondAccepted(dirname, rel, kind, safe, base);
    var b := Basename(safe);
    assert ZipNames(safe) == (b + ".zip", b);
    ParentZipName(b);
    assert Serve(safe, base, kind) == SendZip(base, "...zip", "..");
  }
}
