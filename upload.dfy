/**
 * The `/upload` endpoint of server.js (lines 18-64), without the bytes: each
 * uploaded item is classified by its `originalname` either as an archive,
 * extracted into a folder named after it, or as a plain file, written at its
 * own relative path under the storage root.
 *
 * Neither branch checks where its target lands. `ClassifyConfined` is the
 * classification with the containment check the endpoint evidently intends.
 */
module Upload {
  import opened PosixPath
  import opened Wrappers
  import opened Storage
  import opened Seqs

  // ---------------------------------------------------------------------
  // archive detection, server.js:28

  /** `toLowerCase` on one character, for the ASCII letters. */
  function LowerChar(c: char): char
  {
    if 'A' <= c <= 'Z' then (c as int + 32) as char else c
  }

  function ToLower(s: string): (r: string)
    ensures |r| == |s|
    ensures forall i :: 0 <= i < |s| ==> r[i] == LowerChar(s[i])
  {
    if s == [] then [] else [LowerChar(s[0])] + ToLower(s[1..])
  }

  /** server.js:28: an item is an archive when its lower-cased name ends in `.zip`. */
  predicate IsArchiveName(name: string)
  {
    EndsWith(ToLower(name), ".zip")
  }

  /** The archive test looks at the last four characters only, and ignores the case of the letters. */
  lemma ArchiveNameIff(name: string)
    ensures IsArchiveName(name) <==>
      && |name| >= 4
      && name[|name| - 4] == '.'
      && (name[|name| - 3] == 'z' || name[|name| - 3] == 'Z')
      && (name[|name| - 2] == 'i' || name[|name| - 2] == 'I')
      && (name[|name| - 1] == 'p' || name[|name| - 1] == 'P')
  {
    var n := |name|;
    if n >= 4 {
      var t := ToLower(name)[n - 4..];
      assert t == [LowerChar(name[n - 4]), LowerChar(name[n - 3]), LowerChar(name[n - 2]), LowerChar(name[n - 1])];
      assert IsArchiveName(name) <==> t == ".zip";
    }
  }

  /**
   * A lowering that maps each character to a string, as `toLowerCase` does
   * for all of Unicode (U+0130 lowers to two characters).
   */
  function LowerEach(low: char -> string, s: string): string
  {
    if s == [] then [] else LowerEach(low, s[..|s| - 1]) + low(s[|s| - 1])
  }

  /**
   * `low` lowers ASCII as `LowerChar` does, and the lowering of any other
   * character is nonempty and does not end in a character of `g`.
   */
  predicate AgreesOnAscii(low: char -> string, g: set<char>)
  {
    forall c :: (c as int < 128 ==> low(c) == [LowerChar(c)])
             && (c as int >= 128 ==> low(c) != [] && low(c)[|low(c)| - 1] !in g)
  }

  lemma EndsWithLast(x: string, t: string)
    requires t != [] && EndsWith(x, t)
    ensures x != [] && x[|x| - 1] == t[|t| - 1]
  {
    assert x[|x| - |t|..][|t| - 1] == x[|x| - 1];
  }

  lemma EndsWithSnoc(x: string, y: char, t: string)
    requires t != []
    ensures EndsWith(x + [y], t) <==> y == t[|t| - 1] && EndsWith(x, t[..|t| - 1])
  {
    var n := |x| + 1;
    if |t| <= n {
      assert (x + [y])[n - |t|..] == x[n - |t|..] + [y];
      if EndsWith(x + [y], t) {
        assert t[..|t| - 1] == (x + [y])[n - |t|..][..|t| - 1];
      }
    }
  }

  lemma {:induction false} ToLowerSnoc(s: string)
    requires s != []
    ensures ToLower(s) == ToLower(s[..|s| - 1]) + [LowerChar(s[|s| - 1])]
    decreases |s|
  {
    if |s| == 1 {
      assert s[..0] == [];
      assert s[1..] == [];
    } else {
      var t := s[1..];
      var p := s[..|s| - 1];
      ToLowerSnoc(t);
      assert t[..|t| - 1] == p[1..];
      assert t[|t| - 1] == s[|s| - 1];
      assert p[0] == s[0];
    }
  }

  /** Under any lowering that agrees on ASCII, a suffix made of characters of `g` is detected alike. */
  lemma {:induction false} LowerEachSuffix(low: char -> string, g: set<char>, s: string, t: string)
    requires AgreesOnAscii(low, g)
    requires forall k :: 0 <= k < |t| ==> t[k] in g && t[k] as int < 128
    ensures EndsWith(LowerEach(low, s), t) <==> EndsWith(ToLower(s), t)
    decreases |t|
  {
    if t != [] && s != [] {
      var p := s[..|s| - 1];
      var c := s[|s| - 1];
      var x := low(c);
      ToLowerSnoc(s);
      assert LowerEach(low, s) == LowerEach(low, p) + x;
      if c as int < 128 {
        assert x == [LowerChar(c)];
        LowerEachSuffix(low, g, p, t[..|t| - 1]);
        EndsWithSnoc(LowerEach(low, p), LowerChar(c), t);
        EndsWithSnoc(ToLower(p), LowerChar(c), t);
      } else {
        assert x != [] && x[|x| - 1] !in g;
        var lowered := LowerEach(low, p) + x;
        assert lowered[|lowered| - 1] == x[|x| - 1];
        if EndsWith(lowered, t) {
          EndsWithLast(lowered, t);
        }
        if EndsWith(ToLower(s), t) {
          EndsWithLast(ToLower(s), t);
        }
      }
    }
  }

  /**
   * The archive test at server.js:28 decides alike under Unicode lowering:
   * no character outside ASCII lowers to a string ending in `.`, `z`, `i` or `p`.
   */
  lemma ArchiveUnderAnyLowering(low: char -> string, name: string)
    requires AgreesOnAscii(low, {'.', 'z', 'i', 'p'})
    ensures EndsWith(LowerEach(low, name), ".zip") <==> IsArchiveName(name)
  {
    LowerEachSuffix(low, {'.', 'z', 'i', 'p'}, name, ".zip");
  }

  // ---------------------------------------------------------------------
  // the extract folder, server.js:37

  /** `path.basename(originalname, '.zip')`: the folder an archive is extracted into. */
  function ExtractDirName(name: string): (dir: string)
    requires IsArchiveName(name)
    ensures NoSep(dir)
  {
    ArchiveLastNotSep(name);
    BasenameExtNoSep(name, ".zip");
    BasenameExt(name, ".zip")
  }

  lemma ArchiveLastNotSep(name: string)
    requires IsArchiveName(name)
    ensures name != [] && name[|name| - 1] != Sep
  {
    ArchiveNameIff(name);
  }

  /** The last four characters of a name ending in `.zip` hold no `/`, so its last segment ends in `.zip` too. */
  lemma LastSegmentKeepsZip(name: string)
    requires EndsWith(name, ".zip")
    ensures EndsWith(LastSegment(name), ".zip")
  {
    LastSegmentSuffix(name);
    var last := LastSegment(name);
    var n := |name|;
    if |last| < n {
      var k := n - |last| - 1;
      assert name[k] == Sep;
      forall j | n - 4 <= j < n
        ensures name[j] != Sep
      {
        assert name[j] == name[n - 4..][j - (n - 4)];
      }
    }
    assert name[n - 4..] == last[|last| - 4..];
  }

  /** A last segment ending in `.zip` makes the whole name end in `.zip`. */
  lemma ZipOfLastSegment(name: string)
    ensures EndsWith(LastSegment(name), ".zip") ==> EndsWith(name, ".zip")
  {
    LastSegmentSuffix(name);
    var last := LastSegment(name);
    if |last| >= 4 {
      assert name[|name| - 4..] == last[|last| - 4..];
    }
  }

  /**
   * The extract folder is the name's last segment, less a trailing `.zip` in
   * exactly that case. A last segment that is `.zip` and nothing more keeps
   * it, and the bare name `.zip` gives the empty folder name.
   */
  lemma ExtractDirNameSpec(name: string)
    requires IsArchiveName(name)
    ensures var dir := ExtractDirName(name); var last := LastSegment(name);
      && (name == ".zip" ==> dir == "")
      && (name != ".zip" && EndsWith(name, ".zip") && last != ".zip" ==> dir + ".zip" == last)
      && (name != ".zip" && (!EndsWith(name, ".zip") || last == ".zip") ==> dir == last)
  {
    ArchiveNameIff(name);
    var last := LastSegment(name);
    assert TrimTrailingSep(name) == name;
    assert Basename(name) == last;
    if EndsWith(name, ".zip") {
      LastSegmentKeepsZip(name);
      if name != ".zip" && last != ".zip" {
        assert last[..|last| - 4] + ".zip" == last;
      }
    } else {
      ZipOfLastSegment(name);
    }
  }

  /** `A.ZIP` is taken for an archive, but only an exact-case `.zip` is cut, so it extracts into `A.ZIP`. */
  lemma UpperCaseArchive(name: string)
    requires name == "A.ZIP"
    ensures IsArchiveName(name) && ExtractDirName(name) == name
  {
    ArchiveNameIff(name);
    SplitNoSep(name);
    assert !EndsWith(name, ".zip") by {
      assert name[|name| - 1] != 'p';
    }
    ExtractDirNameSpec(name);
  }

  /** `x/y/b.zip` extracts into `b`: only the last segment names the folder. */
  lemma NestedArchive(name: string, dir: string)
    requires name == "x/y/b.zip" && dir == "b"
    ensures IsArchiveName(name) && ExtractDirName(name) == dir
  {
    var segs := ["x", "y", "b.zip"];
    NestedShape(segs, name, dir);
    SplitJoin(segs);
    ExtractDirNameSpec(name);
    SuffixCancel(ExtractDirName(name), dir, ".zip");
  }

  lemma NestedShape(segs: seq<string>, name: string, dir: string)
    requires segs == ["x", "y", "b.zip"] && name == "x/y/b.zip" && dir == "b"
    ensures JoinSegs(segs) == name && AllNoSep(segs) && |segs| >= 1
    ensures IsArchiveName(name) && EndsWith(name, ".zip") && name != ".zip"
    ensures segs[|segs| - 1] != ".zip" && segs[|segs| - 1] == dir + ".zip"
  {
    NestedJoin(segs, name);
    NestedNoSep(segs);
    NestedZip(name, segs[2], dir);
  }

  lemma NestedJoin(segs: seq<string>, name: string)
    requires segs == ["x", "y", "b.zip"] && name == "x/y/b.zip"
    ensures JoinSegs(segs) == name
  {
    assert JoinSegs(segs[1..]) == "y/b.zip";
  }

  lemma NestedNoSep(segs: seq<string>)
    requires segs == ["x", "y", "b.zip"]
    ensures AllNoSep(segs)
  {
    assert NoSep(segs[2]);
  }

  lemma NestedZip(name: string, last: string, dir: string)
    requires name == "x/y/b.zip" && last == "b.zip" && dir == "b"
    ensures IsArchiveName(name) && EndsWith(name, ".zip") && name != ".zip"
    ensures last != ".zip" && last == dir + ".zip"
  {
    ArchiveNameIff(name);
    assert name[|name| - 4..] == ".zip";
    assert |name| != 4;
    assert |last| != 4;
  }

  lemma SuffixCancel<T>(x: seq<T>, y: seq<T>, t: seq<T>)
    requires x + t == y + t
    ensures x == y
  {
    assert x == (x + t)[..|x|];
    assert y == (y + t)[..|y|];
  }

  // ---------------------------------------------------------------------
  // plain files, server.js:51-52

  /** `originalname.replace(/^\/+/, '')`: the name without its leading run of `/`. */
  function StripLeadingSeps(name: string): (rel: string)
    ensures |rel| <= |name| && (rel == [] || rel[0] != Sep)
  {
    if name == [] || name[0] != Sep then name else StripLeadingSeps(name[1..])
  }

  /** The strip removes exactly a run of `/` from the front, and keeps the rest of the name. */
  lemma {:induction false} StripLeadingCuts(name: string)
    ensures var rel := StripLeadingSeps(name);
      EndsWith(name, rel) && AllSep(name[..|name| - |rel|])
  {
    if name == [] || name[0] != Sep {
      assert name[..0] == [];
    } else {
      StripLeadingCuts(name[1..]);
      StripStep(name, StripLeadingSeps(name[1..]));
    }
  }

  lemma StripStep(name: string, rel: string)
    requires name != [] && name[0] == Sep
    requires EndsWith(name[1..], rel) && AllSep(name[1..][..|name| - 1 - |rel|])
    ensures EndsWith(name, rel) && AllSep(name[..|name| - |rel|])
  {
    var t := name[1..];
    assert t[|t| - |rel|..] == name[|name| - |rel|..];
    assert name[..|name| - |rel|] == [name[0]] + t[..|t| - |rel|];
  }

  // ---------------------------------------------------------------------
  // classification

  datatype Action =
    | Extract(dirName: string, extractDir: string)  // extract(tempZipPath, { dir: extractDir })
    | Write(relPath: string, destPath: string)      // mkdirp(dirname(destPath)); writeFileSync(destPath, ...)

  /** Where an action puts its bytes. */
  function Target(a: Action): string
  {
    if a.Extract? then a.extractDir else a.destPath
  }

  /** server.js:28-55 for one item, as written: no containment check on either branch. */
  function Classify(base: string, name: string): (a: Action)
    ensures a.Extract? <==> IsArchiveName(name)
    ensures a.Extract? ==> NoSep(a.dirName) && a.extractDir == Join(base, a.dirName)
    ensures a.Write? ==> a.destPath == Join(base, a.relPath) && (a.relPath == [] || a.relPath[0] != Sep)
  {
    if IsArchiveName(name) then
      var dir := ExtractDirName(name);
      Extract(dir, Join(base, dir))
    else
      var rel := StripLeadingSeps(name);
      Write(rel, Join(base, rel))
  }

  datatype UploadError = OutsideRoot

  /**
   * A plain item is written at its name less the whole leading run of `/`:
   * the cut `k` covers only `/` and stops at the first other character.
   */
  lemma PlainRelPath(base: string, name: string)
    requires !IsArchiveName(name)
    ensures var a := Classify(base, name);
      a.Write? &&
      exists k :: 0 <= k <= |name| && (forall j :: 0 <= j < k ==> name[j] == Sep) &&
        (k == |name| || name[k] != Sep) && a.relPath == name[k..] && a.destPath == Join(base, name[k..])
  {
    var rel := StripLeadingSeps(name);
    StripLeadingCuts(name);
    var k := |name| - |rel|;
    assert name[k..] == rel;
    forall j | 0 <= j < k
      ensures name[j] == Sep
    {
      assert name[..k][j] == name[j];
    }
    assert k == |name| || name[k] == rel[0];
  }

  /** The classification with the containment check: the target must be the root or lie under it. */
  function ClassifyConfined(base: string, name: string): (r: Result<Action, UploadError>)
    ensures r.Ok? ==> r.value == Classify(base, name) && Within(base, Target(r.value))
    ensures r.Err? ==> !Within(base, Target(Classify(base, name)))
  {
    var a := Classify(base, name);
    if Within(base, Target(a)) then Ok(a) else Err(OutsideRoot)
  }

  datatype Reply = NoFilesUploaded | Uploaded(count: nat)

  /** The classification of every item of a batch, in order. */
  function ClassifyAll(base: string, names: seq<string>): (actions: seq<Action>)
    ensures |actions| == |names|
  {
    if names == [] then [] else [Classify(base, names[0])] + ClassifyAll(base, names[1..])
  }

  /** Item `k` of a batch is acted on by the classification of name `k`. */
  lemma {:induction false} ClassifyAllAt(base: string, names: seq<string>, k: nat)
    requires k < |names|
    ensures ClassifyAll(base, names)[k] == Classify(base, names[k])
  {
    if k > 0 {
      ClassifyAllAt(base, names[1..], k - 1);
    }
  }

  /**
   * server.js:18-58: an absent or empty batch is refused; otherwise every
   * item is acted on in order and the reply counts them.
   */
  method HandleUpload(base: string, files: Option<seq<string>>) returns (reply: Reply, actions: seq<Action>)
    ensures files.None? || files.value == [] <==> reply == NoFilesUploaded
    ensures reply == NoFilesUploaded ==> actions == []
    ensures reply.Uploaded? ==> reply.count == |files.value| && actions == ClassifyAll(base, files.value)
  {
    if files.None? || |files.value| == 0 {
      return NoFilesUploaded, [];
    }
    var names := files.value;
    actions := [];
    for i := 0 to |names|
      invariant actions + ClassifyAll(base, names[i..]) == ClassifyAll(base, names)
    {
      var a := Classify(base, names[i]);
      ClassifyAllStep(base, names, i, actions, a);
      actions := actions + [a];
    }
    reply := Uploaded(|names|);
  }

  lemma ClassifyAllStep(base: string, names: seq<string>, i: nat, done: seq<Action>, a: Action)
    requires i < |names| && a == Classify(base, names[i])
    ensures done + ClassifyAll(base, names[i..]) == (done + [a]) + ClassifyAll(base, names[i + 1..])
  {
    DropOne(names, i);
    ClassifyAllCons(base, names[i..]);
    Assoc(done, [a], ClassifyAll(base, names[i + 1..]));
  }

  lemma ClassifyAllCons(base: string, names: seq<string>)
    requires names != []
    ensures ClassifyAll(base, names) == [Classify(base, names[0])] + ClassifyAll(base, names[1..])
  {
  }

  lemma DropOne<T>(s: seq<T>, i: nat)
    requires i < |s|
    ensures s[i..][0] == s[i] && s[i..][1..] == s[i + 1..]
  {
  }

  // ---------------------------------------------------------------------
  // where the bytes land

  /**
   * A plain name whose path never climbs (no `..` survives resolving it on
   * its own) is written under the root, at the root followed by that path.
   */
  lemma PlainBelowRoot(dirname: string, name: string)
    requires |dirname| > 0 && dirname[0] == Sep
    requires !IsArchiveName(name)
    requires NeverClimbs(StripLeadingSeps(name))
    ensures var rel := StripLeadingSeps(name);
      var dest := "/" + JoinSegs(RootSegs(dirname) + Resolve(Split(rel), true));
      var base := BaseDir(dirname);
      && Classify(base, name) == Write(rel, if rel != [] && rel[|rel| - 1] == Sep then dest + "/" else dest)
      && Within(base, Classify(base, name).destPath)
      && ClassifyConfined(base, name) == Ok(Classify(base, name))
  {
    var rel := StripLeadingSeps(name);
    var dest := "/" + JoinSegs(RootSegs(dirname) + Resolve(Split(rel), true));
    var j := if rel != [] && rel[|rel| - 1] == Sep then dest + "/" else dest;
    JoinWithinBase(dirname, rel);
    PlainWriteWithin(BaseDir(dirname), name, j);
  }

  /** A relative path that never climbs, joined onto an absolute root, lands within it. */
  lemma JoinWithin(root: seq<string>, rel: string)
    requires |root| > 0 && AllProper(root) && NeverClimbs(rel)
    ensures var base := "/" + JoinSegs(root);
      var dest := "/" + JoinSegs(root + Resolve(Split(rel), true));
      var j := if rel != [] && rel[|rel| - 1] == Sep then dest + "/" else dest;
      Join(base, rel) == j && Within(base, j)
  {
    var r := Resolve(Split(rel), true);
    JoinBelowRoot(root, rel);
    ExtendRoot(root, r);
    WithinTrailing("/" + JoinSegs(root), "/" + JoinSegs(root + r));
  }

  /** The storage-root form of `JoinWithin`. */
  lemma JoinWithinBase(dirname: string, rel: string)
    requires |dirname| > 0 && dirname[0] == Sep && NeverClimbs(rel)
    ensures var base := BaseDir(dirname);
      var dest := "/" + JoinSegs(RootSegs(dirname) + Resolve(Split(rel), true));
      var j := if rel != [] && rel[|rel| - 1] == Sep then dest + "/" else dest;
      Join(base, rel) == j && Within(base, j)
  {
    BaseDirShape(dirname);
    JoinWithin(RootSegs(dirname), rel);
  }

  lemma PlainWriteWithin(base: string, name: string, j: string)
    requires !IsArchiveName(name) && Join(base, StripLeadingSeps(name)) == j && Within(base, j)
    ensures Classify(base, name) == Write(StripLeadingSeps(name), j)
    ensures Within(base, Classify(base, name).destPath)
    ensures ClassifyConfined(base, name) == Ok(Classify(base, name))
  {
  }

  /** An archive lands under the root exactly when its folder name is not `..`. */
  lemma ArchiveConfinedIff(dirname: string, name: string)
    requires |dirname| > 0 && dirname[0] == Sep
    requires IsArchiveName(name)
    ensures ClassifyConfined(BaseDir(dirname), name).Ok? <==> ExtractDirName(name) != ".."
  {
    BaseDirShape(dirname);
    JoinSegment(RootSegs(dirname), ExtractDirName(name));
  }

  lemma EvilSegments(name: string)
    requires name == "../evil.txt"
    ensures !IsArchiveName(name) && StripLeadingSeps(name) == name
    ensures Split(name) == ["..", "evil.txt"]
  {
    ArchiveNameIff(name);
    var segs := ["..", "evil.txt"];
    assert segs[1..] == ["evil.txt"];
    assert JoinSegs(segs) == ".." + "/" + "evil.txt";
    assert ".." + "/" + "evil.txt" == name;
    SplitJoin(segs);
  }

  lemma PlainVerbatim(base: string, name: string)
    requires !IsArchiveName(name) && StripLeadingSeps(name) == name
    ensures Classify(base, name) == Write(name, Join(base, name))
  {
  }

  lemma RefusedOutside(base: string, name: string)
    requires !Within(base, Target(Classify(base, name)))
    ensures ClassifyConfined(base, name) == Err(OutsideRoot)
  {
  }

  lemma EvilNotUploads(a: string, b: string)
    requires a == "evil.txt" && b == "uploads"
    ensures JoinSegs([a]) == a && a != b && !StartsWith(a, b + "/")
  {
    assert a[0] != b[0];
  }

  lemma EvilProper(x: string)
    requires x == "evil.txt"
    ensures Proper(x) && AllProper([x])
  {
  }

  lemma EvilOutside(d: seq<string>)
    requires AllProper(d)
    ensures !Within("/" + JoinSegs(d + ["uploads"]), "/" + JoinSegs(d + ["evil.txt"]))
  {
    WithinSibling(d, "uploads", ["evil.txt"]);
    EvilNotUploads("evil.txt", "uploads");
  }

  /**
   * A plain item named `../evil.txt` is written beside the storage root, in
   * the server's own directory: nothing confines plain names.
   */
  lemma PlainEscapes(dirname: string, name: string)
    requires |dirname| > 0 && dirname[0] == Sep
    requires name == "../evil.txt"
    ensures var d := Resolve(Split(dirname), false);
      var a := Classify(BaseDir(dirname), name);
      && a == Write(name, "/" + JoinSegs(d + ["evil.txt"]))
      && !Within(BaseDir(dirname), a.destPath)
      && ClassifyConfined(BaseDir(dirname), name) == Err(OutsideRoot)
  {
    EvilSegments(name);
    BaseDirShape(dirname);
    var d := Resolve(Split(dirname), false);
    UploadsProper("uploads");
    EvilProper("evil.txt");
    ConsPair("..", "evil.txt");
    JoinClimb(d, "uploads", ["evil.txt"], name);
    EvilOutside(d);
    EscapesBy(BaseDir(dirname), name, "/" + JoinSegs(d + ["evil.txt"]));
  }

  /** A plain name kept verbatim whose join leaves the root is written there, and refused by the confined check. */
  lemma EscapesBy(base: string, name: string, dest: string)
    requires !IsArchiveName(name) && StripLeadingSeps(name) == name
    requires Join(base, name) == dest && !Within(base, dest)
    ensures var a := Classify(base, name);
      && a == Write(name, dest)
      && !Within(base, a.destPath)
      && ClassifyConfined(base, name) == Err(OutsideRoot)
  {
    PlainVerbatim(base, name);
    RefusedOutside(base, name);
  }

  lemma DotDotZip(name: string, dir: string)
    requires name == "...zip" && dir == ".."
    ensures IsArchiveName(name) && ExtractDirName(name) == dir
  {
    ArchiveNameIff(name);
    SplitNoSep(name);
    assert EndsWith(name, ".zip");
    ExtractDirNameSpec(name);
    assert dir + ".zip" == name;
  }

  /**
   * An archive named `...zip` has the folder name `..`, so it is extracted
   * into the parent of the storage root.
   */
  lemma ArchiveEscapes(dirname: string, name: string)
    requires |dirname| > 0 && dirname[0] == Sep
    requires name == "...zip"
    ensures var d := Resolve(Split(dirname), false);
      var a := Classify(BaseDir(dirname), name);
      && a == Extract("..", Assemble(true, d, false))
      && !Within(BaseDir(dirname), a.extractDir)
      && ClassifyConfined(BaseDir(dirname), name) == Err(OutsideRoot)
  {
    DotDotZip(name, "..");
    BaseDirShape(dirname);
    var root := RootSegs(dirname);
    JoinSegment(root, "..");
    assert root[..|root| - 1] == Resolve(Split(dirname), false);
  }
}
