/**
 * `listFiles` of server.js (lines 72-86): a depth-first walk of the storage
 * root that collects the root-relative paths of everything that is not a
 * directory, in the order the directory reads return their entries.
 *
 * The filesystem is a tree value: a directory is the sequence of its entries
 * in `readdirSync` order. A name read from a directory is one proper segment
 * (never empty, `.`, `..` or holding `/`), so `path.relative(baseDir,
 * path.join(dir, name))` is the names from the root down joined by `/`.
 */
module Listing {
  import opened PosixPath
  import opened Wrappers

  datatype Node = File | Dir(entries: seq<Entry>)
  datatype Entry = Entry(name: string, node: Node)

  // ---------------------------------------------------------------------
  // the reference walk

  /**
   * The non-directory leaves below `es`, depth first in entry order, each as
   * its list of names from the root (`prefix` is the path to `es`).
   */
  function Leaves(es: seq<Entry>, prefix: seq<string>): seq<seq<string>>
    decreases es
  {
    if es == [] then []
    else
      var here := match es[0].node
        case File => [prefix + [es[0].name]]
        case Dir(children) => Leaves(children, prefix + [es[0].name]);
      here + Leaves(es[1..], prefix)
  }

  /** The leaves of one entry. */
  function EntryLeaves(e: Entry, prefix: seq<string>): seq<seq<string>>
  {
    Leaves([e], prefix)
  }

  /** How many files lie below `es`. */
  function FileCount(es: seq<Entry>): nat
    decreases es
  {
    if es == [] then 0
    else
      (match es[0].node case File => 1 case Dir(children) => FileCount(children)) + FileCount(es[1..])
  }

  /** `path` names a file below `es`: each name but the last opens a directory, the last a file. */
  predicate FileAt(es: seq<Entry>, path: seq<string>)
    decreases es
  {
    path != [] &&
    exists k :: 0 <= k < |es| && es[k].name == path[0] &&
      match es[k].node
      case File => |path| == 1
      case Dir(children) => FileAt(children, path[1..])
  }

  /** The names within each directory are distinct, as they are on a filesystem. */
  predicate UniqueNames(es: seq<Entry>)
    decreases es
  {
    && (forall i, j :: 0 <= i < j < |es| ==> es[i].name != es[j].name)
    && (forall i :: 0 <= i < |es| ==> match es[i].node case File => true case Dir(children) => UniqueNames(children))
  }

  predicate NoDuplicates<T(==)>(s: seq<T>)
  {
    forall i, j :: 0 <= i < j < |s| ==> s[i] != s[j]
  }

  // ---------------------------------------------------------------------
  // rendering, server.js:77-78

  /** `.replace(/\\/g, '/')`: every `\` becomes `/`. */
  function ReplaceBackslashes(s: string): (r: string)
    ensures |r| == |s|
    ensures forall i :: 0 <= i < |s| ==> r[i] == if s[i] == '\\' then '/' else s[i]
  {
    if s == [] then [] else [if s[0] == '\\' then '/' else s[0]] + ReplaceBackslashes(s[1..])
  }

  /** The path pushed for a file: its names joined by `/`, then every `\` turned into `/`. */
  function RelPath(path: seq<string>): (p: string)
    ensures forall i :: 0 <= i < |p| ==> p[i] != '\\'
  {
    ReplaceBackslashes(JoinSegs(path))
  }

  function RenderAll(paths: seq<seq<string>>): (ps: seq<string>)
    ensures |ps| == |paths|
    ensures forall i :: 0 <= i < |paths| ==> ps[i] == RelPath(paths[i])
  {
    if paths == [] then [] else [RelPath(paths[0])] + RenderAll(paths[1..])
  }

  // ---------------------------------------------------------------------
  // the walk, server.js:72-86

  /**
   * `listFiles(dir, baseDir)` for a directory that exists: for each entry in
   * order, a directory's own listing is appended, any other entry's path is
   * pushed.
   */
  method ListDir(entries: seq<Entry>, prefix: seq<string>) returns (results: seq<string>)
    ensures results == RenderAll(Leaves(entries, prefix))
    decreases entries
  {
    results := [];
    for i := 0 to |entries|
      invariant results == RenderAll(Leaves(entries[..i], prefix))
    {
      var it := entries[i];
      var path := prefix + [it.name];
      match it.node {
        case Dir(children) =>
          var sub := ListDir(children, path);
          results := results + sub;
        case File =>
          results := results + [RelPath(path)];
      }
      LeavesSnoc(entries, i, prefix);
    }
    assert entries[..|entries|] == entries;
  }

  /** `listFiles(baseDir, baseDir)`: an absent root lists nothing. */
  method ListFiles(root: Option<seq<Entry>>) returns (results: seq<string>)
    ensures root.None? ==> results == []
    ensures root.Some? ==> results == RenderAll(Leaves(root.value, []))
  {
    if root.None? {
      return [];
    }
    results := ListDir(root.value, []);
  }

  // ---------------------------------------------------------------------
  // what the walk produces

  lemma {:induction false} LeavesAppend(a: seq<Entry>, b: seq<Entry>, prefix: seq<string>)
    ensures Leaves(a + b, prefix) == Leaves(a, prefix) + Leaves(b, prefix)
    decreases a
  {
    if a == [] {
      assert a + b == b;
    } else {
      var e := a[0];
      var here := match e.node
        case File => [prefix + [e.name]]
        case Dir(children) => Leaves(children, prefix + [e.name]);
      assert (a + b)[0] == e;
      assert (a + b)[1..] == a[1..] + b;
      assert Leaves(a + b, prefix) == here + Leaves(a[1..] + b, prefix);
      assert Leaves(a, prefix) == here + Leaves(a[1..], prefix);
      LeavesAppend(a[1..], b, prefix);
    }
  }

  lemma RenderAllAppend(a: seq<seq<string>>, b: seq<seq<string>>)
    ensures RenderAll(a + b) == RenderAll(a) + RenderAll(b)
  {
  }

  lemma LeavesSnoc(entries: seq<Entry>, i: nat, prefix: seq<string>)
    requires i < |entries|
    ensures RenderAll(Leaves(entries[..i + 1], prefix)) ==
      RenderAll(Leaves(entries[..i], prefix)) + RenderAll(EntryLeaves(entries[i], prefix))
    ensures entries[i].node.File? ==> EntryLeaves(entries[i], prefix) == [prefix + [entries[i].name]]
    ensures entries[i].node.Dir? ==> EntryLeaves(entries[i], prefix) == Leaves(entries[i].node.entries, prefix + [entries[i].name])
  {
    assert entries[..i + 1] == entries[..i] + [entries[i]];
    LeavesAppend(entries[..i], [entries[i]], prefix);
    RenderAllAppend(Leaves(entries[..i], prefix), EntryLeaves(entries[i], prefix));
  }

  /** The walk lists one path per file. */
  lemma {:induction false} LeavesCount(es: seq<Entry>, prefix: seq<string>)
    ensures |Leaves(es, prefix)| == FileCount(es)
    decreases es
  {
    if es != [] {
      match es[0].node {
        case File =>
        case Dir(children) => LeavesCount(children, prefix + [es[0].name]);
      }
      LeavesCount(es[1..], prefix);
    }
  }

  /** The leaves of a non-empty run of entries: those of the first, then those of the rest. */
  lemma LeavesCons(es: seq<Entry>, prefix: seq<string>)
    requires es != []
    ensures Leaves(es, prefix) == EntryLeaves(es[0], prefix) + Leaves(es[1..], prefix)
    ensures es[0].node.File? ==> EntryLeaves(es[0], prefix) == [prefix + [es[0].name]]
    ensures es[0].node.Dir? ==> EntryLeaves(es[0], prefix) == Leaves(es[0].node.entries, prefix + [es[0].name])
  {
    assert [es[0]][1..] == [];
  }

  /** Every listed path extends `prefix`, and below it names a file. */
  lemma {:induction false} LeavesSound(es: seq<Entry>, prefix: seq<string>, path: seq<string>)
    requires path in Leaves(es, prefix)
    ensures |path| > |prefix| && path[..|prefix|] == prefix && FileAt(es, path[|prefix|..])
    decreases es
  {
    var e := es[0];
    LeavesCons(es, prefix);
    if path in EntryLeaves(e, prefix) {
      match e.node {
        case File =>
          assert path == prefix + [e.name];
          var tail := path[|prefix|..];
          assert tail == [e.name];
          FileAtFirst(es, tail);
        case Dir(children) =>
          var p2 := prefix + [e.name];
          LeavesSound(children, p2, path);
          var tail := path[|prefix|..];
          assert path[..|prefix|] == p2[..|prefix|];
          assert tail[1..] == path[|p2|..];
          assert tail[0] == e.name;
          FileAtFirst(es, tail);
      }
    } else {
      LeavesSound(es[1..], prefix, path);
      FileAtRest(es, path[|prefix|..]);
    }
  }

  /** A path through the first entry is a path through the run. */
  lemma FileAtFirst(es: seq<Entry>, path: seq<string>)
    requires es != [] && path != [] && es[0].name == path[0]
    requires match es[0].node case File => |path| == 1 case Dir(children) => FileAt(children, path[1..])
    ensures FileAt(es, path)
  {
  }

  /** A path through the entries after the first is a path through the run. */
  lemma FileAtRest(es: seq<Entry>, path: seq<string>)
    requires es != [] && FileAt(es[1..], path)
    ensures FileAt(es, path)
  {
    var k :| 0 <= k < |es[1..]| && es[1..][k].name == path[0] &&
      match es[1..][k].node
      case File => |path| == 1
      case Dir(children) => FileAt(children, path[1..]);
    assert es[k + 1] == es[1..][k];
  }

  /** Every file below `es` is listed. */
  lemma {:induction false} LeavesComplete(es: seq<Entry>, prefix: seq<string>, path: seq<string>)
    requires FileAt(es, path)
    ensures prefix + path in Leaves(es, prefix)
    decreases es
  {
    var k :| 0 <= k < |es| && es[k].name == path[0] &&
      match es[k].node
      case File => |path| == 1
      case Dir(children) => FileAt(children, path[1..]);
    var e := es[0];
    LeavesCons(es, prefix);
    if k == 0 {
      match e.node {
        case File =>
          assert path == [e.name];
        case Dir(children) =>
          LeavesComplete(children, prefix + [e.name], path[1..]);
          assert prefix + [e.name] + path[1..] == prefix + path;
      }
      assert prefix + path in EntryLeaves(e, prefix);
    } else {
      assert es[1..][k - 1] == es[k];
      assert FileAt(es[1..], path);
      LeavesComplete(es[1..], prefix, path);
    }
  }

  /** Every path listed below `es` continues `prefix` with the name of one of its entries. */
  lemma {:induction false} LeavesHead(es: seq<Entry>, prefix: seq<string>, path: seq<string>)
    requires path in Leaves(es, prefix)
    ensures |path| > |prefix| && path[..|prefix|] == prefix
    ensures exists k :: 0 <= k < |es| && es[k].name == path[|prefix|]
  {
    LeavesSound(es, prefix, path);
    assert path[|prefix|..][0] == path[|prefix|];
  }

  lemma NoDuplicatesConcat<T>(a: seq<T>, b: seq<T>)
    requires NoDuplicates(a) && NoDuplicates(b)
    requires forall x, y :: x in a && y in b ==> x != y
    ensures NoDuplicates(a + b)
  {
    forall i, j | 0 <= i < j < |a + b|
      ensures (a + b)[i] != (a + b)[j]
    {
      if j < |a| {
      } else if i >= |a| {
        assert (a + b)[i] == b[i - |a|];
        assert (a + b)[j] == b[j - |a|];
      } else {
        assert (a + b)[i] in a;
        assert (a + b)[j] in b;
      }
    }
  }

  lemma UniqueNamesParts(es: seq<Entry>)
    requires UniqueNames(es) && es != []
    ensures UniqueNames(es[1..])
    ensures es[0].node.Dir? ==> UniqueNames(es[0].node.entries)
    ensures forall k :: 1 <= k < |es| ==> es[k].name != es[0].name
  {
    forall i | 0 <= i < |es[1..]|
      ensures match es[1..][i].node case File => true case Dir(children) => UniqueNames(children)
    {
      assert es[1..][i] == es[i + 1];
    }
  }

  /** What the first entry lists and what the others list share no path, their names being distinct. */
  lemma FirstApart(es: seq<Entry>, prefix: seq<string>, a: seq<string>, b: seq<string>)
    requires es != [] && forall k :: 1 <= k < |es| ==> es[k].name != es[0].name
    requires a in EntryLeaves(es[0], prefix) && b in Leaves(es[1..], prefix)
    ensures a != b
  {
    var e := es[0];
    LeavesHead([e], prefix, a);
    var k0 :| 0 <= k0 < 1 && [e][k0].name == a[|prefix|];
    LeavesHead(es[1..], prefix, b);
    var k :| 0 <= k < |es[1..]| && es[1..][k].name == b[|prefix|];
    assert es[1..][k] == es[k + 1];
  }

  /** With distinct names in every directory, no path is listed twice. */
  lemma {:induction false} LeavesUnique(es: seq<Entry>, prefix: seq<string>)
    requires UniqueNames(es)
    ensures NoDuplicates(Leaves(es, prefix))
    decreases es
  {
    if es != [] {
      var e := es[0];
      UniqueNamesParts(es);
      LeavesAppend([e], es[1..], prefix);
      assert [e] + es[1..] == es;
      var here := EntryLeaves(e, prefix);
      var rest := Leaves(es[1..], prefix);
      assert NoDuplicates(here) by {
        assert here == (match e.node
          case File => [prefix + [e.name]]
          case Dir(children) => Leaves(children, prefix + [e.name])) + Leaves([], prefix);
        match e.node {
          case File =>
          case Dir(children) => LeavesUnique(children, prefix + [e.name]);
        }
      }
      LeavesUnique(es[1..], prefix);
      forall a, b | a in here && b in rest
        ensures a != b
      {
        FirstApart(es, prefix, a, b);
      }
      NoDuplicatesConcat(here, rest);
    }
  }

  /** Names joined by `/`, with no `/` inside a name, come apart again: the join is injective. */
  lemma JoinInjective(a: seq<string>, b: seq<string>)
    requires |a| >= 1 && |b| >= 1 && AllNoSep(a) && AllNoSep(b)
    requires JoinSegs(a) == JoinSegs(b)
    ensures a == b
  {
    SplitJoin(a);
    SplitJoin(b);
  }

  /** Replacing `\` changes nothing in a string that holds none. */
  lemma ReplaceNoBackslash(s: string)
    requires forall i :: 0 <= i < |s| ==> s[i] != '\\'
    ensures ReplaceBackslashes(s) == s
  {
  }

  predicate NoBackslash(seg: string)
  {
    forall i :: 0 <= i < |seg| ==> seg[i] != '\\'
  }

  lemma {:induction false} JoinNoBackslash(path: seq<string>)
    requires forall i :: 0 <= i < |path| ==> NoBackslash(path[i])
    ensures NoBackslash(JoinSegs(path))
  {
    if |path| > 1 {
      JoinNoBackslash(path[1..]);
    }
  }

  /**
   * Two paths of proper names, none holding `\`, render to the same string
   * only if they are the same path.
   */
  lemma RelPathInjective(a: seq<string>, b: seq<string>)
    requires |a| >= 1 && |b| >= 1 && AllNoSep(a) && AllNoSep(b)
    requires forall i :: 0 <= i < |a| ==> NoBackslash(a[i])
    requires forall i :: 0 <= i < |b| ==> NoBackslash(b[i])
    requires RelPath(a) == RelPath(b)
    ensures a == b
  {
    JoinNoBackslash(a);
    JoinNoBackslash(b);
    ReplaceNoBackslash(JoinSegs(a));
    ReplaceNoBackslash(JoinSegs(b));
    JoinInjective(a, b);
  }

  /** A string is listed exactly when it is the rendered path of some file in the tree. */
  lemma ListedIff(es: seq<Entry>, s: string)
    ensures s in RenderAll(Leaves(es, [])) <==> exists path :: FileAt(es, path) && s == RelPath(path)
  {
    var ls := Leaves(es, []);
    if s in RenderAll(ls) {
      var i :| 0 <= i < |ls| && RenderAll(ls)[i] == s;
      LeavesSound(es, [], ls[i]);
      assert ls[i][0..] == ls[i];
    }
    if exists path :: FileAt(es, path) && s == RelPath(path) {
      var path :| FileAt(es, path) && s == RelPath(path);
      LeavesComplete(es, [], path);
      assert [] + path == path;
      var i :| 0 <= i < |ls| && ls[i] == path;
      assert RenderAll(ls)[i] == s;
    }
  }

  /** A name as a POSIX directory read returns it, and free of `\`. */
  predicate PlainName(seg: string)
  {
    seg != "" && NoSep(seg) && NoBackslash(seg)
  }

  predicate PlainNames(es: seq<Entry>)
    decreases es
  {
    forall i :: 0 <= i < |es| ==>
      PlainName(es[i].name) && match es[i].node case File => true case Dir(children) => PlainNames(children)
  }

  /** The names along a listed path are the tree's names. */
  lemma {:induction false} LeavesPlain(es: seq<Entry>, prefix: seq<string>, path: seq<string>)
    requires PlainNames(es) && forall i :: 0 <= i < |prefix| ==> PlainName(prefix[i])
    requires path in Leaves(es, prefix)
    ensures |path| >= 1 && forall i :: 0 <= i < |path| ==> PlainName(path[i])
    decreases es
  {
    var e := es[0];
    var p2 := prefix + [e.name];
    var here := match e.node
      case File => [p2]
      case Dir(children) => Leaves(children, p2);
    assert Leaves(es, prefix) == here + Leaves(es[1..], prefix);
    assert PlainName(e.name);
    if path in here {
      match e.node {
        case File =>
          assert path == p2;
        case Dir(children) =>
          LeavesPlain(children, p2, path);
      }
    } else {
      assert PlainNames(es[1..]) by {
        forall i | 0 <= i < |es[1..]|
          ensures PlainName(es[1..][i].name)
          ensures match es[1..][i].node case File => true case Dir(children) => PlainNames(children)
        {
          assert es[1..][i] == es[i + 1];
        }
      }
      LeavesPlain(es[1..], prefix, path);
    }
  }

  /** With distinct names free of `\` in every directory, no rendered path is listed twice. */
  lemma ListingDistinct(es: seq<Entry>)
    requires UniqueNames(es) && PlainNames(es)
    ensures NoDuplicates(RenderAll(Leaves(es, [])))
  {
    var ls := Leaves(es, []);
    var rs := RenderAll(ls);
    LeavesUnique(es, []);
    forall i, j | 0 <= i < j < |rs|
      ensures rs[i] != rs[j]
    {
      assert ls[i] in ls && ls[j] in ls;
      LeavesPlain(es, [], ls[i]);
      LeavesPlain(es, [], ls[j]);
      if rs[i] == rs[j] {
        RelPathInjective(ls[i], ls[j]);
      }
    }
  }

  /**
   * A file named `a\b` beside a directory `a` holding a file `b`: both are
   * listed as `a/b`, because the `\` replacement meant for Windows
   * separators also rewrites a POSIX name.
   */
  lemma BackslashNamesCollide(es: seq<Entry>, odd: string, rendered: string)
    requires odd == "a\\b" && rendered == "a/b"
    requires es == [Entry(odd, File), Entry("a", Dir([Entry("b", File)]))]
    ensures Leaves(es, []) == [[odd], ["a", "b"]]
    ensures RenderAll(Leaves(es, [])) == [rendered, rendered]
  {
    var inner := [Entry("b", File)];
    var second := [Entry("a", Dir(inner))];
    assert Leaves(inner, ["a"]) == [["a", "b"]] by {
      assert Leaves(inner, ["a"]) == [["a"] + ["b"]] + Leaves(inner[1..], ["a"]);
      assert inner[1..] == [];
      assert ["a"] + ["b"] == ["a", "b"];
    }
    assert Leaves(second, []) == [["a", "b"]] by {
      assert second[0].node == Dir(inner);
      assert Leaves(second, []) == Leaves(inner, [] + ["a"]) + Leaves(second[1..], []);
      assert second[1..] == [];
      assert [] + ["a"] == ["a"];
    }
    assert Leaves(es, []) == [[odd], ["a", "b"]] by {
      assert es[0] == Entry(odd, File);
      assert es[1..] == second;
      assert Leaves(es, []) == [[] + [odd]] + Leaves(es[1..], []);
      assert [] + [odd] == [odd];
    }
    assert JoinSegs([odd]) == odd;
    assert ReplaceBackslashes(odd) == rendered;
    assert JoinSegs(["a", "b"]) == rendered;
    ReplaceNoBackslash(rendered);
    assert RelPath([odd]) == rendered;
    assert RelPath(["a", "b"]) == rendered;
    var ls := Leaves(es, []);
    assert ls == [[odd], ["a", "b"]];
    assert ls[0] == [odd] && ls[1] == ["a", "b"];
    assert RenderAll(ls) == [RelPath(ls[0]), RelPath(ls[1])];
  }
}
