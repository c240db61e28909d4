/**
 * The storage root of server.js: `path.join(__dirname, 'uploads')`, used by
 * the upload, download and listing endpoints (server.js:24, 91, 110).
 * `__dirname` is the absolute directory of the server script; it is a
 * parameter here.
 */
module Storage {
  import opened PosixPath

  /** `path.join(__dirname, 'uploads')`: the storage root (server.js:24, 91, 110). */
  function BaseDir(dirname: string): string
  {
    Join(dirname, "uploads")
  }

  /** The segments of the storage root: the normalized `__dirname`, then `uploads`. */
  function RootSegs(dirname: string): seq<string>
  {
    Resolve(Split(dirname), false) + ["uploads"]
  }

  /** For an absolute `__dirname` the root is an absolute, normalized path ending in `/uploads`. */
  lemma BaseDirShape(dirname: string)
    requires |dirname| > 0 && dirname[0] == Sep
    ensures AllProper(Resolve(Split(dirname), false))
    ensures AllProper(RootSegs(dirname))
    ensures BaseDir(dirname) == "/" + JoinSegs(RootSegs(dirname))
  {
    var d := Resolve(Split(dirname), false);
    ResolvedAbsoluteProper(dirname);
    UploadsProper("uploads");
    AllProperSnoc(d, "uploads");
    JoinName(dirname, "uploads");
    PushProper(d, "uploads", false);
  }

  /** The segments of a normalized absolute path are all kept as they are. */
  lemma ResolvedAbsoluteProper(dirname: string)
    ensures AllProper(Resolve(Split(dirname), false))
  {
    var sd := Split(dirname);
    var d := Resolve(sd, false);
    SplitSegments(dirname);
    ResolveFromCanonical([], sd, false);
    forall i | 0 <= i < |d| ensures Proper(d[i]) { }
  }

  lemma UploadsProper(c: string)
    requires c == "uploads"
    ensures Proper(c)
  {
  }

  lemma AllProperSnoc(d: seq<string>, c: string)
    requires AllProper(d) && Proper(c)
    ensures AllProper(d + [c])
  {
    forall i | 0 <= i < |d| + 1 ensures Proper((d + [c])[i]) {
      if i < |d| {
        assert (d + [c])[i] == d[i];
      }
    }
  }
}
