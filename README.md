# File-and-folder uploader: path and naming core

This project models the naming logic of a small Express server, `server.js`. The server stores uploaded files and zip archives under `<dirname>/uploads`. It lists what is stored as download URLs, and it serves single files and zipped directories back. Everything outside that naming logic is left out: Express, multer, `fs`, `extract-zip` and `archiver` are plumbing. The model covers:

- **Download sanitiser** (`Download`). It follows `server.js:106-113` step by step:
  - a missing query gives a 400 response;
  - the path goes through Node's POSIX `path.normalize`, then the leading and trailing runs of `/` and `\` are cut off;
  - the result is joined onto the uploads directory;
  - the path is accepted only when the joined string starts with the uploads directory.

  After acceptance, a directory becomes a zip named after the last segment of the safe path, a file is sent as is, and a missing entry gives a 404. Node's `path.normalize`, `path.join` and `path.basename` are modelled in `PosixPath`: a path is split on `/`, a stack machine resolves `.` and `..`, and the segments are reassembled. `SanitizeConfined` and `RespondConfined` are a corrected variant that confines by path segment.
- **Upload classification** (`Upload`, `server.js:18-64`):
  - A name is an archive when its lower-cased form ends in `.zip`.
  - An archive is extracted into the uploads directory joined with `path.basename(name, '.zip')`.
  - Any other name loses its leading `/` characters and is written to the uploads directory joined with the rest.
  - The upload method classifies each file in request order and returns the reply count.
  - `ClassifyConfined` is a corrected variant that refuses targets outside the uploads directory.
- **Listing** (`Listing`, `server.js:72-86`). The directory tree is a datatype. `ListDir` is the loop of `listFiles`: it appends a file's root-relative path, or recurses into a directory's listing, entry by entry in read order. `ListFiles` adds the missing-root case.
- **URLs** (`Urls`, `server.js:10, 93-95`):
  - the defaults for port, host and protocol;
  - `encodeURI` over Unicode scalar values with UTF-8 percent escapes, and a reference decoder that undoes every escape;
  - the URL of each listed file;
  - `FileUrlInPath`, a corrected variant that also escapes `#` and `?`.
- `Storage` gives the uploads directory, `path.join(__dirname, 'uploads')`, as a segment sequence. `__dirname` is any absolute path.

Plain upload names are only stripped of their leading `/` characters (`server.js:51`), and no containment check follows. The model does the same; the consequence is listed under Findings.

## Model

| member | source | states |
|---|---|---|
| PosixPath.Normalize | server.js:109 | `path.normalize` keeps a leading `/` and a trailing `/`; its whole shape is stated by PosixPath.NormalizeShape |
| PosixPath.Join | server.js:111 | `path.join` onto an absolute path gives an absolute path; PosixPath.JoinBelowRoot, PosixPath.JoinClimb and PosixPath.JoinParent state where it lands |
| PosixPath.Basename | server.js:122 | `path.basename` without an extension, the last segment once trailing `/` are dropped; stated by PosixPath.BasenameOfJoin and Download.ZipNamesSuffix |
| PosixPath.BasenameExt | server.js:37 | `path.basename` with an extension: `""` when the path is the extension, otherwise the last segment with the extension removed unless that segment is the extension; stated by Upload.ExtractDirNameSpec |
| PosixPath.SplitJoin | server.js:109 | splitting a `/`-join of separator-free segments gives the segments back |
| PosixPath.JoinSplit | server.js:109 | joining the split of a path gives the path back |
| PosixPath.NormalizeShape | server.js:109 | `path.normalize` output is never empty; it assembles canonical segments (no empty or `.` segments, `..` only as a leading run of a relative path) and keeps the leading and trailing separator |
| PosixPath.AbsoluteNormalized | server.js:110 | an absolute path of proper segments is already normalized and splits into `""` followed by those segments |
| PosixPath.JoinBelowRoot | server.js:111 | joining a relative path that never climbs above its start onto an absolute root appends the resolved segments to the root, keeping a trailing separator |
| PosixPath.JoinClimb | server.js:111 | joining `../rest` onto `/d/c` gives `/d/rest`, the sibling of `c` |
| PosixPath.JoinParent | server.js:37 | joining `..` onto an absolute root gives its parent, a strictly shorter string |
| PosixPath.LeadingParentPersists | server.js:109 | a leading `..` of a relative path survives normalization |
| PosixPath.ResolveBelow | server.js:111 | resolving below a fixed base never removes base segments when the relative part does not climb |
| PosixPath.WithinSibling | server.js:112 | for `/d/c` and `/d/tail`, string prefix holds iff the joined tail starts with `c`; segment containment holds iff the tail is `c` or starts with `c/` |
| PosixPath.WithinStartsWith | server.js:112 | segment containment implies string prefix |
| PosixPath.WithinSegments | server.js:112 | a path within an absolute root has the root's segments as its leading segments |
| PosixPath.BasenameOfJoin | server.js:122-128 | `path.basename` of a join of segments is the last segment |
| PosixPath.TrimTrailingSepCuts | server.js:122 | the trailing-separator trim removes only separators from the end |
| Storage.BaseDir | server.js:24 | `path.join(__dirname, 'uploads')`; its shape is stated by Storage.BaseDirShape |
| Storage.BaseDirShape | server.js:110 | the uploads directory is `/` followed by the resolved `__dirname` segments and `uploads`, all proper |
| Download.TrimLeadingCuts | server.js:109 | the leading strip removes only `/` and `\` from the front and leaves no such character first |
| Download.TrimTrailingCuts | server.js:109 | the trailing strip removes only `/` and `\` from the end and leaves no such character last |
| Download.SafePath | server.js:109 | the safe path neither begins nor ends with `/` or `\`; Download.StripExposesParent shows it can still hold `..` after a segment |
| Download.StripSlashes | server.js:109 | the stripped path neither begins nor ends with `/` or `\` |
| Download.StripSlashesFramed | server.js:109 | the stripped path is the middle of the normalized path, framed by slash runs on both sides |
| Download.Sanitize | server.js:109-112 | an accepted request carries its safe path and the join of it onto the root, and that join starts with the root as a string |
| Download.AcceptedBelowRoot | server.js:109-112 | a safe path that never climbs is accepted by both checks, with the full path being the uploads directory followed by the resolved segments |
| Download.AcceptedVerbatim | server.js:111-112 | a nonempty safe path of proper segments is accepted with full path `baseDir + "/" + safe` |
| Download.SafePathOfNormal | server.js:109 | a path already in canonical relative form, with no slash at either end, is its own safe path |
| Download.ClimbTwice | server.js:111 | resolving `../../etc/passwd` below `d/uploads` gives the parent of `d` followed by `etc/passwd` |
| Download.EtcOutsideRoot | server.js:112 | the result of that climb does not start with the uploads directory |
| Download.EtcPasswdRejected | server.js:106-112 | `../../etc/passwd` is rejected and answered with "Invalid path" |
| Download.SiblingAccepted | server.js:111-112 | `../uploadsX/f` is accepted, and its full path lies outside the uploads directory |
| Download.SiblingPrefix | server.js:112 | the sibling `d/uploadsX/f` starts with `d/uploads` as a string but is not within it |
| Download.SanitizeConfined | server.js:111-112 | an accepted path is within the uploads directory and equals the join of its safe path |
| Download.SiblingRejectedWhenConfined | server.js:112 | the confined check rejects `../uploadsX/f` |
| Download.ConfinedNarrows | server.js:112 | whatever the confined check accepts, the string check accepts with the same result |
| Download.ConfinedSegments | server.js:112 | a path accepted by the confined check carries all of the uploads directory's segments first |
| Download.Serve | server.js:113-137 | "Not found" exactly when nothing exists at the path; a file or zip is served from that very path; a zip only for a directory, with the attachment named after the root entry plus `.zip` |
| Download.Respond | server.js:104-137 | the endpoint as written; what it serves is stated by Download.ServedPaths and Download.RespondConsultsOnlyFull |
| Download.RespondConfined | server.js:104-137 | the endpoint with the segment-wise check; compared with Download.Respond by Download.ConfinedRespondNarrows |
| Download.ServedPaths | server.js:109-137 | whatever the endpoint serves exists and lies at a path starting with the root's string; the confined endpoint serves only paths within the root by segment |
| Download.ConfinedRespondNarrows | server.js:112 | the confined endpoint answers as the endpoint as written or refuses with "Invalid path", and refuses everything the other refuses |
| Download.RespondConsultsOnlyFull | server.js:106-113 | the response depends on the filesystem only at the accepted full path; it is "Missing path" exactly when the query is absent or empty |
| Download.ZipNames | server.js:122-128 | the attachment name is the archive root name plus `.zip` |
| Download.ZipNamesSuffix | server.js:122-128 | the attachment name is the archive root name plus `.zip`; the root name has no separator and ends the safe path, trailing separators aside |
| Download.ZipNamesOfSegments | server.js:122-128 | for a safe path of proper segments both names come from its last segment, which is nonempty |
| Download.BasenameUnderRoot | server.js:122 | the basename of the full path equals the last segment of the safe path |
| Download.DirectoryZipNamed | server.js:109-128 | a directory reached by a proper safe path is sent as `<last segment>.zip` with archive root `<last segment>`, the basename of the full path |
| Download.RootDirectoryZip | server.js:109-128 | a request for `/` zips the uploads directory itself as `.zip` with an empty root name |
| Download.ExposedResolves | server.js:109 | `a/..` resolves to no segments and has basename `..` |
| Download.StripExposesParent | server.js:109-128 | `a/..\` normalizes and strips to `a/..`, is accepted as the uploads directory, and is zipped as `...zip` with root `..` |
| Upload.ToLower | server.js:28 | lower-casing of ASCII letters maps each character in place and keeps the length |
| Upload.IsArchiveName | server.js:28 | the lower-cased name ends in `.zip`; stated character by character by Upload.ArchiveNameIff |
| Upload.LowerEachSuffix | server.js:28 | under any per-character lowering that agrees with ASCII lowering and never ends a non-ASCII character's lowering in a character of the suffix, the suffix test decides alike |
| Upload.ArchiveUnderAnyLowering | server.js:28 | the archive decision made with full Unicode lowering equals the one made with ASCII lowering |
| Upload.ArchiveNameIff | server.js:28 | a name is an archive iff it ends in `.` followed by `z`, `i`, `p` in either case |
| Upload.ExtractDirName | server.js:37 | the extract directory name contains no separator |
| Upload.ExtractDirNameSpec | server.js:37 | the extract directory name is the last segment of the name, with an exact-case `.zip` removed unless the segment is `.zip` itself |
| Upload.UpperCaseArchive | server.js:28-37 | `A.ZIP` is an archive but is extracted into `A.ZIP` |
| Upload.NestedArchive | server.js:37 | `x/y/b.zip` is extracted into `b` |
| Upload.StripLeadingSeps | server.js:51 | the relative path does not start with `/` and is no longer than the name |
| Upload.StripLeadingCuts | server.js:51 | the relative path is a suffix of the name, and only `/` characters are removed before it |
| Upload.Classify | server.js:28-52 | an item is extracted exactly when it is an archive, into the uploads directory joined with a separator-free name; any other item is written to the uploads directory joined with a relative path that does not start with `/` |
| Upload.PlainRelPath | server.js:51-52 | a plain item is written at `name[k..]` joined onto the uploads directory, where `name[..k]` is all `/` and `name[k]`, if any, is not: the whole leading run of `/` is cut and nothing else |
| Upload.ClassifyConfined | server.js:28-52 | the confined variant passes on the same action when its target is within the uploads directory and refuses exactly when it is not |
| Upload.ClassifyAll | server.js:26 | one action per uploaded file |
| Upload.ClassifyAllAt | server.js:26-57 | the k-th action is the classification of the k-th file |
| Upload.HandleUpload | server.js:20-59 | no files or an empty list gives "No files uploaded" and no action; otherwise the reply counts the files and the actions are their classifications in order |
| Upload.PlainBelowRoot | server.js:51-52 | a plain name that never climbs is written below the uploads directory, and the confined variant accepts it |
| Upload.PlainEscapes | server.js:51-52 | `../evil.txt` is written to `evil.txt` beside the uploads directory, outside it, and the confined variant refuses it |
| Upload.DotDotZip | server.js:28-37 | `...zip` is an archive whose extract name is `..` |
| Upload.ArchiveEscapes | server.js:37 | `...zip` is extracted into the parent of the uploads directory, and the confined variant refuses it |
| Upload.ArchiveConfinedIff | server.js:37 | the confined variant accepts an archive iff its extract name is not `..` |
| Listing.Leaves | server.js:72-86 | the reference walk: the depth-first file paths of the tree in read order; stated by Listing.LeavesCount, Listing.LeavesSound, Listing.LeavesComplete and Listing.LeavesUnique |
| Listing.ReplaceBackslashes | server.js:78 | every `\` becomes `/`, and nothing else changes |
| Listing.RelPath | server.js:77-78 | a listed path contains no `\` |
| Listing.RenderAll | server.js:78-82 | one rendered path per leaf, in order |
| Listing.ListDir | server.js:75-85 | the loop's result is the rendered depth-first leaves of the entries, in read order |
| Listing.ListFiles | server.js:74-85 | a missing root lists nothing; otherwise the result is the rendered leaves of the tree |
| Listing.LeavesAppend | server.js:76-84 | the leaves of concatenated entry lists are the concatenated leaves |
| Listing.LeavesCount | server.js:79-83 | the number of listed paths equals the number of files in the tree |
| Listing.LeavesSound | server.js:79-83 | every listed path names a file of the tree below the prefix |
| Listing.LeavesComplete | server.js:79-83 | every file of the tree is listed |
| Listing.LeavesHead | server.js:76-83 | a listed path starts with the prefix followed by the name of one of the entries |
| Listing.LeavesUnique | server.js:79-83 | with unique names per directory, no segment path is listed twice |
| Listing.ListedIff | server.js:72-86 | a string is listed iff it renders some file's path |
| Listing.RelPathInjective | server.js:77-78 | rendering is injective on separator-free, backslash-free segment paths |
| Listing.ListingDistinct | server.js:72-86 | with unique, plain names, no rendered path is listed twice |
| Listing.BackslashNamesCollide | server.js:78 | a file `a\b` beside a directory `a` holding `b` is listed as `a/b` twice |
| Urls.Protocol | server.js:94 | the protocol is the request's when nonempty, and `http` otherwise |
| Urls.UploadsPrefix | server.js:95 | `protocol://host/uploads/`, the start of every listed URL; its defaults are stated by Urls.DefaultPrefix |
| Urls.DefaultPrefix | server.js:10-95 | with no `Host` header, `PORT` unset or empty and no request protocol, every listed URL starts with `http://localhost:3000/uploads/` |
| Urls.HostOverridesPort | server.js:10-95 | with a `Host` header the URL prefix is `protocol://<header>/uploads/`, whatever `PORT` is |
| Urls.FileUrl | server.js:95 | the uploads prefix followed by `encodeURI` of the path; stated by Urls.ItemsUrls and Urls.DecodeEncode |
| Urls.HexDigit | server.js:95 | a hexadecimal digit is alphanumeric and reads back as its value |
| Urls.Percent | server.js:95 | a percent escape is `%` followed by two alphanumerics |
| Urls.EncodeUri | server.js:95 | `encodeURI` output is at least as long as its input and holds only kept characters and `%` |
| Urls.HexRoundTrip | server.js:95 | a byte's escape reads back as that byte |
| Urls.ReadPercentAll | server.js:95 | a run of escapes reads back as its bytes |
| Urls.Utf8Shape | server.js:95 | UTF-8 encoding gives a valid lead byte, continuation bytes and the code point back |
| Urls.ReadCharOfEscapes | server.js:95 | the escaped UTF-8 bytes of a character decode as that character |
| Urls.DecodeEncode | server.js:95 | decoding `encodeURI(s)` gives `s` back |
| Urls.EncodeConcat | server.js:95 | `encodeURI` distributes over concatenation |
| Urls.EncodeIdentityIff | server.js:95 | `encodeURI` leaves a string unchanged iff all its characters are kept |
| Urls.Items | server.js:95 | one item per listed file, carrying that file's path |
| Urls.ItemsUrls | server.js:93-95 | every item URL is the uploads prefix followed by a string that decodes to the item's path |
| Urls.HashEndsPath | server.js:95 | the URL of `a#b.txt` carries the `#` unescaped |
| Urls.EncodePath | server.js:95 | the path-safe encoding holds only path characters and `%` |
| Urls.DecodeEncodePath | server.js:95 | decoding the path-safe encoding gives the path back |
| Urls.EncodePathAgrees | server.js:95 | on paths without `#` or `?`, the path-safe encoding equals `encodeURI` |
| Urls.FileUrlInPath | server.js:95 | the corrected URL is the uploads prefix followed by a tail that has no `#` or `?` and decodes to the path |

## Left out

- Express routing, multer buffering, static serving (`server.js:12, 66-69`) and `app.listen` (`server.js:144-146`): framework I/O with no naming logic.
- Filesystem calls (`existsSync`, `statSync`, `readdirSync`, `writeFileSync`, `unlinkSync`, `mkdirp`): existence and kind become inputs. `Respond` takes a kind function, and `ListFiles` takes an optional tree.
- `extract-zip` (`server.js:38`): a foreign library. The model computes the extract directory but says nothing about where archive entries land inside it.
- `archiver` streaming and compression (`server.js:117-131`): the model only computes the attachment name, the archive root name and the directory to archive.
- The temporary archive name `temp-${Date.now()}.zip` (`server.js:30`): it depends on the clock.
- Batch abort, error-to-HTTP mapping and 500 responses (`server.js:42-47, 60-62, 97-100, 138-141`), logging, and concurrency between requests.
- Windows path semantics: only POSIX `normalize`, `join` and `basename` are modelled, with `\` an ordinary character except in the regular expressions at `server.js:78` and `server.js:109`.
- `path.relative` (`server.js:78`) is modelled as the root-relative segment path the walk builds, which is what it returns for entries below the root.
- Lone surrogates: characters are Unicode scalar values, so the `URIError` that `encodeURI` raises for lone surrogates does not arise.
- Upload.HandleUpload: returns the list of actions instead of performing them, and does not model a failed extraction aborting the batch.
- Upload.ToLower: lowers the ASCII letters only, where `toLowerCase` lowers all of Unicode and can lengthen a string (U+0130 becomes two characters). The archive test is unaffected: Upload.ArchiveUnderAnyLowering proves the decision the same under any per-character lowering that agrees on ASCII and never ends a non-ASCII character's lowering in `.`, `z`, `i` or `p`, which holds of Unicode's lower-case mappings (the context-dependent final sigma lowers to a non-ASCII letter either way).
- Upload.StripLeadingSeps: its contract states the first character and the length; the exact cut is stated by Upload.StripLeadingCuts.
- Download.StripSlashes: its contract states the boundary characters, and the exact cuts are stated by Download.StripSlashesFramed, Download.TrimLeadingCuts and Download.TrimTrailingCuts.
- The property that `..` segments of the stripped path occur only as a leading run does not hold for the code as written (see Download.StripExposesParent). It is stated for the normalize output in PosixPath.NormalizeShape.

## Findings

| source | as written | input that shows it | evidently intended | confidence | as-written member | corrected member |
|---|---|---|---|---|---|---|
| server.js:112 | containment is a string-prefix test on the joined path | `../uploadsX/f` is accepted; it names `<dirname>/uploadsX/f`, outside the uploads directory | accept only paths inside the uploads directory, by segment | high (proved; not executed) | Download.SiblingAccepted | Download.SanitizeConfined |
| server.js:51-52 | plain names only lose leading `/`, and the join is never checked | `../evil.txt` is written to `<dirname>/evil.txt` | plain uploads stay inside the uploads directory | medium: proved of server.js as written; reachable only when the upload layer passes directory parts of the client file name through to `originalname`, and multer is not part of this model; not executed | Upload.PlainEscapes | Upload.ClassifyConfined |
| server.js:37 | the extract directory is the basename with `.zip` removed, and the join is never checked | `...zip` has extract name `..` and is extracted into `<dirname>` | archives are extracted inside the uploads directory | high (proved; not executed) | Upload.ArchiveEscapes | Upload.ClassifyConfined |
| server.js:95 | `encodeURI` leaves `#` and `?` unescaped in the path | `a#b.txt` gets URL `.../uploads/a#b.txt`, whose path ends at `#` | the URL path decodes to the listed file's path | high (proved; not executed) | Urls.HashEndsPath | Urls.FileUrlInPath |
