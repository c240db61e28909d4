/**
 * The URL given to each listed file by `GET /files` (server.js:88-96):
 * `${protocol}://${host}/uploads/${encodeURI(p)}`, with `host` defaulting to
 * `localhost:` + the port and `protocol` to `http`.
 *
 * `encodeURI` follows section 18.2.6.4 of ECMA-262 (6th edition): a character
 * of the unescaped URI set is kept, any other is written as the `%XX` escapes
 * of its UTF-8 bytes, in upper-case hexadecimal. A Dafny `char` is a Unicode
 * scalar value, so the lone surrogates for which `encodeURI` throws do not
 * arise. `DecodeUri` is a reference decoder used to state what the encoding
 * preserves.
 */
module Urls {
  import opened Wrappers
  import opened Seqs

  type Byte = b: int | 0 <= b < 256

  // ---------------------------------------------------------------------
  // encodeURI

  predicate IsAlnum(c: char)
  {
    'a' <= c <= 'z' || 'A' <= c <= 'Z' || '0' <= c <= '9'
  }

  /** The characters `encodeURI` keeps: letters, digits, the marks `-_.!~*'()`, the reserved `;/?:@&=+$,` and `#`. */
  predicate Kept(c: char)
  {
    IsAlnum(c) || c in "-_.!~*'()" || c in ";/?:@&=+$,#"
  }

  /** The UTF-8 bytes of a Unicode scalar value. */
  function Utf8(c: char): (bytes: seq<Byte>)
    ensures 1 <= |bytes| <= 4
  {
    var cp := c as int;
    // the code point in base 64, lowest digit first
    var r1 := cp / 64;
    var r2 := r1 / 64;
    var r3 := r2 / 64;
    if cp < 0x80 then [cp]
    else if cp < 0x800 then [0xC0 + r1, 0x80 + cp % 64]
    else if cp < 0x10000 then [0xE0 + r2, 0x80 + r1 % 64, 0x80 + cp % 64]
    else [0xF0 + r3, 0x80 + r2 % 64, 0x80 + r1 % 64, 0x80 + cp % 64]
  }

  /** The upper-case hexadecimal digit for `0 <= d < 16`: `0`-`9`, then `A`-`F`. */
  function HexDigit(d: int): (c: char)
    requires 0 <= d < 16
    ensures IsAlnum(c) && HexValue(c) == Some(d)
  {
    if d < 10 then ('0' as int + d) as char else ('A' as int + d - 10) as char
  }

  /** One byte as `%` and two upper-case hexadecimal digits. */
  function Percent(b: Byte): (s: string)
    ensures |s| == 3 && s[0] == '%' && IsAlnum(s[1]) && IsAlnum(s[2])
  {
    ['%', HexDigit(b / 16), HexDigit(b % 16)]
  }

  function PercentAll(bs: seq<Byte>): (s: string)
    ensures |s| == 3 * |bs|
    ensures forall i :: 0 <= i < |s| ==> s[i] == '%' || IsAlnum(s[i])
  {
    if bs == [] then [] else Percent(bs[0]) + PercentAll(bs[1..])
  }

  function EncodeChar(c: char): string
  {
    if Kept(c) then [c] else PercentAll(Utf8(c))
  }

  /** `encodeURI(s)`: every character that is not kept becomes the escapes of its UTF-8 bytes. */
  function EncodeUri(s: string): (r: string)
    ensures |r| >= |s|
    ensures forall i :: 0 <= i < |r| ==> Kept(r[i]) || r[i] == '%'
  {
    if s == [] then [] else EncodeChar(s[0]) + EncodeUri(s[1..])
  }

  // ---------------------------------------------------------------------
  // the reference decoder

  function HexValue(c: char): Option<int>
  {
    if '0' <= c <= '9' then Some(c as int - '0' as int)
    else if 'A' <= c <= 'F' then Some(c as int - 'A' as int + 10)
    else if 'a' <= c <= 'f' then Some(c as int - 'a' as int + 10)
    else None
  }

  /** The byte written as `%XY` at the start of `s`. */
  function ReadByte(s: string): Option<Byte>
  {
    if |s| < 3 || s[0] != '%' then None
    else match (HexValue(s[1]), HexValue(s[2]))
      case (Some(hi), Some(lo)) => Some(hi * 16 + lo)
      case _ => None
  }

  /** The bytes written as `%XY%XY...` filling `s`. */
  function ReadBytes(s: string): Option<seq<Byte>>
    decreases |s|
  {
    if s == [] then Some([])
    else match ReadByte(s)
      case None => None
      case Some(b) =>
        match ReadBytes(s[3..])
        case None => None
        case Some(bs) => Some([b] + bs)
  }

  /** How many bytes a UTF-8 sequence with this first byte has; 0 for a byte that cannot start one. */
  function SequenceLength(b: Byte): nat
  {
    if b < 0x80 then 1
    else if 0xC0 <= b < 0xE0 then 2
    else if 0xE0 <= b < 0xF0 then 3
    else if 0xF0 <= b < 0xF8 then 4
    else 0
  }

  function CodePoint(bs: seq<Byte>): int
    requires 1 <= |bs| <= 4
  {
    var b := seq(|bs|, i requires 0 <= i < |bs| => bs[i] as int);
    if |b| == 1 then b[0]
    else if |b| == 2 then (b[0] - 0xC0) * 64 + (b[1] - 0x80)
    else if |b| == 3 then (b[0] - 0xE0) * 4096 + (b[1] - 0x80) * 64 + (b[2] - 0x80)
    else (b[0] - 0xF0) * 262144 + (b[1] - 0x80) * 4096 + (b[2] - 0x80) * 64 + (b[3] - 0x80)
  }

  predicate IsScalar(cp: int)
  {
    0 <= cp < 0xD800 || 0xE000 <= cp < 0x11_0000
  }

  /** The character whose UTF-8 escapes open `s`, and how many characters of `s` they take. */
  function ReadChar(s: string): Option<(char, nat)>
  {
    match ReadByte(s)
    case None => None
    case Some(b0) =>
      var n := SequenceLength(b0);
      if n == 0 || |s| < 3 * n then None
      else match ReadBytes(s[..3 * n])
        case None => None
        case Some(bs) =>
          if |bs| != n || exists k :: 1 <= k < n && !(0x80 <= bs[k] < 0xC0) then None
          else
            var cp := CodePoint(bs);
            if IsScalar(cp) then Some((cp as char, 3 * n)) else None
  }

  /** Undoes `%XX` escapes of UTF-8 sequences; any other character stands for itself. */
  function DecodeUri(s: string): Option<string>
    decreases |s|
  {
    if s == [] then Some([])
    else if s[0] != '%' then
      match DecodeUri(s[1..])
      case None => None
      case Some(t) => Some([s[0]] + t)
    else
      match ReadChar(s)
      case None => None
      case Some((c, len)) =>
        if len == 0 then None
        else
          match DecodeUri(s[len..])
          case None => None
          case Some(t) => Some([c] + t)
  }

  // ---------------------------------------------------------------------
  // what encodeURI preserves

  lemma HexRoundTrip(b: Byte)
    ensures ReadByte(Percent(b)) == Some(b)
  {
  }

  lemma {:induction false} ReadPercentAll(bs: seq<Byte>)
    ensures ReadBytes(PercentAll(bs)) == Some(bs)
  {
    if bs != [] {
      HexRoundTrip(bs[0]);
      ReadPercentAll(bs[1..]);
      ReadBytesCons(Percent(bs[0]), PercentAll(bs[1..]), bs[0], bs[1..]);
      ConsTail(bs);
    }
  }

  /** One escape in front of a run of escapes adds its byte in front of theirs. */
  lemma ReadBytesCons(p: string, t: string, b: Byte, bs: seq<Byte>)
    requires |p| == 3 && ReadByte(p) == Some(b) && ReadBytes(t) == Some(bs)
    ensures ReadBytes(p + t) == Some([b] + bs)
  {
    ReadByteConcat(p, t);
    assert (p + t)[3..] == t;
  }

  /** `ReadByte` looks at the first three characters only. */
  lemma ReadByteConcat(p: string, t: string)
    requires |p| >= 3
    ensures ReadByte(p + t) == ReadByte(p)
  {
    var s := p + t;
    assert s[0] == p[0] && s[1] == p[1] && s[2] == p[2];
  }

  lemma PrefixOfConcat<T>(e: seq<T>, rest: seq<T>)
    ensures (e + rest)[..|e|] == e
  {
  }

  /** The first byte of a character's UTF-8 gives the sequence's length; the others are continuation bytes. */
  lemma Utf8Shape(c: char)
    ensures var bs := Utf8(c);
      && SequenceLength(bs[0]) == |bs|
      && (forall k :: 1 <= k < |bs| ==> 0x80 <= bs[k] < 0xC0)
      && CodePoint(bs) == c as int
  {
    var cp := c as int;
    var r1 := cp / 64;
    var r2 := r1 / 64;
    var r3 := r2 / 64;
    assert cp == r1 * 64 + cp % 64;
    assert r1 == r2 * 64 + r1 % 64;
    assert r2 == r3 * 64 + r2 % 64;
  }

  /** The escapes of a character's UTF-8 bytes read back as that character. */
  lemma ReadCharOfEscapes(c: char, rest: string)
    ensures ReadChar(PercentAll(Utf8(c)) + rest) == Some((c, 3 * |Utf8(c)|))
  {
    var bs := Utf8(c);
    var e := PercentAll(bs);
    Utf8Shape(c);
    HexRoundTrip(bs[0]);
    ReadByteConcat(Percent(bs[0]), PercentAll(bs[1..]));
    ReadByteConcat(e, rest);
    PrefixOfConcat(e, rest);
    ReadPercentAll(bs);
    ReadCharOf(e + rest, c, bs);
  }

  /** A well-formed UTF-8 sequence written as escapes at the front of `s` is read as its character. */
  lemma ReadCharOf(s: string, c: char, bs: seq<Byte>)
    requires 1 <= |bs| <= 4 && SequenceLength(bs[0]) == |bs|
    requires forall k :: 1 <= k < |bs| ==> 0x80 <= bs[k] < 0xC0
    requires CodePoint(bs) == c as int
    requires ReadByte(s) == Some(bs[0]) && 3 * |bs| <= |s| && ReadBytes(s[..3 * |bs|]) == Some(bs)
    ensures ReadChar(s) == Some((c, 3 * |bs|))
  {
  }

  lemma DecodeEncodedChar(c: char, rest: string)
    ensures DecodeUri(EncodeChar(c) + rest) ==
      match DecodeUri(rest) case None => None case Some(t) => Some([c] + t)
  {
    var s := EncodeChar(c) + rest;
    if Kept(c) {
      assert s[0] == c && c != '%';
      assert s[1..] == rest;
    } else {
      var e := PercentAll(Utf8(c));
      ReadCharOfEscapes(c, rest);
      assert s[0] == '%';
      assert s[|e|..] == rest;
    }
  }

  /** Decoding undoes `encodeURI`: the listed URL names exactly the listed path. */
  lemma {:induction false} DecodeEncode(s: string)
    ensures DecodeUri(EncodeUri(s)) == Some(s)
  {
    if s != [] {
      DecodeEncode(s[1..]);
      DecodeEncodedChar(s[0], EncodeUri(s[1..]));
      ConsTail(s);
    }
  }

  /** `encodeURI` works character by character. */
  lemma {:induction false} EncodeConcat(a: string, b: string)
    ensures EncodeUri(a + b) == EncodeUri(a) + EncodeUri(b)
  {
    if a == [] {
      assert a + b == b;
    } else {
      ConsConcat(a, b);
      EncodeConcat(a[1..], b);
      Assoc(EncodeChar(a[0]), EncodeUri(a[1..]), EncodeUri(b));
    }
  }

  lemma ConsConcat<T>(a: seq<T>, b: seq<T>)
    requires a != []
    ensures a + b != [] && (a + b)[0] == a[0] && (a + b)[1..] == a[1..] + b
  {
  }

  /** `encodeURI` leaves a string unchanged exactly when every character in it is kept. */
  lemma {:induction false} EncodeIdentityIff(s: string)
    ensures EncodeUri(s) == s <==> forall i :: 0 <= i < |s| ==> Kept(s[i])
  {
    if s != [] {
      EncodeIdentityIff(s[1..]);
      var e := EncodeChar(s[0]);
      var r := EncodeUri(s[1..]);
      assert EncodeUri(s) == e + r;
      if Kept(s[0]) {
        assert e == [s[0]];
        if EncodeUri(s) == s {
          assert r == s[1..];
        }
        if forall i :: 0 <= i < |s| ==> Kept(s[i]) {
          assert forall i :: 0 <= i < |s[1..]| ==> Kept(s[1..][i]) by {
            forall i | 0 <= i < |s[1..]| ensures Kept(s[1..][i]) {
              assert s[1..][i] == s[i + 1];
            }
          }
          assert [s[0]] + s[1..] == s;
        }
      } else {
        assert |e| >= 3;
        assert |EncodeUri(s)| > |s|;
      }
    }
  }

  // ---------------------------------------------------------------------
  // the URL, server.js:91-95

  /** `process.env.PORT || 3000`: an unset or empty variable gives port 3000. */
  function Port(env: Option<string>): (port: string)
    ensures env.Some? && env.value != "" ==> port == env.value
    ensures env.None? || env.value == "" ==> port == "3000"
  {
    if env.None? || env.value == "" then "3000" else env.value
  }

  /** `req.headers.host || `localhost:${PORT}``. */
  function Host(header: Option<string>, port: string): (host: string)
    ensures header.Some? && header.value != "" ==> host == header.value
    ensures header.None? || header.value == "" ==> host == "localhost:" + port
  {
    if header.None? || header.value == "" then "localhost:" + port else header.value
  }

  /** `req.protocol || 'http'`. */
  function Protocol(protocol: string): (p: string)
    ensures p != ""
    ensures protocol != "" ==> p == protocol
    ensures protocol == "" ==> p == "http"
  {
    if protocol == "" then "http" else protocol
  }

  /** The prefix every listed URL starts with. */
  function UploadsPrefix(protocol: string, host: string): string
  {
    protocol + "://" + host + "/uploads/"
  }

  /**
   * With no `Host` header, `PORT` unset and no protocol on the request, every
   * listed URL starts with `http://localhost:3000/uploads/`.
   */
  lemma DefaultPrefix(env: Option<string>, header: Option<string>, protocol: string)
    requires env.None? || env.value == ""
    requires header.None? || header.value == ""
    requires protocol == ""
    ensures UploadsPrefix(Protocol(protocol), Host(header, Port(env))) == "http://localhost:3000/uploads/"
  {
  }

  /** A `Host` header decides the host alone: `PORT` then plays no part in any URL. */
  lemma HostOverridesPort(env1: Option<string>, env2: Option<string>, header: Option<string>, protocol: string)
    requires header.Some? && header.value != ""
    ensures UploadsPrefix(Protocol(protocol), Host(header, Port(env1)))
         == UploadsPrefix(Protocol(protocol), Host(header, Port(env2)))
         == Protocol(protocol) + "://" + header.value + "/uploads/"
  {
  }

  function FileUrl(protocol: string, host: string, p: string): string
  {
    UploadsPrefix(protocol, host) + EncodeUri(p)
  }

  datatype Item = Item(path: string, url: string)

  /** `files.map(p => ({ path: p, url: ... }))`. */
  function Items(protocol: string, host: string, files: seq<string>): (items: seq<Item>)
    ensures |items| == |files|
    ensures forall i :: 0 <= i < |files| ==> items[i].path == files[i]
  {
    if files == [] then [] else [Item(files[0], FileUrl(protocol, host, files[0]))] + Items(protocol, host, files[1..])
  }

  /**
   * Each item's URL is the uploads prefix followed by text that decodes back
   * to the item's own path.
   */
  lemma {:induction false} ItemsUrls(protocol: string, host: string, files: seq<string>)
    ensures var items := Items(protocol, host, files);
      var pre := UploadsPrefix(protocol, host);
      forall i :: 0 <= i < |items| ==>
        && |pre| <= |items[i].url| && items[i].url[..|pre|] == pre
        && DecodeUri(items[i].url[|pre|..]) == Some(items[i].path)
  {
    var items := Items(protocol, host, files);
    var pre := UploadsPrefix(protocol, host);
    if files != [] {
      ItemsUrls(protocol, host, files[1..]);
      forall i | 0 <= i < |items|
        ensures |pre| <= |items[i].url| && items[i].url[..|pre|] == pre
        ensures DecodeUri(items[i].url[|pre|..]) == Some(items[i].path)
      {
        if i == 0 {
          var u := FileUrl(protocol, host, files[0]);
          assert u[|pre|..] == EncodeUri(files[0]);
          DecodeEncode(files[0]);
        } else {
          assert items[i] == Items(protocol, host, files[1..])[i - 1];
        }
      }
    }
  }

  // ---------------------------------------------------------------------
  // `#` and `?` in a listed name

  /**
   * `encodeURI` keeps `#` and `?`, so a file named `a#b.txt` is listed with
   * the URL `.../uploads/a#b.txt`, whose path ends at `a`: the rest is read
   * as a fragment and the link does not name the file.
   */
  lemma HashEndsPath(protocol: string, host: string, p: string)
    requires p == "a#b.txt"
    ensures FileUrl(protocol, host, p) == UploadsPrefix(protocol, host) + p
    ensures p[1] == '#'
  {
    EncodeIdentityIff(p);
  }

  /** What a URL path may hold unescaped: the kept characters except `#` and `?`, which end the path. */
  predicate PathKept(c: char)
  {
    Kept(c) && c != '#' && c != '?'
  }

  function EncodePathChar(c: char): string
  {
    if PathKept(c) then [c] else PercentAll(Utf8(c))
  }

  /** `encodeURI` that also escapes `#` and `?`: the whole result stays in the URL's path. */
  function EncodePath(s: string): (r: string)
    ensures forall i :: 0 <= i < |r| ==> PathKept(r[i]) || r[i] == '%'
  {
    if s == [] then [] else EncodePathChar(s[0]) + EncodePath(s[1..])
  }

  lemma DecodeEncodedPathChar(c: char, rest: string)
    ensures DecodeUri(EncodePathChar(c) + rest) ==
      match DecodeUri(rest) case None => None case Some(t) => Some([c] + t)
  {
    var s := EncodePathChar(c) + rest;
    if PathKept(c) {
      assert s[0] == c && c != '%';
      assert s[1..] == rest;
    } else {
      var e := PercentAll(Utf8(c));
      ReadCharOfEscapes(c, rest);
      assert s[0] == '%';
      assert s[|e|..] == rest;
    }
  }

  /** The corrected path encoding decodes back to the listed path. */
  lemma {:induction false} DecodeEncodePath(s: string)
    ensures DecodeUri(EncodePath(s)) == Some(s)
  {
    if s != [] {
      DecodeEncodePath(s[1..]);
      DecodeEncodedPathChar(s[0], EncodePath(s[1..]));
      ConsTail(s);
    }
  }

  /** On names without `#` or `?` the corrected encoding is `encodeURI`. */
  lemma {:induction false} EncodePathAgrees(s: string)
    requires forall i :: 0 <= i < |s| ==> s[i] != '#' && s[i] != '?'
    ensures EncodePath(s) == EncodeUri(s)
  {
    if s != [] {
      EncodePathAgrees(s[1..]);
    }
  }

  /** The listing URL with the corrected path encoding. */
  function FileUrlInPath(protocol: string, host: string, p: string): (url: string)
    ensures var pre := UploadsPrefix(protocol, host);
      && |pre| <= |url| && url[..|pre|] == pre
      && (forall i :: |pre| <= i < |url| ==> url[i] != '#' && url[i] != '?')
      && DecodeUri(url[|pre|..]) == Some(p)
  {
    var pre := UploadsPrefix(protocol, host);
    var url := pre + EncodePath(p);
    assert url[|pre|..] == EncodePath(p);
    DecodeEncodePath(p);
    url
  }
}
