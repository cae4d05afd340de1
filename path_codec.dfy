/**
  The adapter's path codec: `applyPathPrefix` splits a path on "/",
  percent-encodes every segment with PHP's `rawurlencode` (section 2.1 of
  RFC 3986, keeping exactly the unreserved characters of section 2.3),
  joins the segments with "/" again and hands the result to the inherited
  prefixer, modelled here as prepending a fixed prefix.

  On top of it sit the object locations and request URLs the adapter
  builds: `ENDPOINT + "/" + applyPathPrefix(container + "/" + path)`, with
  "?format=json" appended for writes and listings.
 */
module PathCodec {
  import opened PhpStrings

  const Slash: PhpString := "/"
  const JsonQuery: PhpString := "?format=json"

  /** The unreserved characters of section 2.3 of RFC 3986. */
  predicate Unreserved(c: Byte) {
    || 'A' <= c <= 'Z' || 'a' <= c <= 'z' || '0' <= c <= '9'
    || c == '-' || c == '.' || c == '_' || c == '~'
  }

  predicate AllUnreserved(s: PhpString) {
    forall i :: 0 <= i < |s| ==> Unreserved(s[i])
  }

  predicate IsUpperHexDigit(c: Byte) {
    '0' <= c <= '9' || 'A' <= c <= 'F'
  }

  predicate IsHexDigit(c: Byte) {
    IsUpperHexDigit(c) || 'a' <= c <= 'f'
  }

  /** The upper-case hexadecimal digit that `rawurlencode` writes for `d`. */
  function HexDigit(d: int): (c: Byte)
    requires 0 <= d < 16
    ensures IsUpperHexDigit(c) && Unreserved(c)
  {
    if d < 10 then ('0' as int + d) as char else ('A' as int + d - 10) as char
  }

  /** The value of a hexadecimal digit of either case. */
  function HexValue(c: Byte): (d: int)
    requires IsHexDigit(c)
    ensures 0 <= d < 16
  {
    if c <= '9' then c as int - '0' as int
    else if c <= 'F' then c as int - 'A' as int + 10
    else c as int - 'a' as int + 10
  }

  lemma HexValueOfDigit(d: int)
    requires 0 <= d < 16
    ensures HexValue(HexDigit(d)) == d
  {
  }

  /** One byte as `rawurlencode` writes it: itself, or "%" and two digits. */
  function EncodeByte(c: Byte): PhpString {
    if Unreserved(c) then [c]
    else ['%', HexDigit(c as int / 16), HexDigit(c as int % 16)]
  }

  /** PHP's `rawurlencode`, applied to one path segment. */
  function PercentEncode(s: PhpString): PhpString
    decreases |s|
  {
    if |s| == 0 then [] else EncodeByte(s[0]) + PercentEncode(s[1..])
  }

  /** The inverse of percent-encoding, accepting hex digits of either case. */
  function PercentDecode(s: PhpString): PhpString
    decreases |s|
  {
    if |s| == 0 then []
    else if |s| >= 3 && s[0] == '%' && IsHexDigit(s[1]) && IsHexDigit(s[2]) then
      [(16 * HexValue(s[1]) + HexValue(s[2])) as char] + PercentDecode(s[3..])
    else [s[0]] + PercentDecode(s[1..])
  }

  /**
    `s` is a well-formed output of `rawurlencode`: unreserved characters and
    "%XX" triples with upper-case hex digits, and nothing else.
   */
  predicate WellEncoded(s: PhpString)
    decreases |s|
  {
    if |s| == 0 then true
    else if Unreserved(s[0]) then WellEncoded(s[1..])
    else |s| >= 3 && s[0] == '%' && IsUpperHexDigit(s[1]) && IsUpperHexDigit(s[2]) && WellEncoded(s[3..])
  }

  /** The segments of a path are percent-encoded one by one. */
  function EncodeEach(segments: seq<PhpString>): (encoded: seq<PhpString>)
    ensures |encoded| == |segments|
    ensures forall i :: 0 <= i < |segments| ==> encoded[i] == PercentEncode(segments[i])
    decreases |segments|
  {
    if |segments| == 0 then [] else [PercentEncode(segments[0])] + EncodeEach(segments[1..])
  }

  /** `join('/', array_map('rawurlencode', explode('/', path)))`. */
  function EncodePath(path: PhpString): PhpString {
    Join(Slash, EncodeEach(Explode(Slash, path)))
  }

  /** This adapter's `applyPathPrefix`: encode, then prepend the prefix. */
  function ApplyPathPrefix(prefix: PhpString, path: PhpString): PhpString {
    prefix + EncodePath(path)
  }

  /** The `$pathPrefix` of an object operation: `applyPathPrefix(container . '/' . path)`. */
  function Location(prefix: PhpString, container: PhpString, path: PhpString): PhpString {
    ApplyPathPrefix(prefix, container + Slash + path)
  }

  /** The URL of a request on a location: `ENDPOINT . '/' . location`. */
  function ObjectUrl(endpoint: PhpString, location: PhpString): PhpString {
    endpoint + Slash + location
  }

  /** The URL used by write and listing: the object URL with "?format=json". */
  function JsonUrl(endpoint: PhpString, location: PhpString): PhpString {
    ObjectUrl(endpoint, location) + JsonQuery
  }

  /**
    The location `has` ends up requesting: it applies the prefix to the
    path, and `objectExists` then builds a location from that result, so
    the path is encoded (and prefixed) twice.
   */
  function HasLocation(prefix: PhpString, container: PhpString, path: PhpString): PhpString {
    Location(prefix, container, ApplyPathPrefix(prefix, path))
  }

  // ---------------------------------------------------------------------
  // Percent-encoding of one segment

  lemma EncodeByteWellFormed(c: Byte, rest: PhpString)
    requires WellEncoded(rest)
    ensures WellEncoded(EncodeByte(c) + rest)
  {
    var e := EncodeByte(c) + rest;
    if Unreserved(c) {
      assert e[1..] == rest;
    } else {
      assert e[3..] == rest;
    }
  }

  /** An encoded segment consists only of unreserved characters and %XX triples. */
  lemma {:induction false} EncodeWellFormed(s: PhpString)
    ensures WellEncoded(PercentEncode(s))
    decreases |s|
  {
    if |s| > 0 {
      EncodeWellFormed(s[1..]);
      EncodeByteWellFormed(s[0], PercentEncode(s[1..]));
    }
  }

  /** A well-formed encoding holds only unreserved characters and "%". */
  lemma {:induction false} WellEncodedChars(s: PhpString)
    requires WellEncoded(s)
    ensures forall i :: 0 <= i < |s| ==> Unreserved(s[i]) || s[i] == '%'
    decreases |s|
  {
    if |s| > 0 {
      if Unreserved(s[0]) {
        WellEncodedChars(s[1..]);
        assert forall i :: 1 <= i < |s| ==> s[i] == s[1..][i - 1];
      } else {
        WellEncodedChars(s[3..]);
        assert forall i :: 3 <= i < |s| ==> s[i] == s[3..][i - 3];
      }
    }
  }

  /** Encoded segments contain neither "/" nor "?". */
  lemma EncodedHasNoSlash(s: PhpString)
    ensures '/' !in PercentEncode(s) && '?' !in PercentEncode(s)
  {
    EncodeWellFormed(s);
    WellEncodedChars(PercentEncode(s));
  }

  lemma DecodeEncodeByte(c: Byte, rest: PhpString)
    ensures PercentDecode(EncodeByte(c) + rest) == [c] + PercentDecode(rest)
  {
    var e := EncodeByte(c) + rest;
    if Unreserved(c) {
      assert e[1..] == rest;
    } else {
      HexValueOfDigit(c as int / 16);
      HexValueOfDigit(c as int % 16);
      assert e[3..] == rest;
    }
  }

  /** Percent-encoding loses nothing: decoding gives the segment back. */
  lemma {:induction false} DecodeEncode(s: PhpString)
    ensures PercentDecode(PercentEncode(s)) == s
    decreases |s|
  {
    if |s| > 0 {
      DecodeEncode(s[1..]);
      DecodeEncodeByte(s[0], PercentEncode(s[1..]));
      assert s == [s[0]] + s[1..];
    }
  }

  lemma {:induction false} EncodeLength(s: PhpString)
    ensures |PercentEncode(s)| >= |s|
    ensures |PercentEncode(s)| == |s| ==> AllUnreserved(s)
    decreases |s|
  {
    if |s| > 0 {
      EncodeLength(s[1..]);
      assert forall i :: 1 <= i < |s| ==> s[i] == s[1..][i - 1];
    }
  }

  /** A segment is left unchanged exactly when it is made of unreserved characters. */
  lemma {:induction false} EncodeFixedPoint(s: PhpString)
    ensures PercentEncode(s) == s <==> AllUnreserved(s)
    decreases |s|
  {
    EncodeLength(s);
    if |s| > 0 && AllUnreserved(s) {
      EncodeFixedPoint(s[1..]);
      assert AllUnreserved(s[1..]) by {
        assert forall i :: 0 <= i < |s| - 1 ==> s[1..][i] == s[i + 1];
      }
      assert s == [s[0]] + s[1..];
    }
  }

  lemma {:induction false} EncodedUnreservedOnly(s: PhpString)
    requires AllUnreserved(PercentEncode(s))
    ensures AllUnreserved(s)
    decreases |s|
  {
    if |s| > 0 {
      var e := PercentEncode(s);
      assert e == EncodeByte(s[0]) + PercentEncode(s[1..]);
      assert Unreserved(s[0]) by {
        assert Unreserved(e[0]);
      }
      assert PercentEncode(s[1..]) == e[1..];
      assert AllUnreserved(e[1..]) by {
        assert forall i :: 0 <= i < |e| - 1 ==> e[1..][i] == e[i + 1];
      }
      EncodedUnreservedOnly(s[1..]);
      assert forall i :: 1 <= i < |s| ==> s[i] == s[1..][i - 1];
    }
  }

  /**
    Encoding twice is encoding once exactly when the segment needs no
    encoding at all: any escape "%XX" is itself escaped to "%25XX".
   */
  lemma EncodeTwice(s: PhpString)
    ensures PercentEncode(PercentEncode(s)) == PercentEncode(s) <==> AllUnreserved(s)
  {
    EncodeFixedPoint(s);
    EncodeFixedPoint(PercentEncode(s));
    if AllUnreserved(PercentEncode(s)) {
      EncodedUnreservedOnly(s);
    }
  }

  /** A segment with a space, encoded once and twice. */
  lemma EncodeSpace()
    ensures PercentEncode("a b") == "a%20b"
    ensures PercentEncode("a%20b") == "a%2520b"
  {
    var once: PhpString := "a b";
    assert PercentEncode(once[2..]) == "b";
    assert PercentEncode(once[1..]) == "%20b";
    var twice: PhpString := "a%20b";
    assert PercentEncode(twice[4..]) == "b";
    assert PercentEncode(twice[3..]) == "0b";
    assert PercentEncode(twice[2..]) == "20b";
    assert PercentEncode(twice[1..]) == "%2520b";
  }

  // ---------------------------------------------------------------------
  // Encoding whole paths

  lemma EncodedSegmentsFree(segments: seq<PhpString>)
    ensures forall i :: 0 <= i < |segments| ==> Free(Slash, EncodeEach(segments)[i])
  {
    forall i | 0 <= i < |segments|
      ensures Free(Slash, EncodeEach(segments)[i])
    {
      EncodedHasNoSlash(segments[i]);
      SingleCharFree<Byte>('/', PercentEncode(segments[i]));
      assert Slash == ['/'];
    }
  }

  /**
    Encoding keeps the "/" separators: the segments of the encoded path are
    the encoded segments of the path, as many and in the same order.
   */
  lemma EncodePathSegments(path: PhpString)
    ensures Explode(Slash, EncodePath(path)) == EncodeEach(Explode(Slash, path))
    ensures |Explode(Slash, EncodePath(path))| == |Explode(Slash, path)|
    ensures forall i :: 0 <= i < |Explode(Slash, EncodePath(path))| ==>
      var segment := Explode(Slash, EncodePath(path))[i];
      WellEncoded(segment) && '/' !in segment
  {
    var segments := Explode(Slash, path);
    EncodedSegmentsFree(segments);
    ExplodeJoin(Slash, EncodeEach(segments));
    forall i | 0 <= i < |segments|
      ensures WellEncoded(PercentEncode(segments[i])) && '/' !in PercentEncode(segments[i])
    {
      EncodeWellFormed(segments[i]);
      EncodedHasNoSlash(segments[i]);
    }
  }

  /** A path is left unchanged exactly when each of its segments is unreserved. */
  lemma EncodePathFixedPoint(path: PhpString)
    ensures EncodePath(path) == path <==>
      forall i :: 0 <= i < |Explode(Slash, path)| ==> AllUnreserved(Explode(Slash, path)[i])
  {
    var segments := Explode(Slash, path);
    JoinExplode(Slash, path);
    forall i | 0 <= i < |segments|
      ensures PercentEncode(segments[i]) == segments[i] <==> AllUnreserved(segments[i])
    {
      EncodeFixedPoint(segments[i]);
    }
    if forall i :: 0 <= i < |segments| ==> AllUnreserved(segments[i]) {
      assert EncodeEach(segments) == segments;
    }
    if EncodePath(path) == path {
      EncodePathSegments(path);
    }
  }

  /** Distinct paths have distinct encodings. */
  lemma EncodePathInjective(p: PhpString, q: PhpString)
    requires EncodePath(p) == EncodePath(q)
    ensures p == q
  {
    EncodePathSegments(p);
    EncodePathSegments(q);
    var sp, sq := Explode(Slash, p), Explode(Slash, q);
    assert EncodeEach(sp) == EncodeEach(sq);
    forall i | 0 <= i < |sp|
      ensures sp[i] == sq[i]
    {
      DecodeEncode(sp[i]);
      DecodeEncode(sq[i]);
    }
    assert sp == sq;
    JoinExplode(Slash, p);
    JoinExplode(Slash, q);
  }

  /** Encoding `a/b` encodes `a` and `b` and keeps the separator between them. */
  lemma EncodePathConcat(a: PhpString, b: PhpString)
    ensures EncodePath(a + Slash + b) == EncodePath(a) + Slash + EncodePath(b)
  {
    var sa, sb := Explode(Slash, a), Explode(Slash, b);
    ExplodeConcat(Slash, a, b);
    assert EncodeEach(sa + sb) == EncodeEach(sa) + EncodeEach(sb);
    JoinAppend(Slash, EncodeEach(sa), EncodeEach(sb));
  }

  /** An encoded path holds only unreserved characters, "%" and "/". */
  lemma EncodePathChars(path: PhpString)
    ensures forall i :: 0 <= i < |EncodePath(path)| ==>
      var c := EncodePath(path)[i];
      Unreserved(c) || c == '%' || c == '/'
  {
    var segments := EncodeEach(Explode(Slash, path));
    forall j | 0 <= j < |segments|
      ensures forall i :: 0 <= i < |segments[j]| ==> Unreserved(segments[j][i]) || segments[j][i] == '%'
    {
      EncodeWellFormed(Explode(Slash, path)[j]);
      WellEncodedChars(segments[j]);
    }
    JoinChars(segments);
  }

  lemma {:induction false} JoinChars(segments: seq<PhpString>)
    requires forall j, i :: 0 <= j < |segments| && 0 <= i < |segments[j]| ==>
      Unreserved(segments[j][i]) || segments[j][i] == '%'
    ensures forall i :: 0 <= i < |Join(Slash, segments)| ==>
      var c := Join(Slash, segments)[i];
      Unreserved(c) || c == '%' || c == '/'
    decreases |segments|
  {
    if |segments| > 1 {
      JoinChars(segments[1..]);
      var head, tail := segments[0], Join(Slash, segments[1..]);
      assert Join(Slash, segments) == head + Slash + tail;
      forall i | 0 <= i < |head + Slash + tail|
        ensures var c := (head + Slash + tail)[i]; Unreserved(c) || c == '%' || c == '/'
      {
        if i < |head| {
        } else if i > |head| {
          assert (head + Slash + tail)[i] == tail[i - |head| - 1];
        }
      }
    }
  }

  // ---------------------------------------------------------------------
  // Locations and URLs

  /**
    An object location is the prefix, the encoded container name, "/" and
    the encoded path: the container and the path are encoded separately.
   */
  lemma LocationParts(prefix: PhpString, container: PhpString, path: PhpString)
    ensures Location(prefix, container, path) == prefix + EncodePath(container) + Slash + EncodePath(path)
  {
    EncodePathConcat(container, path);
  }

  /**
    The "?" of "?format=json" is the only one after the endpoint and the
    prefix: encoding never leaves a "?" in the path, so the query cannot be
    confused with a path character.
   */
  lemma JsonUrlQuery(endpoint: PhpString, prefix: PhpString, path: PhpString)
    ensures var url := JsonUrl(endpoint, ApplyPathPrefix(prefix, path));
      var n := |endpoint| + 1 + |prefix|;
      && url[..n] == endpoint + Slash + prefix
      && (forall i :: n <= i < |url| - |JsonQuery| ==> url[i] != '?')
      && url[|url| - |JsonQuery|..] == JsonQuery
  {
    var url := JsonUrl(endpoint, ApplyPathPrefix(prefix, path));
    var n := |endpoint| + 1 + |prefix|;
    EncodePathChars(path);
    assert url == endpoint + Slash + prefix + EncodePath(path) + JsonQuery;
    forall i | n <= i < |url| - |JsonQuery|
      ensures url[i] != '?'
    {
      assert url[i] == EncodePath(path)[i - n];
    }
  }

  /**
    The location `has` requests coincides with the location every other
    operation uses for the same path exactly when applying the prefix
    leaves the path unchanged.
   */
  lemma HasLocationAgrees(prefix: PhpString, container: PhpString, path: PhpString)
    ensures HasLocation(prefix, container, path) == Location(prefix, container, path) <==>
      ApplyPathPrefix(prefix, path) == path
  {
    if HasLocation(prefix, container, path) == Location(prefix, container, path) {
      assert EncodePath(container + Slash + ApplyPathPrefix(prefix, path))
          == HasLocation(prefix, container, path)[|prefix|..];
      assert EncodePath(container + Slash + path) == Location(prefix, container, path)[|prefix|..];
      EncodePathInjective(container + Slash + ApplyPathPrefix(prefix, path), container + Slash + path);
      assert (container + Slash + ApplyPathPrefix(prefix, path))[|container| + 1..] == ApplyPathPrefix(prefix, path);
      assert (container + Slash + path)[|container| + 1..] == path;
    }
  }

  /** Without a prefix, `has` agrees exactly for paths whose segments are all unreserved. */
  lemma HasLocationAgreesUnprefixed(container: PhpString, path: PhpString)
    ensures HasLocation("", container, path) == Location("", container, path) <==>
      forall i :: 0 <= i < |Explode(Slash, path)| ==> AllUnreserved(Explode(Slash, path)[i])
  {
    HasLocationAgrees("", container, path);
    EncodePathFixedPoint(path);
    assert ApplyPathPrefix("", path) == EncodePath(path);
  }

  /** A one-segment path is encoded as that segment. */
  lemma EncodeSingleSegment(segment: PhpString)
    requires '/' !in segment
    ensures EncodePath(segment) == PercentEncode(segment)
  {
    SingleCharFree<Byte>('/', segment);
    assert Slash == ['/'];
    ExplodeJoin(Slash, [segment]);
    assert EncodeEach([segment]) == [PercentEncode(segment)];
  }

  /**
    For a one-segment path without a root prefix, the other operations
    encode the segment once and `has` encodes it twice.
   */
  lemma HasEncodesSegmentTwice(container: PhpString, segment: PhpString)
    requires '/' !in segment
    ensures Location("", container, segment) == EncodePath(container) + Slash + PercentEncode(segment)
    ensures HasLocation("", container, segment) == EncodePath(container) + Slash + PercentEncode(PercentEncode(segment))
  {
    var none: PhpString := [];
    var once := PercentEncode(segment);
    EncodeSingleSegment(segment);
    EncodedHasNoSlash(segment);
    EncodeSingleSegment(once);
    assert none + EncodePath(container) == EncodePath(container);
    LocationParts(none, container, segment);
    assert ApplyPathPrefix(none, segment) == once;
    LocationParts(none, container, once);
  }

  /**
    The path "a b" without a root prefix: every other operation uses
    "<container>/a%20b", `has` uses "<container>/a%2520b".
   */
  lemma HasDoubleEncodes(container: PhpString)
    ensures Location("", container, "a b") == EncodePath(container) + Slash + "a%20b"
    ensures HasLocation("", container, "a b") == EncodePath(container) + Slash + "a%2520b"
  {
    HasEncodesSegmentTwice(container, "a b");
    EncodeSpace();
  }
}
