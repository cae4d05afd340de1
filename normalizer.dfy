/**
  The response normaliser: `headersNormalizeObject` picks three headers of
  a response, and `normalizeObject` turns such a record, or an entry of a
  JSON listing, into the descriptor the storage abstraction expects
  (type, dirname, path, timestamp, mimetype, size).

  The helpers the adapter calls but does not define (`mime_content_type`,
  `strtotime`, `Util::dirname`, the inherited `removePathPrefix`,
  `Util::emulateDirectories` and `json_decode` of a listing body) are
  parameters of the model: the fields of a `Foreign` record.
 */
module Normalizer {
  import opened PhpStrings
  import opened PathCodec

  /** The content type that marks an entry as a directory. */
  const DirectoryMarker: PhpString := "application/directory"
  /** The separator between a media type and its parameters. */
  const ParamSeparator: PhpString := "; "

  const ContentTypeHeader: PhpString := "Content-Type"
  const LastModifiedHeader: PhpString := "Last-Modified"
  const ContentLengthHeader: PhpString := "Content-Length"

  /** Response headers as Guzzle's `getHeaders()` gives them: each name with its values. */
  type HeaderBag = map<PhpString, seq<PhpString>>

  /** A PHP scalar as found in a header array or a decoded JSON listing. */
  datatype Scalar = Null | Int(n: int) | Text(t: PhpString)

  /**
    The keys of an entry array that `normalizeObject` reads; a missing key
    or a null value is `None` (or `Null`).
   */
  datatype RawObject = RawObject(
    name: Option<PhpString>,
    contentType: Option<PhpString>,
    lastModified: Option<PhpString>,
    bytes: Scalar)

  datatype Kind = Dir | File

  /** The array `normalizeObject` returns. */
  datatype Descriptor = Descriptor(
    kind: Kind,
    dirname: PhpString,
    path: PhpString,
    timestamp: Option<int>,
    mimetype: PhpString,
    size: Scalar)

  /** Native and inherited helpers whose code is not part of this model. */
  datatype Foreign = Foreign(
    mimeContentType: PhpString -> PhpString,
    strToTime: PhpString -> Option<int>,
    dirname: PhpString -> PhpString,
    removePathPrefix: PhpString -> PhpString,
    decodeListing: PhpString -> seq<RawObject>,
    emulateDirectories: seq<Descriptor> -> seq<Descriptor>)

  /** `$headers[key][0]`, which is null when the header is missing. */
  function FirstValue(headers: HeaderBag, key: PhpString): Option<PhpString> {
    if key in headers && |headers[key]| > 0 then Some(headers[key][0]) else None
  }

  /** `headersNormalizeObject`: the first value of each of three headers. */
  function HeadersNormalizeObject(headers: HeaderBag): RawObject {
    var length := FirstValue(headers, ContentLengthHeader);
    RawObject(
      name := None,
      contentType := FirstValue(headers, ContentTypeHeader),
      lastModified := FirstValue(headers, LastModifiedHeader),
      bytes := if length.Some? then Text(length.value) else Null)
  }

  /** `explode('; ', $entry['content_type'])`; a null content type reads as "". */
  function MediaPieces(contentType: Option<PhpString>): seq<PhpString> {
    Explode(ParamSeparator, OrEmpty(contentType))
  }

  /**
    `normalizeObject(entry, path)`. With a name (a listing entry), the
    descriptor's path is the listing location followed by the prefixed,
    encoded name, with no separator inserted; without one it is `path`.
   */
  function NormalizeObject(foreign: Foreign, prefix: PhpString, entry: RawObject, path: PhpString): Descriptor {
    var name := if entry.name.Some? then entry.name.value else path;
    var fullPath := if entry.name.Some? then path + ApplyPathPrefix(prefix, entry.name.value) else path;
    var pieces := MediaPieces(entry.contentType);
    Descriptor(
      kind := if DirectoryMarker in pieces then Dir else File,
      dirname := foreign.dirname(foreign.removePathPrefix(name)),
      path := fullPath,
      timestamp := foreign.strToTime(OrEmpty(entry.lastModified)),
      mimetype := pieces[0],
      size := entry.bytes)
  }

  /** The descriptors of a listing, entry by entry, before directory emulation. */
  function NormalizeListing(foreign: Foreign, prefix: PhpString, entries: seq<RawObject>, location: PhpString): seq<Descriptor> {
    seq(|entries|, i requires 0 <= i < |entries| => NormalizeObject(foreign, prefix, entries[i], location))
  }

  // ---------------------------------------------------------------------
  // Properties

  /**
    What write, update, createDir and getMetadata return for a response:
    the descriptor sits at the requested location; its size is the first
    Content-Length value, or null; its timestamp comes from the first
    Last-Modified value; and its mimetype is the first Content-Type value
    up to its first "; " (all of it when there is none). Later values of
    a repeated header are ignored.
   */
  lemma HeaderDescriptor(foreign: Foreign, prefix: PhpString, headers: HeaderBag, location: PhpString)
    ensures var d := NormalizeObject(foreign, prefix, HeadersNormalizeObject(headers), location);
      var contentType := if ContentTypeHeader in headers && |headers[ContentTypeHeader]| > 0 then headers[ContentTypeHeader][0] else [];
      && d.path == location
      && d.dirname == foreign.dirname(foreign.removePathPrefix(location))
      && (ContentLengthHeader in headers && |headers[ContentLengthHeader]| > 0 ==> d.size == Text(headers[ContentLengthHeader][0]))
      && (!(ContentLengthHeader in headers && |headers[ContentLengthHeader]| > 0) ==> d.size == Null)
      && (LastModifiedHeader in headers && |headers[LastModifiedHeader]| > 0 ==>
            d.timestamp == foreign.strToTime(headers[LastModifiedHeader][0]))
      && (!(LastModifiedHeader in headers && |headers[LastModifiedHeader]| > 0) ==> d.timestamp == foreign.strToTime([]))
      && |d.mimetype| <= |contentType| && d.mimetype == contentType[..|d.mimetype|]
      && (forall k :: 0 <= k < |d.mimetype| ==> !Occurs(ParamSeparator, contentType, k))
      && (|d.mimetype| == |contentType| || Occurs(ParamSeparator, contentType, |d.mimetype|))
  {
    MimetypeBeforeFirstSeparator(foreign, prefix, HeadersNormalizeObject(headers), location);
  }

  lemma FreeWithoutSemicolon(s: PhpString)
    requires ';' !in s
    ensures Free(ParamSeparator, s)
  {
    forall k | 0 <= k < |s|
      ensures !Occurs(ParamSeparator, s, k)
    {
      assert s[k] != ';';
      if k + 2 <= |s| {
        assert s[k..k + 2][0] == s[k];
      }
    }
  }

  /**
    The mimetype is the text of the content type before its first "; ", or
    the whole content type when it has none.
   */
  lemma MimetypeBeforeFirstSeparator(foreign: Foreign, prefix: PhpString, entry: RawObject, path: PhpString)
    ensures var contentType := OrEmpty(entry.contentType);
      var m := NormalizeObject(foreign, prefix, entry, path).mimetype;
      && |m| <= |contentType| && m == contentType[..|m|]
      && (forall k :: 0 <= k < |m| ==> !Occurs(ParamSeparator, contentType, k))
      && (|m| == |contentType| || Occurs(ParamSeparator, contentType, |m|))
  {
    ExplodeFirst(ParamSeparator, OrEmpty(entry.contentType));
  }

  /**
    The content type always splits into "; "-free parts that join back to
    it; these are the pieces `normalizeObject` inspects.
   */
  lemma ContentTypeParts(contentType: Option<PhpString>)
    ensures var parts := MediaPieces(contentType);
      && |parts| >= 1
      && Join(ParamSeparator, parts) == OrEmpty(contentType)
      && forall i :: 0 <= i < |parts| ==> Free(ParamSeparator, parts[i])
  {
    JoinExplode(ParamSeparator, OrEmpty(contentType));
    ExplodeFree(ParamSeparator, OrEmpty(contentType));
  }

  /**
    For any way of writing the content type as "; "-free parts joined by
    "; ", the entry is a directory exactly when one of the parts is
    "application/directory", and the mimetype is the first part.
   */
  lemma TypeIsDirExactly(foreign: Foreign, prefix: PhpString, entry: RawObject, path: PhpString, parts: seq<PhpString>)
    requires |parts| >= 1
    requires Join(ParamSeparator, parts) == OrEmpty(entry.contentType)
    requires forall i :: 0 <= i < |parts| ==> Free(ParamSeparator, parts[i])
    ensures var d := NormalizeObject(foreign, prefix, entry, path);
      && (d.kind == Dir <==> DirectoryMarker in parts)
      && (d.kind == File <==> DirectoryMarker !in parts)
      && d.mimetype == parts[0]
  {
    assert FirstCharUnique(ParamSeparator);
    ExplodeJoin(ParamSeparator, parts);
  }

  /** The directory marker carries no parameters. */
  lemma DirectoryMarkerPlain()
    ensures ';' !in DirectoryMarker
  {
  }

  /** A content type without parameters is its own mimetype. */
  lemma PlainContentType(foreign: Foreign, prefix: PhpString, entry: RawObject, path: PhpString)
    requires ';' !in OrEmpty(entry.contentType)
    ensures var d := NormalizeObject(foreign, prefix, entry, path);
      && d.mimetype == OrEmpty(entry.contentType)
      && (d.kind == Dir <==> OrEmpty(entry.contentType) == DirectoryMarker)
  {
    var ct := OrEmpty(entry.contentType);
    FreeWithoutSemicolon(ct);
    TypeIsDirExactly(foreign, prefix, entry, path, [ct]);
  }

  /**
    A response whose content type is the directory marker describes a
    directory, with the marker as its mimetype.
   */
  lemma DirectoryMarkerResponse(foreign: Foreign, prefix: PhpString, headers: HeaderBag, location: PhpString)
    ensures FirstValue(headers, ContentTypeHeader) == Some(DirectoryMarker) ==>
      var d := NormalizeObject(foreign, prefix, HeadersNormalizeObject(headers), location);
      d.kind == Dir && d.mimetype == DirectoryMarker
  {
    if FirstValue(headers, ContentTypeHeader) == Some(DirectoryMarker) {
      DirectoryMarkerPlain();
      PlainContentType(foreign, prefix, HeadersNormalizeObject(headers), location);
    }
  }

  /**
    A media type followed by "; " and parameters: the parameters are
    dropped from the mimetype, and the media type alone decides that the
    entry is a directory.
   */
  lemma ContentTypeWithParameters(foreign: Foreign, prefix: PhpString, entry: RawObject, path: PhpString,
                                  media: PhpString, parameters: PhpString)
    requires ';' !in media
    requires entry.contentType == Some(media + ParamSeparator + parameters)
    ensures var d := NormalizeObject(foreign, prefix, entry, path);
      && d.mimetype == media
      && (media == DirectoryMarker ==> d.kind == Dir)
  {
    FreeWithoutSemicolon(media);
    assert FirstCharUnique(ParamSeparator);
    ExplodeConcat(ParamSeparator, media, parameters);
    ExplodeJoin(ParamSeparator, [media]);
    assert MediaPieces(entry.contentType)[0] == media;
    if media == DirectoryMarker {
      assert MediaPieces(entry.contentType)[0] == DirectoryMarker;
    }
  }

  /**
    The size is the `bytes` value unchanged. The path is the given path
    when there is no name; with a name it is the location, then the prefix,
    then the name encoded segment by segment.
   */
  lemma PathAndSize(foreign: Foreign, prefix: PhpString, entry: RawObject, path: PhpString)
    ensures var d := NormalizeObject(foreign, prefix, entry, path);
      && d.size == entry.bytes
      && (entry.name.None? ==> d.path == path)
      && (entry.name.Some? ==>
            && d.path == path + prefix + EncodePath(entry.name.value)
            && Explode(Slash, d.path[|path| + |prefix|..]) == EncodeEach(Explode(Slash, entry.name.value)))
  {
    if entry.name.Some? {
      var d := NormalizeObject(foreign, prefix, entry, path);
      assert d.path[|path| + |prefix|..] == EncodePath(entry.name.value);
      EncodePathSegments(entry.name.value);
    }
  }

  /**
    A write of "buy milk" answered with content type "text/plain" and a
    length of 8 normalises to a file of mimetype "text/plain" and size "8"
    at the location that was written, whatever other headers say.
   */
  lemma WriteScenario(foreign: Foreign, prefix: PhpString, headers: HeaderBag, location: PhpString)
    requires FirstValue(headers, ContentTypeHeader) == Some("text/plain")
    requires FirstValue(headers, ContentLengthHeader) == Some("8")
    ensures var d := NormalizeObject(foreign, prefix, HeadersNormalizeObject(headers), location);
      d.kind == File && d.mimetype == "text/plain" && d.size == Text("8") && d.path == location
  {
    var entry := HeadersNormalizeObject(headers);
    PlainContentType(foreign, prefix, entry, location);
  }
}
