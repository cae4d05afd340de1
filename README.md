# Rackspace Cloud Files adapter for Flysystem — verified model

This project models the logic of `RackspaceAdapter`, a Flysystem storage
adapter that maps filesystem-style calls (write, update, rename, delete,
createDir, has, read, listContents, getMetadata) onto Rackspace Cloud Files
REST calls. The HTTP transport is not modelled. Each operation takes the
`Response` the call produced (`Resp(status, headers, body)`, or `Fail(message)`
for the string that `request` returns when Guzzle throws). It returns the
`Request` it issues together with its result.

The modules follow the adapter's components:

- `PhpStrings` (`php_strings.dfy`): PHP byte strings, `explode` and `join`. It
  proves that `explode` is the inverse of `join` for the separators `/` and `; `.
- `PathCodec` (`path_codec.dfy`): `rawurlencode` is modelled as percent-encoding
  per section 2.1 of RFC 3986, keeping the unreserved characters of section 2.3.
  The module also holds `applyPathPrefix` (encode each `/`-separated segment,
  rejoin, prepend the inherited root prefix) and the object locations and URLs
  built from it.
- `Catalog` (`catalog.dfy`): the service catalog, and the functions that say
  which endpoint `objectStoreService` selects (the last match in scan order).
- `Normalizer` (`normalizer.dfy`): `headersNormalizeObject` and `normalizeObject`.
- `Outcomes` (`outcomes.dfy`): the response type, the request `request` sends,
  and the decision rules of `rename` and `deleteDir`.
- `Rackspace` (`adapter.dfy`): the class `RackspaceAdapter`. Its fields are
  `token`, `serviceCatalogs`, `endpoint`, `cdnEndpoint` and `containerName`.
  Its methods build header maps and requests the way the source does, and
  `ObjectStoreService` scans the catalog with the source's two nested loops.

The following are parameters of the model rather than code, because their
code is not part of this file. The inherited root prefix is a fixed string
prepended to every encoded path; it is the class constant
`RackspaceAdapter.pathPrefix`. `mime_content_type`, `strtotime`,
`Util::dirname`, the inherited `removePathPrefix`, `json_decode` of a listing
body and `Util::emulateDirectories` are the fields of the `Normalizer.Foreign`
record.

The model follows the code throughout. In three places the code does not do
what its callers would expect:

- `rename` deletes the original after a COPY that failed at the transport level.
- `deleteDir` never returns true.
- `has` encodes the path twice.

Each of the three is listed under "## Findings", together with a corrected
version. Two more points follow from the code. Nothing in the adapter decodes
a path, so no decode round trip through `removePathPrefix` is claimed.
Directory emulation lives in `Util::emulateDirectories`, which is not part of
this model.

## Model

| member | source | states |
|---|---|---|
| PhpStrings.ExplodeFirst | src/RackspaceAdapter.php:314 | the first piece of `explode` is the text before the first separator (all of it when there is none), and the rest are the pieces of the text after it |
| PhpStrings.JoinExplode | src/RackspaceAdapter.php:314 | joining the pieces of `explode` with the same separator gives back the original string |
| PhpStrings.ExplodeFree | src/RackspaceAdapter.php:314 | no piece of `explode` contains the separator |
| PhpStrings.ExplodeJoin | src/RackspaceAdapter.php:314 | for `/` and `; `, `explode` recovers every list of separator-free pieces from their `join`, so its pieces are exactly the separated parts |
| PhpStrings.ExplodeConcat | src/RackspaceAdapter.php:314 | splitting `a + sep + b` gives the pieces of `a` followed by the pieces of `b` |
| PathCodec.HexDigit | src/RackspaceAdapter.php:314 | the digit `rawurlencode` writes is an upper-case hexadecimal digit and an unreserved character |
| PathCodec.EncodeWellFormed | src/RackspaceAdapter.php:314 | an encoded segment consists only of RFC 3986 unreserved characters and `%XX` triples with upper-case hex digits |
| PathCodec.EncodedHasNoSlash | src/RackspaceAdapter.php:314 | an encoded segment contains neither `/` nor `?` |
| PathCodec.DecodeEncode | src/RackspaceAdapter.php:314 | percent-decoding an encoded segment gives the segment back, so encoding loses nothing |
| PathCodec.EncodeFixedPoint | src/RackspaceAdapter.php:314 | a segment is left unchanged by encoding exactly when it consists only of unreserved characters |
| PathCodec.EncodeTwice | src/RackspaceAdapter.php:210-211 | encoding a segment twice gives the same as encoding it once exactly when the segment is all unreserved characters |
| PathCodec.EncodeSpace | src/RackspaceAdapter.php:314 | `a b` encodes to `a%20b`, and encoding that again gives `a%2520b` |
| PathCodec.EncodePathSegments | src/RackspaceAdapter.php:312-317 | the segments of an encoded path are the encoded segments of the path: same count, same order, and each is well-formed and free of `/` |
| PathCodec.EncodePathFixedPoint | src/RackspaceAdapter.php:314 | a path is left unchanged exactly when every one of its `/`-separated segments is all unreserved characters |
| PathCodec.EncodePathInjective | src/RackspaceAdapter.php:314 | distinct paths have distinct encodings |
| PathCodec.EncodePathConcat | src/RackspaceAdapter.php:314 | encoding `a/b` gives the encoding of `a`, then `/`, then the encoding of `b` |
| PathCodec.EncodePathChars | src/RackspaceAdapter.php:314 | an encoded path holds only unreserved characters, `%` and `/` |
| PathCodec.EncodeSingleSegment | src/RackspaceAdapter.php:314 | a path without `/` is encoded as one segment |
| PathCodec.LocationParts | src/RackspaceAdapter.php:115 | an object location is the prefix, then the encoded container, then `/`, then the encoded path; the container and the path are encoded separately |
| PathCodec.JsonUrlQuery | src/RackspaceAdapter.php:116 | a write or listing URL is endpoint, `/` and prefix, then a path with no `?`, then `?format=json` as its only query |
| PathCodec.HasLocationAgrees | src/RackspaceAdapter.php:207-217 | the location `has` requests equals the one other operations use exactly when applying the prefix leaves the path unchanged |
| PathCodec.HasLocationAgreesUnprefixed | src/RackspaceAdapter.php:342-354 | without a root prefix, `has` requests the same location as the other operations exactly when every segment of the path is all unreserved characters |
| PathCodec.HasEncodesSegmentTwice | src/RackspaceAdapter.php:207-217 | for a one-segment path without a root prefix, the other operations encode the segment once after the encoded container, and `has` encodes it twice |
| PathCodec.HasDoubleEncodes | src/RackspaceAdapter.php:207-217 | for path `a b` in any container, the other operations use `<container>/a%20b` but `has` asks for `<container>/a%2520b` |
| Catalog.RegionUrlsLast | src/RackspaceAdapter.php:88-92 | the last URL the inner loop assigns is that of the last endpoint in the region |
| Catalog.NoMatch | src/RackspaceAdapter.php:86-92 | the scan assigns no URL exactly when no endpoint of a service with that name is in the region |
| Catalog.LastMatch | src/RackspaceAdapter.php:86-92 | when some endpoint matches, the last URL assigned is that of the match that comes last in the nested scan |
| Catalog.ResolvedIsLastMatch | src/RackspaceAdapter.php:84-102 | after the scan, the endpoint field is the URL of the last match in scan order, or its previous value when nothing matches |
| Catalog.DuplicateEntriesLaterWins | src/RackspaceAdapter.php:86-92 | with two catalog entries for the same service and region, the later one is selected |
| Normalizer.HeaderDescriptor | src/RackspaceAdapter.php:362-390 | the descriptor a response's headers become sits at the requested location; its size is the first `Content-Length` value or null; its timestamp is read from the first `Last-Modified` value; its mimetype is the first `Content-Type` value up to its first `; `; later values of a repeated header are ignored |
| Normalizer.MimetypeBeforeFirstSeparator | src/RackspaceAdapter.php:380-387 | the mimetype is the text of the content type before its first `; `, or the whole content type when it has none |
| Normalizer.ContentTypeParts | src/RackspaceAdapter.php:380 | the content type splits into `; `-free pieces that join back to it |
| Normalizer.TypeIsDirExactly | src/RackspaceAdapter.php:380-383 | the type is `dir` exactly when some `; `-separated piece of the content type is `application/directory`, and `file` otherwise; the mimetype is the first piece |
| Normalizer.PlainContentType | src/RackspaceAdapter.php:380-387 | a content type without parameters is its own mimetype, and it marks a directory exactly when it is `application/directory` |
| Normalizer.DirectoryMarkerResponse | src/RackspaceAdapter.php:380-387 | a response whose `Content-Type` is `application/directory` normalises to type `dir` with that mimetype |
| Normalizer.ContentTypeWithParameters | src/RackspaceAdapter.php:380-387 | for `media; params`, the mimetype is `media`, and `media` = `application/directory` makes the entry a directory |
| Normalizer.PathAndSize | src/RackspaceAdapter.php:373-388 | size is `bytes` unchanged; path is the given path without a name, and with a name it is the location followed directly (no separator) by the prefixed, encoded name |
| Normalizer.WriteScenario | src/RackspaceAdapter.php:118-119 | a write answered with `text/plain` and length `8` normalises to a file with mimetype `text/plain`, size `8`, at the written location |
| Outcomes.RenameDeletesAfterTransportFailure | src/RackspaceAdapter.php:160-168 | a COPY that fails at the transport level still lets rename go on to delete, which the corrected rule does not |
| Outcomes.RenameTestsDifferOnlyOnFailure | src/RackspaceAdapter.php:162 | the as-written and corrected rename tests agree on every response and differ on every transport failure |
| Outcomes.DeleteDirNeverSucceeds | src/RackspaceAdapter.php:187-193 | the bool returned by delete never has a status of 200, so deleteDir's test is never true |
| Rackspace.RackspaceAdapter.constructor | src/RackspaceAdapter.php:47-68 | the adapter starts with the token and catalog from the handshake, and with no endpoint, CDN endpoint or container |
| Rackspace.RackspaceAdapter.SetContainerName | src/RackspaceAdapter.php:73-78 | sets the container name, changes nothing else, and returns the same object |
| Rackspace.RackspaceAdapter.ObjectStoreService | src/RackspaceAdapter.php:84-102 | the endpoint becomes the last match for (name, region), or stays as it was; the CDN endpoint becomes the last `cloudFilesCDN` match, but never when name is `cloudFilesCDN`; token, container and catalog are unchanged; it returns the same object |
| Rackspace.RackspaceAdapter.ScanRegion | src/RackspaceAdapter.php:88-98 | the inner loop leaves the chosen field at the URL of the last endpoint in the region, or unchanged, and the other field untouched |
| Rackspace.RackspaceAdapter.Write | src/RackspaceAdapter.php:104-123 | PUT to the JSON URL of the location; the headers are the token, plus the sniffed content type only for non-empty contents, unless config headers replace the whole map; the result is the normalised response headers, or false on a transport failure |
| Rackspace.RackspaceAdapter.Update | src/RackspaceAdapter.php:125-146 | PUT to the plain URL; the config headers come first, and the token, sniffed content type and `X-Object-Meta-Some-Key` are always set over them |
| Rackspace.RackspaceAdapter.Rename | src/RackspaceAdapter.php:153-169 | COPY with a `Destination` header holding the new location; returns false exactly when the COPY produced a response with a status other than 201, and otherwise issues the DELETE of the original and returns true |
| Rackspace.RackspaceAdapter.RenameCorrected | src/RackspaceAdapter.php:160-168 | the original is deleted, and true returned, exactly when the COPY answered 201 |
| Rackspace.RackspaceAdapter.Delete | src/RackspaceAdapter.php:171-183 | DELETE of the location with the token only; true exactly when the call yields a response |
| Rackspace.RackspaceAdapter.DeleteDir | src/RackspaceAdapter.php:185-194 | issues the DELETE of the directory object and always returns false |
| Rackspace.RackspaceAdapter.DeleteDirCorrected | src/RackspaceAdapter.php:185-194 | returns true exactly when the DELETE yields a response |
| Rackspace.RackspaceAdapter.CreateDir | src/RackspaceAdapter.php:196-205 | PUT with no body to the JSON URL; the headers are the config's, with the token and `Content-Type: application/directory` set over them; the result is the normalised response, and a response with that content type gives a `dir` |
| Rackspace.RackspaceAdapter.ObjectExists | src/RackspaceAdapter.php:342-354 | GET of the location with the token only; true exactly when the call yields a response |
| Rackspace.RackspaceAdapter.Has | src/RackspaceAdapter.php:207-217 | asks for the doubly encoded location, and reports whether the call yielded a response |
| Rackspace.RackspaceAdapter.HasCorrected | src/RackspaceAdapter.php:207-217 | asks for the same location as the other operations |
| Rackspace.RackspaceAdapter.Read | src/RackspaceAdapter.php:219-230 | GET of the location; the contents are the response body, and a transport failure is an uncaught error, not false |
| Rackspace.RackspaceAdapter.NormalizeEntries | src/RackspaceAdapter.php:242-245 | the `foreach` loop pushes one normalised descriptor per listing entry, in order, each against the listing location |
| Rackspace.RackspaceAdapter.GetMetadata | src/RackspaceAdapter.php:253-262 | GET of the location; the descriptor is the normalised response headers at that location, and a transport failure is an uncaught error |
| Rackspace.RackspaceAdapter.ListContents | src/RackspaceAdapter.php:232-251 | GET of the JSON URL of the directory; each decoded entry is normalised against the directory location, in order, and the list goes to directory emulation |

## Left out

- The identity handshake in the constructor (HTTP POST and JSON decoding) is left out. The token and the catalog are the constructor's parameters.
- The HTTP transport and Guzzle's exceptions are left out. Each operation receives the `Response` the call would have produced.
- `mime_content_type`, `strtotime`, `Util::dirname`, `removePathPrefix`, `json_decode` of a listing and `Util::emulateDirectories` are not part of this model. They are uninterpreted function fields of `Normalizer.Foreign`.
- The inherited `applyPathPrefix` is modelled as prepending a fixed prefix. Any trimming of leading separators it does is not modelled.
- No decode round trip through `removePathPrefix` is claimed, because nothing in the adapter decodes a path.
- `enableContainer` and `getPublicUrlCDN` are left out: they are CDN HTTP calls plus header extraction.
- `readStream`, `writeStream` and `updateStream` only delegate to `read`, `write` and `update`, and `getSize`, `getMimetype` and `getTimestamp` (src/RackspaceAdapter.php:264-277) only delegate to `getMetadata`, so none of them is modelled separately.
- The streamed-copy and visibility polyfills are left out.
- The empty `objectList` stub is left out.
- Rackspace.RackspaceAdapter.ObjectStoreService: PHP's loose `==` on names and regions is modelled as byte equality. The two differ only for numeric strings such as `"1e1"` and `"10"`.
- Rackspace.RackspaceAdapter.ListContents: `count` on an undecodable listing body is not modelled, because the decoded listing is always a sequence here.
- Rackspace.RackspaceAdapter.Write: `request` drops an empty header map. The model passes it through, which sends the same headers.

## Findings

| source | as written | input that shows it | evidently intended | confidence | as-written member | corrected member |
|---|---|---|---|---|---|---|
| src/RackspaceAdapter.php:187-193 | deleteDir tests `$response->status` on the bool that `delete` returns | any directory whose DELETE succeeds: delete returns true, and deleteDir returns false | return true exactly when the DELETE yields a response | high, not executed | Rackspace.RackspaceAdapter.DeleteDir (with Outcomes.DeleteDirNeverSucceeds) | Rackspace.RackspaceAdapter.DeleteDirCorrected |
| src/RackspaceAdapter.php:162-166 | rename bails out only for a response with a status other than 201 | a COPY that throws (the `Fail` string): the original is deleted and true is returned, though nothing was copied | delete the original only after a 201 | high, not executed | Rackspace.RackspaceAdapter.Rename (with Outcomes.RenameDeletesAfterTransportFailure) | Rackspace.RackspaceAdapter.RenameCorrected |
| src/RackspaceAdapter.php:210-211 | `has` applies the prefix, and `objectExists` applies it again | path `a b`: other operations use `<container>/a%20b`, but `has` requests `<container>/a%2520b` | request the location that write uses | high, not executed | Rackspace.RackspaceAdapter.Has (with PathCodec.HasDoubleEncodes) | Rackspace.RackspaceAdapter.HasCorrected |
