/**
  The adapter object. Its fields are the token and service catalog
  obtained at construction, the two endpoints chosen by
  `objectStoreService`, and the container chosen by `setContainerName`.
  Each storage operation builds a request from them and decides its result
  from the `Response` the HTTP call produced; it takes that response as a
  parameter and returns the request it issues.
 */
module Rackspace {
  import opened PhpStrings
  import opened PathCodec
  import opened Catalog
  import opened Normalizer
  import opened Outcomes

  const AuthTokenHeader: PhpString := "X-Auth-Token"
  const DestinationHeader: PhpString := "Destination"
  /** The fixed metadata header `update` adds to every upload. */
  const MetaHeader: PhpString := "X-Object-Meta-Some-Key"
  const MetaValue: PhpString := "some-value"

  /** The one setting of a Flysystem `Config` the adapter reads: `headers`, if set. */
  datatype Config = Config(headers: Option<map<PhpString, PhpString>>)

  /**
    The headers a config leaves in place before an operation adds its own:
    `$config->get('headers', [])`.
   */
  function BaseHeaders(config: Config): map<PhpString, PhpString> {
    if config.headers.Some? then config.headers.value else map[]
  }

  /**
    The outcome of an operation that does not guard the result of
    `request`: a value, or an uncaught PHP `Error` from calling a method
    on the string that `request` returns after a transport failure.
   */
  datatype Reply<T> = Returned(value: T) | Crashed

  class RackspaceAdapter {
    var token: PhpString
    var serviceCatalogs: seq<Service>
    var endpoint: Option<PhpString>
    var cdnEndpoint: Option<PhpString>
    var containerName: Option<PhpString>
    /** The root prefix of the inherited prefixer. */
    const pathPrefix: PhpString
    const foreign: Foreign

    /** The state after a successful identity handshake: no endpoint or container chosen yet. */
    constructor (token: PhpString, serviceCatalogs: seq<Service>, pathPrefix: PhpString, foreign: Foreign)
      ensures this.token == token && this.serviceCatalogs == serviceCatalogs
      ensures this.pathPrefix == pathPrefix && this.foreign == foreign
      ensures endpoint == None && cdnEndpoint == None && containerName == None
    {
      this.token := token;
      this.serviceCatalogs := serviceCatalogs;
      this.pathPrefix := pathPrefix;
      this.foreign := foreign;
      endpoint := None;
      cdnEndpoint := None;
      containerName := None;
    }

    /** `applyPathPrefix($this->containerName . '/' . $path)`; an unset container reads as "". */
    function ObjectLocation(path: PhpString): PhpString
      reads this
    {
      Location(pathPrefix, OrEmpty(containerName), path)
    }

    /** `$this->ENDPOINT` as a string; an unset endpoint reads as "". */
    function EndpointText(): PhpString
      reads this
    {
      OrEmpty(endpoint)
    }

    /** Every object operation authenticates with the token alone, unless it says otherwise. */
    function TokenOnly(): map<PhpString, PhpString>
      reads this
    {
      map[AuthTokenHeader := token]
    }

    method SetContainerName(name: PhpString) returns (self: RackspaceAdapter)
      modifies this`containerName
      ensures self == this
      ensures containerName == Some(name)
    {
      containerName := Some(name);
      self := this;
    }

    /**
      Scans the catalog service by service and endpoint by endpoint,
      overwriting the store endpoint at each endpoint in `region` of a
      service called `storeName`, and otherwise the CDN endpoint at each
      endpoint in `region` of the CDN service.
     */
    method ObjectStoreService(storeName: PhpString, region: PhpString) returns (self: RackspaceAdapter)
      modifies this`endpoint, this`cdnEndpoint
      ensures self == this
      ensures endpoint == LastOr(old(endpoint), Matching(serviceCatalogs, storeName, region))
      ensures cdnEndpoint == LastOr(old(cdnEndpoint), CdnMatching(serviceCatalogs, storeName, region))
      ensures token == old(token) && containerName == old(containerName) && serviceCatalogs == old(serviceCatalogs)
    {
      var catalog := serviceCatalogs;
      var i := 0;
      while i < |catalog|
        invariant 0 <= i <= |catalog|
        invariant endpoint == LastOr(old(endpoint), Matching(catalog[..i], storeName, region))
        invariant cdnEndpoint == LastOr(old(cdnEndpoint), CdnMatching(catalog[..i], storeName, region))
      {
        var service := catalog[i];
        MatchingStep(catalog, i, storeName, region);
        MatchingStep(catalog, i, CdnServiceName, region);
        if service.name == storeName {
          var urls := ScanRegion(service.endpoints, region, true);
          LastOrAppend(old(endpoint), Matching(catalog[..i], storeName, region), urls);
        } else if service.name == CdnServiceName {
          var urls := ScanRegion(service.endpoints, region, false);
          LastOrAppend(old(cdnEndpoint), Matching(catalog[..i], CdnServiceName, region), urls);
        }
        i := i + 1;
      }
      assert catalog[..i] == catalog;
      self := this;
    }

    /**
      The inner loop of the scan: overwrites the store endpoint (or the CDN
      endpoint) with the public URL of every endpoint in `region`.
     */
    method ScanRegion(endpoints: seq<Endpoint>, region: PhpString, store: bool) returns (ghost urls: seq<PhpString>)
      modifies this`endpoint, this`cdnEndpoint
      ensures urls == RegionUrls(endpoints, region)
      ensures store ==> endpoint == LastOr(old(endpoint), urls) && cdnEndpoint == old(cdnEndpoint)
      ensures !store ==> cdnEndpoint == LastOr(old(cdnEndpoint), urls) && endpoint == old(endpoint)
    {
      var j := 0;
      while j < |endpoints|
        invariant 0 <= j <= |endpoints|
        invariant store ==> endpoint == LastOr(old(endpoint), RegionUrls(endpoints[..j], region)) && cdnEndpoint == old(cdnEndpoint)
        invariant !store ==> cdnEndpoint == LastOr(old(cdnEndpoint), RegionUrls(endpoints[..j], region)) && endpoint == old(endpoint)
      {
        RegionUrlsStep(endpoints, j, region);
        if endpoints[j].region == region {
          if store {
            endpoint := Some(endpoints[j].publicURL);
          } else {
            cdnEndpoint := Some(endpoints[j].publicURL);
          }
        }
        j := j + 1;
      }
      assert endpoints[..j] == endpoints;
      urls := RegionUrls(endpoints, region);
    }

    /**
      PUT of `contents` to the object's location. The request carries the
      token and, for non-empty contents, the sniffed content type, unless
      the config supplies headers, which then replace the map entirely.
      On a response the result describes the object from its headers.
     */
    method Write(path: PhpString, contents: PhpString, config: Config, response: Response)
      returns (request: Request, result: Option<Descriptor>)
      ensures request.verb == "PUT" && request.url == JsonUrl(EndpointText(), ObjectLocation(path))
      ensures request.body == (if PhpEmpty(contents) then None else Some(contents))
      ensures config.headers.Some? ==> request.headers == config.headers.value
      ensures config.headers.None? ==>
        && request.headers.Keys == {AuthTokenHeader} + (if contents != "" then {ContentTypeHeader} else {})
        && request.headers[AuthTokenHeader] == token
        && (contents != "" ==> request.headers[ContentTypeHeader] == foreign.mimeContentType(contents))
      ensures result.Some? <==> response.Resp?
      ensures response.Resp? ==>
        result.value == NormalizeObject(foreign, pathPrefix, HeadersNormalizeObject(response.headers), ObjectLocation(path))
    {
      var headers: map<PhpString, PhpString> := map[];
      headers := headers[AuthTokenHeader := token];
      if contents != "" {
        headers := headers[ContentTypeHeader := foreign.mimeContentType(contents)];
      }
      if config.headers.Some? {
        headers := config.headers.value;
      }
      var location := ObjectLocation(path);
      request := Outgoing("PUT", JsonUrl(EndpointText(), location), headers, contents);
      if response.Resp? {
        result := Some(NormalizeObject(foreign, pathPrefix, HeadersNormalizeObject(response.headers), location));
      } else {
        result := None;
      }
    }

    /**
      PUT of `contents` without the JSON query. The config's headers come
      first; the token, the sniffed content type and the fixed metadata
      header are then set over them.
     */
    method Update(path: PhpString, contents: PhpString, config: Config, response: Response)
      returns (request: Request, result: Option<Descriptor>)
      ensures request.verb == "PUT" && request.url == ObjectUrl(EndpointText(), ObjectLocation(path))
      ensures request.body == (if PhpEmpty(contents) then None else Some(contents))
      ensures request.headers.Keys == BaseHeaders(config).Keys + {AuthTokenHeader, ContentTypeHeader, MetaHeader}
      ensures request.headers[AuthTokenHeader] == token
      ensures request.headers[ContentTypeHeader] == foreign.mimeContentType(contents)
      ensures request.headers[MetaHeader] == MetaValue
      ensures forall k :: k in BaseHeaders(config) && k != AuthTokenHeader && k != ContentTypeHeader && k != MetaHeader ==>
        request.headers[k] == BaseHeaders(config)[k]
      ensures result.Some? <==> response.Resp?
      ensures response.Resp? ==>
        result.value == NormalizeObject(foreign, pathPrefix, HeadersNormalizeObject(response.headers), ObjectLocation(path))
    {
      var headers := BaseHeaders(config);
      headers := headers[AuthTokenHeader := token];
      headers := headers[ContentTypeHeader := foreign.mimeContentType(contents)];
      headers := headers[MetaHeader := MetaValue];
      var location := ObjectLocation(path);
      request := Outgoing("PUT", ObjectUrl(EndpointText(), location), headers, contents);
      if response.Resp? {
        result := Some(NormalizeObject(foreign, pathPrefix, HeadersNormalizeObject(response.headers), location));
      } else {
        result := None;
      }
    }

    /**
      COPY of the object to the new location, then, unless the COPY was
      answered with a status other than 201, a DELETE of the original.
      The outcome of the DELETE is ignored.
     */
    method Rename(path: PhpString, newpath: PhpString, copyResponse: Response, deleteResponse: Response)
      returns (copyRequest: Request, deleteRequest: Option<Request>, renamed: bool)
      ensures copyRequest.verb == "COPY" && copyRequest.url == ObjectUrl(EndpointText(), ObjectLocation(path))
      ensures copyRequest.headers.Keys == {AuthTokenHeader, DestinationHeader}
      ensures copyRequest.headers[AuthTokenHeader] == token
      ensures copyRequest.headers[DestinationHeader] == ObjectLocation(newpath)
      ensures copyRequest.body == None
      ensures !renamed <==> copyResponse.Resp? && copyResponse.status != 201
      ensures deleteRequest.Some? <==> renamed
      ensures renamed ==>
        deleteRequest.value.verb == "DELETE" && deleteRequest.value.url == ObjectUrl(EndpointText(), ObjectLocation(path))
      ensures renamed ==> deleteRequest.value.headers == TokenOnly() && deleteRequest.value.body == None
    {
      var relocation := ObjectLocation(newpath);
      var location := ObjectLocation(path);
      var headers := map[AuthTokenHeader := token, DestinationHeader := relocation];
      copyRequest := Outgoing("COPY", ObjectUrl(EndpointText(), location), headers, "");
      if !RenameProceeds(copyResponse) {
        return copyRequest, None, false;
      }
      var delete, _ := Delete(path, deleteResponse);
      deleteRequest := Some(delete);
      renamed := true;
    }

    /** Rename as intended: the original is deleted only after a COPY answered with 201. */
    method RenameCorrected(path: PhpString, newpath: PhpString, copyResponse: Response, deleteResponse: Response)
      returns (copyRequest: Request, deleteRequest: Option<Request>, renamed: bool)
      ensures copyRequest.verb == "COPY" && copyRequest.url == ObjectUrl(EndpointText(), ObjectLocation(path))
      ensures copyRequest.headers.Keys == {AuthTokenHeader, DestinationHeader}
      ensures copyRequest.headers[AuthTokenHeader] == token
      ensures copyRequest.headers[DestinationHeader] == ObjectLocation(newpath)
      ensures copyRequest.body == None
      ensures renamed <==> copyResponse.Resp? && copyResponse.status == 201
      ensures deleteRequest.Some? <==> renamed
      ensures renamed ==>
        deleteRequest.value.verb == "DELETE" && deleteRequest.value.url == ObjectUrl(EndpointText(), ObjectLocation(path))
      ensures renamed ==> deleteRequest.value.headers == TokenOnly() && deleteRequest.value.body == None
    {
      var relocation := ObjectLocation(newpath);
      var location := ObjectLocation(path);
      var headers := map[AuthTokenHeader := token, DestinationHeader := relocation];
      copyRequest := Outgoing("COPY", ObjectUrl(EndpointText(), location), headers, "");
      if !RenameProceedsCorrected(copyResponse) {
        return copyRequest, None, false;
      }
      var delete, _ := Delete(path, deleteResponse);
      deleteRequest := Some(delete);
      renamed := true;
    }

    /** DELETE of the object; true exactly when the call produced a response. */
    method Delete(path: PhpString, response: Response) returns (request: Request, deleted: bool)
      ensures request.verb == "DELETE" && request.url == ObjectUrl(EndpointText(), ObjectLocation(path))
      ensures request.headers == TokenOnly() && request.body == None
      ensures deleted <==> response.Resp?
    {
      request := Outgoing("DELETE", ObjectUrl(EndpointText(), ObjectLocation(path)), TokenOnly(), "");
      deleted := response.Resp?;
    }

    /**
      Deletes the directory object, then looks for a status of 200 on the
      bool that delete returned, which has none: the result is always false.
     */
    method DeleteDir(dirname: PhpString, response: Response) returns (request: Request, deleted: bool)
      ensures request.verb == "DELETE" && request.url == ObjectUrl(EndpointText(), ObjectLocation(dirname))
      ensures request.headers == TokenOnly() && request.body == None
      ensures !deleted
    {
      var outcome;
      request, outcome := Delete(dirname, response);
      DeleteDirNeverSucceeds(outcome);
      deleted := HasStatus200(BoolValue(outcome));
    }

    /** deleteDir as intended: it reports what the delete reported. */
    method DeleteDirCorrected(dirname: PhpString, response: Response) returns (request: Request, deleted: bool)
      ensures request.verb == "DELETE" && request.url == ObjectUrl(EndpointText(), ObjectLocation(dirname))
      ensures request.headers == TokenOnly() && request.body == None
      ensures deleted <==> response.Resp?
    {
      request, deleted := Delete(dirname, response);
    }

    /**
      Writes an empty object whose content type marks it as a directory.
      The config's headers are kept, the token and the marker are set over
      them, and the resulting map replaces write's own.
     */
    method CreateDir(dirname: PhpString, config: Config, response: Response)
      returns (request: Request, result: Option<Descriptor>)
      ensures request.verb == "PUT" && request.url == JsonUrl(EndpointText(), ObjectLocation(dirname))
      ensures request.body == None
      ensures request.headers.Keys == BaseHeaders(config).Keys + {AuthTokenHeader, ContentTypeHeader}
      ensures request.headers[AuthTokenHeader] == token
      ensures request.headers[ContentTypeHeader] == DirectoryMarker
      ensures forall k :: k in BaseHeaders(config) && k != AuthTokenHeader && k != ContentTypeHeader ==>
        request.headers[k] == BaseHeaders(config)[k]
      ensures result.Some? <==> response.Resp?
      ensures response.Resp? ==>
        result.value == NormalizeObject(foreign, pathPrefix, HeadersNormalizeObject(response.headers), ObjectLocation(dirname))
      ensures response.Resp? && FirstValue(response.headers, ContentTypeHeader) == Some(DirectoryMarker) ==>
        result.value.kind == Dir && result.value.mimetype == DirectoryMarker
    {
      var headers := BaseHeaders(config);
      headers := headers[AuthTokenHeader := token];
      headers := headers[ContentTypeHeader := DirectoryMarker];
      request, result := Write(dirname, "", Config(Some(headers)), response);
      if response.Resp? {
        DirectoryMarkerResponse(foreign, pathPrefix, response.headers, ObjectLocation(dirname));
      }
    }

    /** GET of the object at `name`; true exactly when the call produced a response. */
    method ObjectExists(name: PhpString, response: Response) returns (request: Request, found: bool)
      ensures request.verb == "GET" && request.url == ObjectUrl(EndpointText(), ObjectLocation(name))
      ensures request.headers == TokenOnly() && request.body == None
      ensures found <==> response.Resp?
    {
      request := Outgoing("GET", ObjectUrl(EndpointText(), ObjectLocation(name)), TokenOnly(), "");
      found := response.Resp?;
    }

    /**
      `has`: applies the prefix to the path and hands the result to
      objectExists, which applies it again, so the object it asks for is
      the one at the doubly encoded location.
     */
    method Has(path: PhpString, response: Response) returns (request: Request, found: bool)
      ensures request.verb == "GET"
      ensures request.url == ObjectUrl(EndpointText(), HasLocation(pathPrefix, OrEmpty(containerName), path))
      ensures request.headers == TokenOnly() && request.body == None
      ensures found <==> response.Resp?
    {
      var location := ApplyPathPrefix(pathPrefix, path);
      request, found := ObjectExists(location, response);
    }

    /** `has` as intended: it asks for the same location the other operations use. */
    method HasCorrected(path: PhpString, response: Response) returns (request: Request, found: bool)
      ensures request.verb == "GET" && request.url == ObjectUrl(EndpointText(), ObjectLocation(path))
      ensures request.headers == TokenOnly() && request.body == None
      ensures found <==> response.Resp?
    {
      request, found := ObjectExists(path, response);
    }

    /** GET of the object; the body of the response is the contents. */
    method Read(path: PhpString, response: Response) returns (request: Request, result: Reply<PhpString>)
      ensures request.verb == "GET" && request.url == ObjectUrl(EndpointText(), ObjectLocation(path))
      ensures request.headers == TokenOnly() && request.body == None
      ensures response.Resp? ==> result == Returned(response.body)
      ensures response.Fail? ==> result == Crashed
    {
      request := Outgoing("GET", ObjectUrl(EndpointText(), ObjectLocation(path)), TokenOnly(), "");
      if response.Resp? {
        result := Returned(response.body);
      } else {
        result := Crashed;
      }
    }

    /** GET of the object; its descriptor is read off the response headers. */
    method GetMetadata(path: PhpString, response: Response) returns (request: Request, result: Reply<Descriptor>)
      ensures request.verb == "GET" && request.url == ObjectUrl(EndpointText(), ObjectLocation(path))
      ensures request.headers == TokenOnly() && request.body == None
      ensures response.Resp? ==>
        result == Returned(NormalizeObject(foreign, pathPrefix, HeadersNormalizeObject(response.headers), ObjectLocation(path)))
      ensures response.Fail? ==> result == Crashed
    {
      var location := ObjectLocation(path);
      request := Outgoing("GET", ObjectUrl(EndpointText(), location), TokenOnly(), "");
      if response.Resp? {
        result := Returned(NormalizeObject(foreign, pathPrefix, HeadersNormalizeObject(response.headers), location));
      } else {
        result := Crashed;
      }
    }

    /**
      GET of the directory listing as JSON. Each entry is normalised
      against the directory's location, in order, and the descriptors are
      handed to directory emulation.
     */
    method ListContents(directory: PhpString, response: Response) returns (request: Request, result: Reply<seq<Descriptor>>)
      ensures request.verb == "GET" && request.url == JsonUrl(EndpointText(), ObjectLocation(directory))
      ensures request.headers == TokenOnly() && request.body == None
      ensures response.Resp? ==>
        result == Returned(foreign.emulateDirectories(
          NormalizeListing(foreign, pathPrefix, foreign.decodeListing(response.body), ObjectLocation(directory))))
      ensures response.Fail? ==> result == Crashed
    {
      var location := ObjectLocation(directory);
      request := Outgoing("GET", JsonUrl(EndpointText(), location), TokenOnly(), "");
      if response.Fail? {
        return request, Crashed;
      }
      var entries := foreign.decodeListing(response.body);
      var objects := NormalizeEntries(entries, location);
      assert objects == NormalizeListing(foreign, pathPrefix, entries, location);
      result := Returned(foreign.emulateDirectories(objects));
    }

    /**
      The loop of listContents: each entry is normalised against the
      listing location and pushed onto the result, in order.
     */
    method NormalizeEntries(entries: seq<RawObject>, location: PhpString) returns (objects: seq<Descriptor>)
      ensures |objects| == |entries|
      ensures forall k :: 0 <= k < |entries| ==> objects[k] == NormalizeObject(foreign, pathPrefix, entries[k], location)
    {
      objects := [];
      var i := 0;
      while i < |entries|
        invariant 0 <= i <= |entries|
        invariant |objects| == i
        invariant forall k :: 0 <= k < i ==> objects[k] == NormalizeObject(foreign, pathPrefix, entries[k], location)
      {
        objects := objects + [NormalizeObject(foreign, pathPrefix, entries[i], location)];
        i := i + 1;
      }
    }
  }
}
