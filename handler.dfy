/**
 * The entry point `lambda_handler` (ImageProcessorFunc/lambda_function.py:159-184):
 * read the size from the query string and the image name from the path,
 * reject a malformed request with 400 before touching the store, and
 * otherwise resolve it.
 */
module Handler {
  import opened Wrappers
  import opened Strings
  import opened Store
  import opened Responses
  import opened Resolver

  /** The parts of the proxy-integration event the handler reads. `None` is a null query string. */
  datatype Event = Event(path: string, queryStringParameters: Option<map<string, string>>)

  /** A request that passed validation. */
  datatype Request = Request(name: string, size: nat)

  const InvalidSize := "Bad Request: Invalid size value"
  const NegativeSize := "Bad Request: Invalid size value:"
  const NoFilename := "Bad Request: No image filename provided"

  /** The query string counts only when it is present and not empty. */
  predicate HasQuery(event: Event) {
    event.queryStringParameters.Some? && |event.queryStringParameters.value| > 0
  }

  /** The raw `size` parameter, when the query string counts and holds one. */
  function SizeParameter(event: Event): Option<string> {
    if HasQuery(event) && "size" in event.queryStringParameters.value then
      Some(event.queryStringParameters.value["size"])
    else None
  }

  /**
   * `event['path'].split('/')[-1]`: the text after the last `/` of the path,
   * or the whole path when it has none.
   */
  function ImageName(path: string): (name: string)
    ensures '/' !in name
    ensures IsSegmentAfterLastSlash(path, name)
  {
    var parts := Split(path, '/');
    LastPieceIsSuffix(path, '/');
    parts[|parts| - 1]
  }

  /** `name` ends `path` and is preceded in it by a `/`, unless it is all of `path`. */
  predicate IsSegmentAfterLastSlash(path: string, name: string) {
    |name| <= |path| && path[|path| - |name|..] == name && (|name| == |path| || path[|path| - |name| - 1] == '/')
  }

  /**
   * The checks `lambda_handler` makes before resolving, in its order: the
   * size first, then the name. A failure carries the error message.
   */
  function Validate(event: Event): (r: Result<Request, string>)
    ensures r == Failure(InvalidSize) <==>
      SizeParameter(event).Some? && ParseInt(SizeParameter(event).value).None?
    ensures r == Failure(NegativeSize) <==>
      SizeParameter(event).Some? && ParseInt(SizeParameter(event).value).Some? && ParseInt(SizeParameter(event).value).value < 0
    ensures r == Failure(NoFilename) <==>
      r != Failure(InvalidSize) && r != Failure(NegativeSize) && ImageName(event.path) == []
    ensures r.Failure? ==> r.error in {InvalidSize, NegativeSize, NoFilename}
    ensures r.Success? ==> r.value.name != [] && '/' !in r.value.name && IsSegmentAfterLastSlash(event.path, r.value.name)
    ensures r.Success? && SizeParameter(event).None? ==> r.value.size == 0
    ensures r.Success? && SizeParameter(event).Some? ==> ParseInt(SizeParameter(event).value) == Some(r.value.size)
  {
    var size :=
      if HasQuery(event) then
        var query := event.queryStringParameters.value;
        if "size" in query then ParseInt(query["size"]) else Some(0)
      else Some(0);
    if size.None? then Failure(InvalidSize)
    else if size.value < 0 then Failure(NegativeSize)
    else
      var name := ImageName(event.path);
      if name == [] then Failure(NoFilename)
      else Success(Request(name, size.value))
  }

  /**
   * A request for `name` at `size` made the usual way, as a path ending in
   * `/name` with `?size=<size>`, validates to exactly that name and size.
   */
  lemma ValidateRequestLine(prefix: string, name: string, size: nat)
    requires name != [] && '/' !in name
    requires WithinDigitLimit(size)
    ensures Validate(Event(prefix + "/" + name, Some(map["size" := Decimal(size)]))) == Success(Request(name, size))
  {
    var event := Event(prefix + "/" + name, Some(map["size" := Decimal(size)]));
    NameAfterSlash(prefix, name);
    ParseDecimal(size);
    assert HasQuery(event);
    assert SizeParameter(event) == Some(Decimal(size));
  }

  /** The name at the end of `prefix/name` is `name`. */
  lemma NameAfterSlash(prefix: string, name: string)
    requires '/' !in name
    ensures ImageName(prefix + "/" + name) == name
  {
    var path := prefix + "/" + name;
    var r := RFind(path, '/');
    assert path[|prefix|] == '/';
    forall k | |prefix| < k < |path| ensures path[k] != '/' {
      assert path[k] == name[k - |prefix| - 1];
    }
    assert r == |prefix|;
    assert path[r + 1..] == name;
    LastPiece(path, '/');
  }

  /** `lambda_handler(event, context)`. */
  method LambdaHandler(bucket: Bucket, codec: Codec, event: Event) returns (resp: Response)
    modifies bucket`objects, bucket`trace
    ensures Validate(event).Failure? ==>
      resp == MakeResponse(ErrorDict(Validate(event).error), 400, "") &&
      bucket.objects == old(bucket.objects) && bucket.trace == old(bucket.trace)
    ensures Validate(event).Success? ==>
      var request := Validate(event).value;
      var o := Resolve(old(bucket.objects), bucket.uploadFails, codec, request.name, request.size);
      resp == MakeResponse(o.result.payload, o.result.code, request.name) &&
      bucket.objects == o.objects && bucket.trace == old(bucket.trace) + o.accesses
    ensures ParseInt(resp.statusCode).Some? && ParseInt(resp.statusCode).value in {200, 201, 400, 404, 500}
  {
    var size: int := 0;
    if HasQuery(event) {
      var query := event.queryStringParameters.value;
      var parsed := if "size" in query then ParseInt(query["size"]) else Some(0);
      if parsed.None? {
        assert Validate(event) == Failure(InvalidSize);
        SmallWithinLimit(400);
        return MakeResponse(ErrorDict(InvalidSize), 400, "");
      }
      size := parsed.value;
      if size < 0 {
        assert Validate(event) == Failure(NegativeSize);
        SmallWithinLimit(400);
        return MakeResponse(ErrorDict(NegativeSize), 400, "");
      }
    }
    var parts := Split(event.path, '/');
    var name := parts[|parts| - 1];
    assert name == ImageName(event.path);
    if name == [] {
      assert Validate(event) == Failure(NoFilename);
      SmallWithinLimit(400);
      return MakeResponse(ErrorDict(NoFilename), 400, "");
    }
    assert Validate(event) == Success(Request(name, size));
    SmallWithinLimit(Resolve(bucket.objects, bucket.uploadFails, codec, name, size).result.code);
    resp := RetrieveImage(bucket, codec, name, size);
  }
}
