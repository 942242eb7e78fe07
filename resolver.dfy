/**
 * The cache-fallback resolver (ImageProcessorFunc/lambda_function.py:68-157):
 * serve the original for size 0; otherwise serve the cached variant, or
 * compute it from the original, upload it under the variant key and serve it.
 */
module Resolver {
  import opened Wrappers
  import opened Strings
  import opened Store
  import opened Naming
  import opened Dimensions
  import opened Responses

  /**
   * The image library, which this model does not look inside: the
   * dimensions of an encoded image, and the re-encoded image resampled to
   * given dimensions in the original's format. `render` is total here: the
   * library's refusal of a zero or oversized side is not modelled.
   */
  datatype Codec = Codec(measure: Bytes -> Dims, render: (Bytes, Dims) -> Bytes)

  /** What a resolver step returns: the payload for `response` and the status code. */
  datatype Retrieved = Retrieved(payload: Payload, code: int)

  /** The whole effect of resolving one request: its result, the store afterwards, the store accesses made. */
  datatype Outcome = Outcome(result: Retrieved, objects: map<string, Bytes>, accesses: seq<Access>)

  function NotFound(name: string): string {
    "Not Found: " + name
  }

  const UploadFailed := "Internal Server Error: Unable to upload resized image to S3 bucket"

  /** The `size` variant computed from `original`. */
  function Resized(codec: Codec, original: Bytes, size: nat): Bytes {
    codec.render(original, TargetDims(codec.measure(original), size))
  }

  /**
   * The outcome of `retrieve_image(name, size)` against a store holding
   * `objects` whose uploads fail when `uploadFails`.
   */
  function Resolve(objects: map<string, Bytes>, uploadFails: bool, codec: Codec, name: string, size: nat): (o: Outcome)
    ensures o.result.code in {200, 201, 404, 500}
    ensures o.result.payload.ImageFile? <==> o.result.code in {200, 201}
    // The store changes only by caching a freshly computed variant, and never under the original's key.
    ensures o.objects == objects || (o.result.code == 201 && name in objects && o.objects == objects[VariantKey(name, size) := Resized(codec, objects[name], size)])
    // Nothing stored is ever changed or removed: a stored object, variant or original, stays valid.
    ensures forall k :: k in objects ==> k in o.objects && o.objects[k] == objects[k]
    ensures (Put(VariantKey(name, size)) in o.accesses) <==> o.result.code in {201, 500}
  {
    if size == 0 then
      if name in objects then Outcome(Retrieved(ImageFile(objects[name]), 200), objects, [Get(name)])
      else Outcome(Retrieved(ErrorDict(NotFound(name)), 404), objects, [Get(name)])
    else
      var key := VariantKey(name, size);
      VariantKeyIsNotOriginal(name, size);
      if key in objects then
        Outcome(Retrieved(ImageFile(objects[key]), 200), objects, [Get(key)])
      else if name !in objects then
        Outcome(Retrieved(ErrorDict(NotFound(name)), 404), objects, [Get(key), Get(name)])
      else
        var resized := Resized(codec, objects[name], size);
        if uploadFails then
          Outcome(Retrieved(ErrorDict(UploadFailed), 500), objects, [Get(key), Get(name), Put(key)])
        else
          Outcome(Retrieved(ImageFile(resized), 201), objects[key := resized], [Get(key), Get(name), Put(key)])
  }

  /** Size 0: only the original is read, the store is not written, and the original is served unmodified. */
  lemma ResolveOriginal(objects: map<string, Bytes>, uploadFails: bool, codec: Codec, name: string)
    ensures var o := Resolve(objects, uploadFails, codec, name, 0);
      o.accesses == [Get(name)] && o.objects == objects &&
      (name in objects ==> o.result == Retrieved(ImageFile(objects[name]), 200)) &&
      (name !in objects ==> o.result == Retrieved(ErrorDict(NotFound(name)), 404))
  {
  }

  /** A cached variant is served as stored, without consulting the original or writing the store. */
  lemma ResolveCached(objects: map<string, Bytes>, uploadFails: bool, codec: Codec, name: string, size: nat)
    requires size > 0 && VariantKey(name, size) in objects
    ensures Resolve(objects, uploadFails, codec, name, size) ==
      Outcome(Retrieved(ImageFile(objects[VariantKey(name, size)]), 200), objects, [Get(VariantKey(name, size))])
  {
  }

  /** Neither the variant nor the original: the original's 404 is passed on and nothing is uploaded. */
  lemma ResolveMissing(objects: map<string, Bytes>, uploadFails: bool, codec: Codec, name: string, size: nat)
    requires size > 0 && VariantKey(name, size) !in objects && name !in objects
    ensures var o := Resolve(objects, uploadFails, codec, name, size);
      o.result == Retrieved(ErrorDict(NotFound(name)), 404) && o.objects == objects &&
      o.accesses == [Get(VariantKey(name, size)), Get(name)]
  {
  }

  /**
   * The variant is computed from the original and uploaded under its key:
   * 201 with the new image when the upload succeeds, and afterwards the key
   * holds that image; 500 with an error and no image when it fails.
   */
  lemma ResolveComputed(objects: map<string, Bytes>, uploadFails: bool, codec: Codec, name: string, size: nat)
    requires size > 0 && VariantKey(name, size) !in objects && name in objects
    ensures var o := Resolve(objects, uploadFails, codec, name, size);
      var key := VariantKey(name, size);
      var resized := Resized(codec, objects[name], size);
      o.accesses == [Get(key), Get(name), Put(key)] &&
      (!uploadFails ==> o.result == Retrieved(ImageFile(resized), 201) && key in o.objects && o.objects[key] == resized) &&
      (uploadFails ==> o.result == Retrieved(ErrorDict(UploadFailed), 500) && o.objects == objects)
  {
  }

  /**
   * After a request that computed and stored a variant, the same request is a
   * cache hit: status 200, the very bytes served the first time, no change
   * to the store, whether or not uploads would now fail.
   */
  lemma RepeatIsCacheHit(objects: map<string, Bytes>, uploadFails: bool, uploadFailsLater: bool, codec: Codec, name: string, size: nat)
    requires Resolve(objects, uploadFails, codec, name, size).result.code == 201
    ensures var first := Resolve(objects, uploadFails, codec, name, size);
      var second := Resolve(first.objects, uploadFailsLater, codec, name, size);
      second.result == Retrieved(first.result.payload, 200) && second.objects == first.objects
  {
    var first := Resolve(objects, uploadFails, codec, name, size);
    assert size > 0;
    assert VariantKey(name, size) in first.objects;
  }

  /** Resolving twice leaves the store as resolving once does. */
  lemma ResolveSettles(objects: map<string, Bytes>, uploadFails: bool, codec: Codec, name: string, size: nat)
    ensures var once := Resolve(objects, uploadFails, codec, name, size);
      Resolve(once.objects, uploadFails, codec, name, size).objects == once.objects
  {
    var once := Resolve(objects, uploadFails, codec, name, size);
    if once.result.code == 201 {
      RepeatIsCacheHit(objects, uploadFails, uploadFails, codec, name, size);
    }
  }

  /**
   * Requests for other sizes of the same image never disturb one another's
   * cached variant: a corollary of the frame of `Resolve`.
   */
  lemma OtherVariantsUntouched(objects: map<string, Bytes>, uploadFails: bool, codec: Codec, name: string, size: nat, other: nat)
    requires other > 0 && other != size
    ensures var o := Resolve(objects, uploadFails, codec, name, size);
      VariantKey(name, other) in objects ==>
        (VariantKey(name, other) in o.objects &&
         o.objects[VariantKey(name, other)] == objects[VariantKey(name, other)])
  {
  }

  /** `retrieve_original_image`: download the original; 404 when it is absent. */
  method RetrieveOriginalImage(bucket: Bucket, filename: string) returns (r: Retrieved)
    modifies bucket`trace
    ensures bucket.trace == old(bucket.trace) + [Get(filename)]
    ensures filename in bucket.objects ==> r == Retrieved(ImageFile(bucket.objects[filename]), 200)
    ensures filename !in bucket.objects ==> r == Retrieved(ErrorDict(NotFound(filename)), 404)
  {
    var data := bucket.Download(filename);
    if data.None? {
      return Retrieved(ErrorDict(NotFound(filename)), 404);
    }
    return Retrieved(ImageFile(data.value), 200);
  }

  /** `resize_image`: compute the variant of `original`, upload it under `outputFilename`, serve it. */
  method ResizeImage(bucket: Bucket, codec: Codec, original: Bytes, outputFilename: string, size: nat) returns (r: Retrieved)
    modifies bucket`objects, bucket`trace
    ensures bucket.trace == old(bucket.trace) + [Put(outputFilename)]
    ensures bucket.uploadFails ==>
      r == Retrieved(ErrorDict(UploadFailed), 500) && bucket.objects == old(bucket.objects)
    ensures !bucket.uploadFails ==>
      r == Retrieved(ImageFile(Resized(codec, original, size)), 201) &&
      bucket.objects == old(bucket.objects)[outputFilename := Resized(codec, original, size)]
  {
    var image := codec.measure(original);
    var target := TargetDims(image, size);
    var resized := codec.render(original, target);
    var ok := bucket.Upload(outputFilename, resized);
    if !ok {
      return Retrieved(ErrorDict(UploadFailed), 500);
    }
    return Retrieved(ImageFile(resized), 201);
  }

  /** `retrieve_resized_image`: the cached variant, or else one computed from the original. */
  method RetrieveResizedImage(bucket: Bucket, codec: Codec, filename: string, size: nat) returns (r: Retrieved)
    requires size > 0
    modifies bucket`objects, bucket`trace
    ensures var o := Resolve(old(bucket.objects), bucket.uploadFails, codec, filename, size);
      r == o.result && bucket.objects == o.objects && bucket.trace == old(bucket.trace) + o.accesses
  {
    // The extension `file_name_ext` also returns is never used here.
    var resizedFilename := VariantKey(filename, size);
    var cached := bucket.Download(resizedFilename);
    if cached.Some? {
      return Retrieved(ImageFile(cached.value), 200);
    }
    var original := RetrieveOriginalImage(bucket, filename);
    if original.payload.ErrorDict? {
      return original;
    }
    r := ResizeImage(bucket, codec, original.payload.content, resizedFilename, size);
  }

  /** `retrieve_image`: resolve the request and wrap the result in a response. */
  method RetrieveImage(bucket: Bucket, codec: Codec, filename: string, size: nat) returns (resp: Response)
    modifies bucket`objects, bucket`trace
    ensures var o := Resolve(old(bucket.objects), bucket.uploadFails, codec, filename, size);
      resp == MakeResponse(o.result.payload, o.result.code, filename) &&
      bucket.objects == o.objects && bucket.trace == old(bucket.trace) + o.accesses
  {
    var r: Retrieved;
    if size == 0 {
      r := RetrieveOriginalImage(bucket, filename);
    } else {
      r := RetrieveResizedImage(bucket, codec, filename, size);
    }
    resp := MakeResponse(r.payload, r.code, filename);
  }

  /**
   * Two identical requests in a row: when the first computes and stores a
   * variant (201), the second is served from the cache (200) with the same body.
   */
  method RepeatRequest(bucket: Bucket, codec: Codec, filename: string, size: nat) returns (first: Response, second: Response)
    modifies bucket`objects, bucket`trace
    ensures ParseInt(first.statusCode) == Some(201) ==>
      ParseInt(second.statusCode) == Some(200) && second.body == first.body && second.isBase64Encoded
    ensures var once := Resolve(old(bucket.objects), bucket.uploadFails, codec, filename, size);
      var twice := Resolve(once.objects, bucket.uploadFails, codec, filename, size);
      bucket.objects == once.objects && bucket.trace == old(bucket.trace) + once.accesses + twice.accesses
  {
    ghost var before := bucket.objects;
    first := RetrieveImage(bucket, codec, filename, size);
    ghost var after := bucket.objects;
    second := RetrieveImage(bucket, codec, filename, size);
    ResolveSettles(before, bucket.uploadFails, codec, filename, size);
    SmallWithinLimit(Resolve(before, bucket.uploadFails, codec, filename, size).result.code);
    SmallWithinLimit(Resolve(after, bucket.uploadFails, codec, filename, size).result.code);
    if ParseInt(first.statusCode) == Some(201) {
      RepeatIsCacheHit(before, bucket.uploadFails, bucket.uploadFails, codec, filename, size);
    }
  }
}
