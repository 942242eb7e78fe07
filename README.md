# Image server: on-demand resize with a store-backed cache

A model, in Dafny, of the request handler of an image server that runs as
a serverless function (`ImageProcessorFunc/lambda_function.py`). A request
names an image by the last segment of its path and may ask for a `size`.
Size 0 serves the original object from the bucket. A positive size serves
the variant stored under a derived key (`photo.jpg` at 256 is
`photo-256.jpg`). If that variant is absent, the handler fetches the
original and scales it so that its longer side is `size`. It uploads the
result under the derived key and serves it with status 201. The statuses
are 400 for a malformed request, 404 for a missing original and 500 for a
failed upload.

Layout, one module per file:

- `wrappers.dfy`: `Option` and `Result`.
- `strings.dfy`: the Python string built-ins the handler relies on. These
  are `str.rfind`, `str.split` with its inverse `Join`, `str(int)` as
  `Decimal`, `int(str)` as `ParseInt`, and `str.upper`.
- `naming.dfy`: `os.path.splitext` as `SplitExt`, and `file_name_ext` as
  `FileNameExt`, built from `VariantKey` and `ExtensionName`.
- `dimensions.dfy`: the target width and height computed in `resize_image`.
- `store.dfy`: the bucket, a class whose `objects` map changes only on a
  successful upload. Its `uploadFails` flag makes uploads fail. A ghost
  `trace` records every download and upload.
- `responses.dfy`: the response dictionary built by `response`.
- `resolver.dfy`: `Resolve`, the whole effect of one request as a function
  of the store's contents, with the lemmas about it. It also has the methods
  `RetrieveOriginalImage` and `ResizeImage`, whose contracts state their
  results and new store directly. `RetrieveResizedImage` and `RetrieveImage`
  are proved equal to `Resolve` in result, store and trace.
- `handler.dfy`: `Validate`, the checks `lambda_handler` makes, and the
  method `LambdaHandler`.

The source computes the shorter side as
`int((float(size) / float(long)) * short)`. The model uses the exact integer
quotient `size * short / long`. Python's float arithmetic approximates that
quotient, and a result that is an exact integer may come out one less
through float rounding. The model does not capture that difference.

## Model

| member | source | states |
|---|---|---|
| `Strings.Split` | ImageProcessorFunc/lambda_function.py:175 | `str.split` always gives at least one piece, no piece contains the separator, and a single piece is the whole string |
| `Strings.JoinSplit` | ImageProcessorFunc/lambda_function.py:175 | joining the pieces of a split with the separator gives back the string |
| `Strings.SplitJoin` | ImageProcessorFunc/lambda_function.py:175 | splitting a join of separator-free pieces gives back the pieces, so split and join are inverse |
| `Strings.LastPiece` | ImageProcessorFunc/lambda_function.py:175 | `path.split('/')[-1]` is exactly the text after the last `/` (the whole path when there is none) |
| `Strings.ParseInt` | ImageProcessorFunc/lambda_function.py:164 | `int(s)` succeeds exactly on an optional sign followed by one to 4300 ASCII digits (CPython's integer string conversion limit; longer literals raise `ValueError`, which the handler answers with 400); a negative result needs a leading `-`, and without `-` the result is not negative |
| `Strings.ParseDecimal` | ImageProcessorFunc/lambda_function.py:164 | `int(str(n)) == n` for every integer of at most 4300 digits: the size written in a query and the status code written with `str` read back as the same number |
| `Strings.Decimal` | ImageProcessorFunc/lambda_function.py:64 | `str(n)` (also `str(status_code)` at line 36) is a run of ASCII digits for `n >= 0` and `-` followed by digits otherwise, with no leading zero in either case |
| `Strings.DecimalInjective` | ImageProcessorFunc/lambda_function.py:64 | distinct integers print differently |
| `Strings.Upper` | ImageProcessorFunc/lambda_function.py:65 | `upper()` keeps the length, leaves no lower-case ASCII letter, maps each lower-case letter to its capital and keeps every other character |
| `Naming.SplitExt` | ImageProcessorFunc/lambda_function.py:63 | `splitext` splits the name into a root and an extension that concatenate back to the name; the extension is empty or starts with a dot |
| `Naming.SplitExtCharacterised` | ImageProcessorFunc/lambda_function.py:63 | an extension is found exactly when there is a dot with no dot or slash after it and a non-dot character before it in the last path component; the cut is at that dot, the only such place |
| `Naming.VariantKey` | ImageProcessorFunc/lambda_function.py:62-64 | a size that is not positive leaves the name unchanged; a positive size gives a strictly longer key |
| `Naming.FileNameExt` | ImageProcessorFunc/lambda_function.py:62-65 | the pair is the variant key and the extension name; for size 0 the key is the name itself; for a positive size the key has the original's extension |
| `Naming.ExtensionName` | ImageProcessorFunc/lambda_function.py:63-65 | `extension[1:].upper()`: as long as the extension less its dot, empty when the name has no extension, with no dot and no lower-case ASCII letter; each character is the upper-case form of the extension character after the dot at the same position |
| `Naming.VariantKeySplit` | ImageProcessorFunc/lambda_function.py:62-64 | for a positive size the derived key splits back into `root + "-" + str(size)` and the original's extension, so the key is `root-<size>.ext` |
| `Naming.VariantKeysDistinct` | ImageProcessorFunc/lambda_function.py:62-64 | two positive sizes of the same image never share a derived key |
| `Naming.VariantKeyIsNotOriginal` | ImageProcessorFunc/lambda_function.py:62-64 | a derived key is never the original's key, so caching a variant cannot overwrite the original |
| `Dimensions.ScaleShorter` | ImageProcessorFunc/lambda_function.py:99 | the scaled shorter side is at most `size` and is `size * short / long` rounded down |
| `Dimensions.TargetDims` | ImageProcessorFunc/lambda_function.py:94-103 | a square image becomes `size x size`; otherwise the longer side becomes `size` and the shorter side is the rounded-down proportional size, at most `size` |
| `Dimensions.LongerSideIsSize` | ImageProcessorFunc/lambda_function.py:94-103 | the longer side of the result is exactly `size`, and landscape and portrait images keep their orientation |
| `Dimensions.ShorterSideVanishes` | ImageProcessorFunc/lambda_function.py:97-103 | the shorter side truncates to 0 exactly when `size * short < long` |
| `Store.Bucket.constructor` | ImageProcessorFunc/lambda_function.py:24 | a bucket starts with the given objects and upload behaviour and an empty trace |
| `Store.Bucket.Download` | ImageProcessorFunc/lambda_function.py:73 | a download yields the stored object exactly when the key is present, and is recorded in the trace |
| `Store.Bucket.Upload` | ImageProcessorFunc/lambda_function.py:117 | an upload succeeds unless uploads fail; on success it stores the data under the key, on failure it changes nothing; it is recorded in the trace |
| `Responses.MakeResponse` | ImageProcessorFunc/lambda_function.py:30-53 | an error dictionary gives a JSON response with `isBase64Encoded` false; a file gives a base64 response typed from the file name; the status text is exactly `str(status_code)`, which parses back to the code |
| `Resolver.Resolve` | ImageProcessorFunc/lambda_function.py:127-156 | the status is 200, 201, 404 or 500, with an image exactly for 200 and 201; the store changes only by storing the computed variant under its key with 201; nothing already stored is changed or removed, so a stored variant and the original stay valid; there is an upload exactly when the status is 201 or 500 |
| `Resolver.ResolveOriginal` | ImageProcessorFunc/lambda_function.py:68-80 | with size 0 only the original is read and nothing is written; a present original is served unmodified with 200, a missing one gives 404 `Not Found: <name>` |
| `Resolver.ResolveCached` | ImageProcessorFunc/lambda_function.py:127-148 | with a positive size and the variant present, the stored variant is served with 200; only the variant is read and the store is unchanged |
| `Resolver.ResolveMissing` | ImageProcessorFunc/lambda_function.py:137-143 | with the variant and the original both absent, the original's 404 is passed on unchanged and nothing is uploaded |
| `Resolver.ResolveComputed` | ImageProcessorFunc/lambda_function.py:115-124 | with the variant absent and the original present, the variant is computed and uploaded; on success the result is 201 with the new image and the key holds it; on failure the result is 500 with the error message, no image and an unchanged store |
| `Resolver.RepeatIsCacheHit` | ImageProcessorFunc/lambda_function.py:127-148 | after a 201 the same request gives 200 with the very same image and leaves the store alone, even if uploads would now fail |
| `Resolver.ResolveSettles` | ImageProcessorFunc/lambda_function.py:127-148 | resolving a request a second time leaves the store as the first resolution left it |
| `Resolver.OtherVariantsUntouched` | ImageProcessorFunc/lambda_function.py:62-64 | a request for one size never changes the cached variant of another size of the same image; a corollary of the frame of `Resolve` |
| `Resolver.RetrieveOriginalImage` | ImageProcessorFunc/lambda_function.py:68-80 | downloads the original only; 200 with its bytes when present, 404 `Not Found: <name>` otherwise |
| `Resolver.ResizeImage` | ImageProcessorFunc/lambda_function.py:83-124 | renders the original at the target dimensions and uploads it under the output key; 201 with the image and the key stored, or 500 with the error and the store unchanged |
| `Resolver.RetrieveResizedImage` | ImageProcessorFunc/lambda_function.py:127-148 | its result, the store afterwards and the accesses it makes are those of `Resolve` |
| `Resolver.RetrieveImage` | ImageProcessorFunc/lambda_function.py:151-156 | the response wraps the result of `Resolve` for the original's file name; the store and the trace change as `Resolve` says |
| `Resolver.RepeatRequest` | ImageProcessorFunc/lambda_function.py:151-156 | two identical requests in a row: when the first answers 201 the second answers 200 with the same base64 body; the store ends as after the first request, and the trace holds the first request's accesses and then the second's |
| `Handler.ImageName` | ImageProcessorFunc/lambda_function.py:175 | the image name holds no `/`, ends the path, and is preceded in it by a `/` unless it is the whole path |
| `Handler.NameAfterSlash` | ImageProcessorFunc/lambda_function.py:175 | the name taken from `prefix/name` is `name` whenever `name` holds no `/` |
| `Handler.Validate` | ImageProcessorFunc/lambda_function.py:162-179 | a `size` that does not parse gives `Bad Request: Invalid size value`; a negative one gives the same message with a trailing colon; each size message is given exactly when the size is that bad; `Bad Request: No image filename provided` is given exactly when the size is acceptable and the name is empty; an accepted request has a non-empty name without `/` that is the segment after the last `/` of the path, and a size that is 0 without a usable query string or the parsed value otherwise |
| `Handler.ValidateRequestLine` | ImageProcessorFunc/lambda_function.py:162-179 | a path ending in `/<name>` with `?size=<n>`, `n` of at most 4300 digits, validates to exactly that name and size |
| `Handler.LambdaHandler` | ImageProcessorFunc/lambda_function.py:159-184 | a rejected request gives a 400 JSON response before any store access; an accepted one gives the response of `Resolve` for the validated name and size; every status code is 200, 201, 400, 404 or 500 |

## Left out

- Resolver.Resolve: `Codec.render` is total, so a variant is always produced and the outcome is 201 or 500. In the source, `Image.resize` at line 107 raises when a side is 0 (reachable, see `Dimensions.ShorterSideVanishes`) or too large for the image library. `float(size)` at lines 99 and 102 also overflows for huge sizes. In those cases the invocation ends with an unhandled exception, with no upload and no response. The model does not capture that outcome.
- Resolver.ResizeImage: the same applies. The model renders and uploads where the source raises on a zero or out-of-range side.
- Store.Bucket.Upload: `uploadFails` models the `except ClientError` branch at lines 119-122 as written, giving 500. The bucket's `upload_file` wraps a refused upload in its own `S3UploadFailedError`, which is not a `ClientError`. So in the source a refused upload ends with an unhandled exception, not the 500 response. The model does not capture that exception.
- The object store's SDK is not modelled. A download fails exactly when the key is absent; every `ClientError` on a download is read as "not found", as the source does. An upload fails as the bucket's `uploadFails` flag says.
- Image decoding, LANCZOS resampling and re-encoding are not modelled. They are the two functions of a `Codec` value: `measure` for the dimensions and `render` for the resized bytes. The model assumes every stored original decodes; a decoding error in the source is an unhandled exception.
- Dimensions.ScaleShorter: floor division stands in for the float expression at line 99, so the float source can give one less; see the example below.
- Dimensions.ShorterSideVanishes: the "exactly when" holds for floor division only. With the float expression, width 98, height 49 and size 2 give 0 although `2 * 49 < 98` is false.
- Dimensions.TargetDims: the shorter side uses integer floor division, not the float expression of lines 99 and 102. Float rounding can make the source's value one less than the model's. For width 98, height 49 and size 2, the double `(2.0 / 98.0) * 49` rounds to just below 1, so the source gives height 0 where the model gives 1.
- The temporary directory, `os.path.join`, `os.stat` and the file reads and writes are not modelled. Bytes travel as values.
- `base64.b64encode` and `mimetypes.guess_type` are not modelled. The body holds the payload itself, and the content type names the file it would be guessed from. `json.dumps` of the error dictionary is not modelled either: the body holds the message.
- Strings.Decimal: is total. CPython's `str` also raises `ValueError` beyond 4300 digits; sizes reach it only after `int` has accepted them, and status codes have three digits.
- Strings.ParseInt: accepts only an optional sign followed by ASCII digits. Python's `int` also accepts surrounding whitespace, underscores between digits and non-ASCII digits.
- Strings.Upper: maps only ASCII letters. Python's `str.upper` also maps other letters, some to several characters.
- Logging setup and every log call are not modelled.
- Concurrent invocations writing the same derived key are not modelled.
- An event without a `path` or `queryStringParameters` field is not modelled. The source raises `KeyError` there.
