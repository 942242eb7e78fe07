/**
 * The object-store bucket the handler downloads from and uploads to
 * (`s3_bucket`, ImageProcessorFunc/lambda_function.py:24). Only the two
 * operations the handler uses are modelled: downloading an object by key,
 * which fails when the key is absent, and uploading one, which may fail.
 */
module Store {
  import opened Wrappers

  newtype byte = b: int | 0 <= b < 256

  type Bytes = seq<byte>

  /** One request to the store, as recorded in a bucket's trace. */
  datatype Access = Get(key: string) | Put(key: string)

  class Bucket {
    /** The objects held, by key. */
    var objects: map<string, Bytes>
    /** Whether uploads are refused, taking the `except ClientError` branch around `upload_file`. */
    var uploadFails: bool
    /** Every download and upload made so far, oldest first. */
    ghost var trace: seq<Access>

    constructor (objects: map<string, Bytes>, uploadFails: bool)
      ensures this.objects == objects && this.uploadFails == uploadFails && trace == []
    {
      this.objects := objects;
      this.uploadFails := uploadFails;
      trace := [];
    }

    /** `download_file`: the object under `key`, or `None` when there is none. */
    method Download(key: string) returns (r: Option<Bytes>)
      modifies this`trace
      ensures r.Some? <==> key in objects
      ensures r.Some? ==> r.value == objects[key]
      ensures trace == old(trace) + [Get(key)]
    {
      r := if key in objects then Some(objects[key]) else None;
      trace := trace + [Get(key)];
    }

    /** `upload_file`: stores `data` under `key` unless uploads fail; reports success. */
    method Upload(key: string, data: Bytes) returns (ok: bool)
      modifies this`objects, this`trace
      ensures ok == !uploadFails
      ensures objects == if ok then old(objects)[key := data] else old(objects)
      ensures trace == old(trace) + [Put(key)]
    {
      ok := !uploadFails;
      if ok {
        objects := objects[key := data];
      }
      trace := trace + [Put(key)];
    }
  }
}
