/**
 * The S3 updater: deleting a list of keys with one multi-object request and
 * uploading a set of local files, each through a caller-supplied upload
 * function.
 */
module S3Updater {
  import opened Common
  import Paths

  /** `prepend_path`: the file name joined onto the path. */
  function PrependPath(path: string, file: string): (r: string)
    ensures Paths.IsAbsolute(file) ==> r == file
    ensures !Paths.IsAbsolute(file) && path != "" && !EndsWith(path, "/") ==> r == path + "/" + file
    ensures !Paths.IsAbsolute(file) && (path == "" || EndsWith(path, "/")) ==> r == path + file
  {
    Paths.Join(path, file)
  }

  /** The path test: "path/to" and "myfile.txt" give "path/to/myfile.txt". */
  lemma PrependPathExample()
    ensures PrependPath("path/to", "myfile.txt") == "path/to/myfile.txt"
  {
    assert !Paths.IsAbsolute("myfile.txt") by { assert "myfile.txt"[0] == 'm'; }
    assert !EndsWith("path/to", "/") by { assert "path/to"[6] == 'o'; }
  }

  /** A relative file name under a directory with no trailing separator can be recovered from the joined path. */
  lemma PrependPathInjective(path: string, f1: string, f2: string)
    requires path != "" && !EndsWith(path, "/")
    requires !Paths.IsAbsolute(f1) && !Paths.IsAbsolute(f2)
    requires PrependPath(path, f1) == PrependPath(path, f2)
    ensures f1 == f2
  {
    var n := |path| + 1;
    assert f1 == PrependPath(path, f1)[n..];
    assert f2 == PrependPath(path, f2)[n..];
  }

  // ------------------------------------------------------------- deleting

  /**
   * `delete_files_template`: the delete function is handed the bucket
   * fetched by name from a fresh client, and the key list unchanged.
   */
  function DeleteFilesTemplate<C, B, R>(getS3Client: () -> C, getBucket: (C, string) -> B,
                                        deleteKeys: (B, seq<string>) -> R,
                                        keyList: seq<string>, s3Bucket: string): (r: R)
    ensures exists b :: b == getBucket(getS3Client(), s3Bucket) && r == deleteKeys(b, keyList)
  {
    deleteKeys(getBucket(getS3Client(), s3Bucket), keyList)
  }

  /** The `Delete` argument of `delete_objects`: one `{"Key": key}` object per key. */
  datatype DeleteObject = DeleteObject(key: string)
  datatype DeleteRequest = DeleteRequest(objects: seq<DeleteObject>)

  /** The response of `delete_objects`; either list may be absent. */
  datatype DeleteResponse<D, E> = DeleteResponse(deleted: Option<seq<D>>, errors: Option<seq<E>>)

  /** The structure `delete_keys` returns. */
  datatype MultiDeleteResult<D, E> = MultiDeleteResult(deleted: seq<D>, errors: seq<E>)

  /** The keys a request asks to delete, in order. */
  function RequestKeys(request: DeleteRequest): (keys: seq<string>)
    ensures |keys| == |request.objects|
  {
    seq(|request.objects|, i requires 0 <= i < |request.objects| => request.objects[i].key)
  }

  /**
   * `delete_keys` against a bucket whose `delete_objects` is given: the
   * request made (none for an empty key list) and the result. The request
   * names every key once, in order; the result copies the response's lists,
   * an absent one read as empty.
   */
  function DeleteKeys<D, E>(deleteObjects: DeleteRequest -> DeleteResponse<D, E>, keyList: seq<string>)
    : (r: (Option<DeleteRequest>, MultiDeleteResult<D, E>))
    ensures r.0.None? <==> keyList == []
    ensures r.0.Some? ==> RequestKeys(r.0.value) == keyList
    ensures r.0.None? ==> r.1 == MultiDeleteResult([], [])
    ensures r.0.Some? ==> r.1.deleted == deleteObjects(r.0.value).deleted.GetOr([])
    ensures r.0.Some? ==> r.1.errors == deleteObjects(r.0.value).errors.GetOr([])
  {
    var delete := DeleteRequest(seq(|keyList|, i requires 0 <= i < |keyList| => DeleteObject(keyList[i])));
    if |delete.objects| > 0 then
      var response := deleteObjects(delete);
      (Some(delete), MultiDeleteResult(response.deleted.GetOr([]), response.errors.GetOr([])))
    else
      (None, MultiDeleteResult([], []))
  }

  /** The keys of `keys` that are (or are not) in `good`, in order. */
  function KeysIn(keys: seq<string>, good: set<string>, wanted: bool): seq<string> {
    if keys == [] then []
    else if (keys[0] in good) == wanted then [keys[0]] + KeysIn(keys[1..], good, wanted)
    else KeysIn(keys[1..], good, wanted)
  }

  /** A bucket that deletes the keys in `good` and reports the others as errors. */
  function PartialDelete(good: set<string>, request: DeleteRequest): DeleteResponse<string, string> {
    DeleteResponse(Some(KeysIn(RequestKeys(request), good, true)), Some(KeysIn(RequestKeys(request), good, false)))
  }

  /** The error test: of key1 to key5 a bucket refuses key3; the other four are deleted in order, key3 is the one error. */
  lemma DeleteKeysReportsErrors()
    ensures var r := DeleteKeys(request => PartialDelete({"key1", "key2", "key4", "key5"}, request),
                                ["key1", "key2", "key3", "key4", "key5"]);
            r.1.deleted == ["key1", "key2", "key4", "key5"] && r.1.errors == ["key3"]
  {
    var keys := ["key1", "key2", "key3", "key4", "key5"];
    var good := {"key1", "key2", "key4", "key5"};
    assert "key3" !in good by {
      assert "key3"[3] != "key1"[3] && "key3"[3] != "key2"[3] && "key3"[3] != "key4"[3] && "key3"[3] != "key5"[3];
    }
    var r := DeleteKeys(request => PartialDelete(good, request), keys);
    assert RequestKeys(r.0.value) == keys;
    assert KeysIn(keys[4..], good, true) == ["key5"];
    assert KeysIn(keys[3..], good, true) == ["key4", "key5"];
    assert KeysIn(keys[2..], good, true) == ["key4", "key5"];
    assert KeysIn(keys, good, true) == ["key1", "key2", "key4", "key5"];
    assert KeysIn(keys[3..], good, false) == [];
    assert KeysIn(keys, good, false) == ["key3"];
  }

  // ------------------------------------------------------------ uploading

  /** One call of the upload function: the bucket, then the two paths in the order the template passes them. */
  datatype UploadCall<B> = UploadCall(bucket: B, localFile: string, s3Key: string)

  /** The call the template makes for one file: the local path first, the S3 path second. */
  function CallFor<B>(bucket: B, localPath: string, s3Path: string, file: string): UploadCall<B> {
    UploadCall(bucket, PrependPath(localPath, file), PrependPath(s3Path, file))
  }

  /** `calls` are the template's calls for the files of `order`, one each, in that order. */
  predicate CallsFor<B(==)>(bucket: B, localPath: string, s3Path: string, order: seq<string>, calls: seq<UploadCall<B>>) {
    |calls| == |order| && forall i :: 0 <= i < |order| ==> calls[i] == CallFor(bucket, localPath, s3Path, order[i])
  }

  /** No file appears twice in `order`. */
  predicate Distinct(order: seq<string>) {
    forall i, j :: 0 <= i < j < |order| ==> order[i] != order[j]
  }

  /** Appending a file not yet visited, with its call, keeps the calls matched and the order free of repeats. */
  lemma ExtendOrder<B>(bucket: B, localPath: string, s3Path: string, order: seq<string>, calls: seq<UploadCall<B>>, file: string)
    requires CallsFor(bucket, localPath, s3Path, order, calls) && Distinct(order) && file !in order
    ensures CallsFor(bucket, localPath, s3Path, order + [file], calls + [CallFor(bucket, localPath, s3Path, file)])
    ensures Distinct(order + [file])
  {
  }

  /**
   * `upload_files_template`: one upload call per file of the set, in the
   * set's iteration order (returned as `order`); `uploadRaises` says which
   * calls raise, and the first one that does ends the loop and is raised.
   */
  method UploadFilesTemplate<C, B(==)>(getS3Client: () -> C, getBucket: (C, string) -> B,
                                   uploadRaises: UploadCall<B> -> Option<Exception>,
                                   localFileSet: set<string>, localPath: string, s3Bucket: string, s3Path: string)
    returns (order: seq<string>, calls: seq<UploadCall<B>>, raised: Option<Exception>)
    ensures CallsFor(getBucket(getS3Client(), s3Bucket), localPath, s3Path, order, calls)
    ensures Distinct(order) && forall i :: 0 <= i < |order| ==> order[i] in localFileSet
    ensures raised.None? ==> forall f :: f in localFileSet ==> f in order
    ensures raised.None? ==> forall i :: 0 <= i < |calls| ==> uploadRaises(calls[i]).None?
    ensures raised.Some? ==> |calls| > 0 && raised == uploadRaises(calls[|calls| - 1])
    ensures raised.Some? ==> forall i :: 0 <= i < |calls| - 1 ==> uploadRaises(calls[i]).None?
  {
    var s3 := getS3Client();
    var bucket := getBucket(s3, s3Bucket);
    var remaining := localFileSet;
    order, calls, raised := [], [], None;
    while remaining != {}
      invariant remaining <= localFileSet
      invariant CallsFor(bucket, localPath, s3Path, order, calls)
      invariant Distinct(order)
      invariant forall i :: 0 <= i < |order| ==> order[i] in localFileSet && order[i] !in remaining
      invariant forall f :: f in localFileSet ==> f in remaining || f in order
      invariant forall i :: 0 <= i < |calls| ==> uploadRaises(calls[i]).None?
      decreases |remaining|
    {
      var file :| file in remaining;
      var call := CallFor(bucket, localPath, s3Path, file);
      ExtendOrder(bucket, localPath, s3Path, order, calls, file);
      order, calls := order + [file], calls + [call];
      remaining := remaining - {file};
      var outcome := uploadRaises(call);
      if outcome.Some? {
        raised := outcome;
        return;
      }
    }
  }

  /** What `bucket.upload_file(Filename, Key)` is asked to do: send the local file `filename` to `key`. */
  datatype BucketUpload<B> = BucketUpload(bucket: B, filename: string, key: string)

  /**
   * `upload_file(bucket, key_path, file)` as written: its second parameter is
   * the key and its third the file, so it asks for `file` to be sent to
   * `key_path`.
   */
  function UploadFile<B>(bucket: B, keyPath: string, file: string): (r: BucketUpload<B>)
    ensures r.bucket == bucket && r.filename == file && r.key == keyPath
  {
    BucketUpload(bucket, file, keyPath)
  }

  /**
   * `upload_file` as composed into `upload_files` by the template, which
   * passes the local path second and the S3 path third: the local file
   * becomes the key and the S3 path is read as the local file name.
   */
  lemma UploadFilesSwapsPaths<B>(bucket: B, localPath: string, s3Path: string, file: string)
    ensures var call := CallFor(bucket, localPath, s3Path, file);
            var upload := UploadFile(call.bucket, call.localFile, call.s3Key);
            upload.key == PrependPath(localPath, file) && upload.filename == PrependPath(s3Path, file)
  {
  }

  /**
   * The upload test's set-up: local path "my/files/path", S3 path "foo",
   * file "file1". The composed upload reads the nonexistent local file
   * "foo/file1" and writes the key "my/files/path/file1".
   */
  lemma UploadFilesSwapsPathsExample<B>(bucket: B)
    ensures var call := CallFor(bucket, "my/files/path", "foo", "file1");
            UploadFile(call.bucket, call.localFile, call.s3Key) == BucketUpload(bucket, "foo/file1", "my/files/path/file1")
  {
    assert !Paths.IsAbsolute("file1") by { assert "file1"[0] == 'f'; }
    assert !EndsWith("my/files/path", "/") by { assert "my/files/path"[12] == 'h'; }
    assert !EndsWith("foo", "/") by { assert "foo"[2] == 'o'; }
    UploadFilesSwapsPaths(bucket, "my/files/path", "foo", "file1");
  }

  /**
   * `upload_file` with its parameters in the order the template passes
   * them: the local file first, the key second.
   */
  function UploadFileFixed<B>(bucket: B, file: string, keyPath: string): (r: BucketUpload<B>)
    ensures r.bucket == bucket && r.filename == file && r.key == keyPath
  {
    BucketUpload(bucket, file, keyPath)
  }

  /** Composed with the template, the corrected upload sends each local file to its key under the S3 path. */
  lemma UploadFileFixedSendsLocalFileToS3Key<B>(bucket: B, localPath: string, s3Path: string, file: string)
    ensures var call := CallFor(bucket, localPath, s3Path, file);
            var upload := UploadFileFixed(call.bucket, call.localFile, call.s3Key);
            upload.filename == PrependPath(localPath, file) && upload.key == PrependPath(s3Path, file)
  {
  }

  /** The corrected upload in the test's set-up: "my/files/path/file1" is sent to the key "foo/file1". */
  lemma UploadFileFixedExample<B>(bucket: B)
    ensures var call := CallFor(bucket, "my/files/path", "foo", "file1");
            UploadFileFixed(call.bucket, call.localFile, call.s3Key) == BucketUpload(bucket, "my/files/path/file1", "foo/file1")
  {
    assert !Paths.IsAbsolute("file1") by { assert "file1"[0] == 'f'; }
    assert !EndsWith("my/files/path", "/") by { assert "my/files/path"[12] == 'h'; }
    assert !EndsWith("foo", "/") by { assert "foo"[2] == 'o'; }
  }

  /** The uploads a call trace amounts to once each call reaches the corrected `upload_file`. */
  function Uploads<B(==)>(calls: seq<UploadCall<B>>): (r: seq<BucketUpload<B>>)
    ensures |r| == |calls|
    ensures forall i :: 0 <= i < |calls| ==> r[i] == UploadFileFixed(calls[i].bucket, calls[i].localFile, calls[i].s3Key)
  {
    seq(|calls|, i requires 0 <= i < |calls| => UploadFileFixed(calls[i].bucket, calls[i].localFile, calls[i].s3Key))
  }

  /**
   * `upload_files` with the corrected `upload_file`: after a run that raised
   * nothing, every local file has been sent from under the local path to
   * its key under the S3 path.
   */
  lemma UploadFilesReachesEveryKey<B>(bucket: B, localPath: string, s3Path: string, localFileSet: set<string>,
                                      order: seq<string>, calls: seq<UploadCall<B>>, file: string)
    requires CallsFor(bucket, localPath, s3Path, order, calls)
    requires forall f :: f in localFileSet ==> f in order
    requires file in localFileSet
    ensures BucketUpload(bucket, PrependPath(localPath, file), PrependPath(s3Path, file)) in Uploads(calls)
  {
    var i :| 0 <= i < |order| && order[i] == file;
    assert Uploads(calls)[i] == BucketUpload(bucket, PrependPath(localPath, file), PrependPath(s3Path, file));
  }
}
