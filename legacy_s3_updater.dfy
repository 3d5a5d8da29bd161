/**
 * The older S3 updater: keys are deleted one call at a time, each failure
 * collected rather than raised, and each file is uploaded by creating a key
 * object under the S3 path and filling it from the local file. Path joining
 * is the same as in the newer updater and is taken from it.
 */
module LegacyS3Updater {
  import opened Common
  import S3Updater

  /**
   * `delete_files_template`: the delete function is handed the bucket
   * fetched by name, and the key list unchanged.
   */
  function DeleteFilesTemplate<B, R>(getBucket: string -> B, deleteKeys: (B, seq<string>) -> R,
                                     keyList: seq<string>, s3Bucket: string): (r: R)
    ensures exists b :: b == getBucket(s3Bucket) && r == deleteKeys(b, keyList)
  {
    deleteKeys(getBucket(s3Bucket), keyList)
  }

  /** A `MultiDeleteResult` for a bucket: what `delete_key` returned for each deleted key, and each exception caught. */
  datatype MultiDeleteResult<B, V> = MultiDeleteResult(bucket: B, deleted: seq<V>, errors: seq<Exception>)

  /** The values the successful calls returned, in call order. */
  function Deleted<V>(outcomes: seq<Result<V>>): (r: seq<V>)
    ensures |r| <= |outcomes|
  {
    if outcomes == [] then []
    else if outcomes[0].Success? then [outcomes[0].value] + Deleted(outcomes[1..])
    else Deleted(outcomes[1..])
  }

  /** The exceptions the failed calls raised, in call order. */
  function Errors<V>(outcomes: seq<Result<V>>): (r: seq<Exception>)
    ensures |r| <= |outcomes|
  {
    if outcomes == [] then []
    else if outcomes[0].Failure? then [outcomes[0].error] + Errors(outcomes[1..])
    else Errors(outcomes[1..])
  }

  /** Each call lands in exactly one of the two lists. */
  lemma {:induction false} DeletedAndErrorsPartition<V>(outcomes: seq<Result<V>>)
    ensures |Deleted(outcomes)| + |Errors(outcomes)| == |outcomes|
  {
    if outcomes != [] {
      DeletedAndErrorsPartition(outcomes[1..]);
    }
  }

  /** The deleted list grows by appending: a key's value lands after all earlier keys' values. */
  lemma {:induction false} DeletedAppend<V>(a: seq<Result<V>>, b: seq<Result<V>>)
    ensures Deleted(a + b) == Deleted(a) + Deleted(b)
  {
    if a == [] {
      assert a + b == b;
    } else {
      assert (a + b)[0] == a[0] && (a + b)[1..] == a[1..] + b;
      DeletedAppend(a[1..], b);
      if a[0].Success? {
        assert Deleted(a + b) == [a[0].value] + Deleted(a[1..] + b);
      } else {
        assert Deleted(a + b) == Deleted(a[1..] + b);
      }
    }
  }

  /** The error list grows by appending: a key's exception lands after all earlier keys' exceptions. */
  lemma {:induction false} ErrorsAppend<V>(a: seq<Result<V>>, b: seq<Result<V>>)
    ensures Errors(a + b) == Errors(a) + Errors(b)
  {
    if a == [] {
      assert a + b == b;
    } else {
      assert (a + b)[0] == a[0] && (a + b)[1..] == a[1..] + b;
      ErrorsAppend(a[1..], b);
      if a[0].Failure? {
        assert Errors(a + b) == [a[0].error] + Errors(a[1..] + b);
      } else {
        assert Errors(a + b) == Errors(a[1..] + b);
      }
    }
  }

  /** When no call fails, every returned value is kept and there are no errors. */
  lemma {:induction false} AllDeletedWhenNoneFail<V>(outcomes: seq<Result<V>>)
    requires forall i :: 0 <= i < |outcomes| ==> outcomes[i].Success?
    ensures |Deleted(outcomes)| == |outcomes| && Errors(outcomes) == []
    ensures forall i :: 0 <= i < |outcomes| ==> Deleted(outcomes)[i] == outcomes[i].value
  {
    if outcomes != [] {
      AllDeletedWhenNoneFail(outcomes[1..]);
    }
  }

  /** The outcome of `delete_key` for each key, in order. */
  function Outcomes<V>(deleteKey: string -> Result<V>, keys: seq<string>): (r: seq<Result<V>>)
    ensures |r| == |keys| && forall i :: 0 <= i < |keys| ==> r[i] == deleteKey(keys[i])
  {
    seq(|keys|, i requires 0 <= i < |keys| => deleteKey(keys[i]))
  }

  /** One more key: its outcome's value joins the deleted list, or its exception the error list. */
  lemma OutcomesStep<V>(deleteKey: string -> Result<V>, keys: seq<string>, i: nat)
    requires i < |keys|
    ensures var before := Outcomes(deleteKey, keys[..i]);
            var outcome := deleteKey(keys[i]);
            && Deleted(Outcomes(deleteKey, keys[..i + 1])) == Deleted(before) + (if outcome.Success? then [outcome.value] else [])
            && Errors(Outcomes(deleteKey, keys[..i + 1])) == Errors(before) + (if outcome.Failure? then [outcome.error] else [])
  {
    var before := Outcomes(deleteKey, keys[..i]);
    var outcome := deleteKey(keys[i]);
    assert Outcomes(deleteKey, keys[..i + 1]) == before + [outcome];
    DeletedAppend(before, [outcome]);
    ErrorsAppend(before, [outcome]);
  }

  /**
   * `delete_keys`: `delete_key` is called once per key, in order (`calls`);
   * a returned value goes to `deleted`, an exception to `errors`.
   */
  method DeleteKeys<B, V>(bucket: B, deleteKey: string -> Result<V>, keyList: seq<string>)
    returns (calls: seq<string>, result: MultiDeleteResult<B, V>)
    ensures calls == keyList
    ensures result.bucket == bucket
    ensures result.deleted == Deleted(Outcomes(deleteKey, keyList))
    ensures result.errors == Errors(Outcomes(deleteKey, keyList))
  {
    calls := [];
    result := MultiDeleteResult(bucket, [], []);
    for i := 0 to |keyList|
      invariant calls == keyList[..i]
      invariant result.bucket == bucket
      invariant result.deleted == Deleted(Outcomes(deleteKey, keyList[..i]))
      invariant result.errors == Errors(Outcomes(deleteKey, keyList[..i]))
    {
      var key := keyList[i];
      calls := calls + [key];
      var outcome := deleteKey(key);
      OutcomesStep(deleteKey, keyList, i);
      match outcome
      case Success(v) =>
        result := result.(deleted := result.deleted + [v]);
      case Failure(e) =>
        result := result.(errors := result.errors + [e]);
    }
    assert keyList[..|keyList|] == keyList;
  }

  /** A bucket that deletes the keys in `good`, returning the key, and raises `KeyError` for any other. */
  function DeleteKeyIn(good: set<string>, key: string): Result<string> {
    if key in good then Success(key) else Failure(Exception("KeyError", key))
  }

  /**
   * The delete tests: of key1 to key5 the bucket refuses key3; every key is
   * tried in order, the other four are deleted in order and one `KeyError`
   * is collected.
   */
  method DeleteKeysExample() returns (calls: seq<string>, result: MultiDeleteResult<string, string>)
    ensures calls == ["key1", "key2", "key3", "key4", "key5"]
    ensures result.deleted == ["key1", "key2", "key4", "key5"]
    ensures |result.errors| == 1 && result.errors[0].kind == "KeyError"
  {
    var keys := ["key1", "key2", "key3", "key4", "key5"];
    var good := {"key1", "key2", "key4", "key5"};
    assert "key3" !in good by {
      assert "key3"[3] != "key1"[3] && "key3"[3] != "key2"[3] && "key3"[3] != "key4"[3] && "key3"[3] != "key5"[3];
    }
    calls, result := DeleteKeys("bucket", key => DeleteKeyIn(good, key), keys);
    var outcomes := Outcomes(key => DeleteKeyIn(good, key), keys);
    assert outcomes == [Success("key1"), Success("key2"), Failure(Exception("KeyError", "key3")), Success("key4"), Success("key5")];
    assert Deleted(outcomes[4..]) == ["key5"];
    assert Deleted(outcomes[3..]) == ["key4", "key5"];
    assert Deleted(outcomes[2..]) == ["key4", "key5"];
    assert Deleted(outcomes[1..]) == ["key2", "key4", "key5"];
    assert Errors(outcomes[3..]) == [] by {
      assert Errors(outcomes[4..]) == [];
    }
    assert Errors(outcomes[2..]) == [Exception("KeyError", "key3")];
    assert Errors(outcomes[1..]) == [Exception("KeyError", "key3")];
  }

  // ------------------------------------------------------------ uploading

  /** One collaborator call of the upload loop. */
  datatype UploadStep<B, K> =
    | CreateKey(bucket: B, keyPath: string)  // create_key_func(bucket, key_path), returning the key object
    | SetContents(key: K, file: string)      // set_key_contents_func(key, file)

  /** The two calls the loop makes for one file: create its key under the S3 path, then fill it from under the local path. */
  function StepsFor<B, K>(createKey: (B, string) -> K, bucket: B, localPath: string, s3Path: string, file: string)
    : seq<UploadStep<B, K>>
  {
    [CreateKey(bucket, S3Updater.PrependPath(s3Path, file)),
     SetContents(createKey(bucket, S3Updater.PrependPath(s3Path, file)), S3Updater.PrependPath(localPath, file))]
  }

  /** The calls for the files of `order`, in that order. */
  function StepsForAll<B, K>(createKey: (B, string) -> K, bucket: B, localPath: string, s3Path: string, order: seq<string>)
    : (r: seq<UploadStep<B, K>>)
    ensures |r| == 2 * |order|
  {
    if order == [] then []
    else StepsForAll(createKey, bucket, localPath, s3Path, order[..|order| - 1])
         + StepsFor(createKey, bucket, localPath, s3Path, order[|order| - 1])
  }

  /** The calls for the `i`-th file sit at positions `2 * i` and `2 * i + 1`. */
  lemma {:induction false} StepsForAllAt<B, K>(createKey: (B, string) -> K, bucket: B, localPath: string, s3Path: string,
                                               order: seq<string>, i: nat)
    requires i < |order|
    ensures StepsForAll(createKey, bucket, localPath, s3Path, order)[2 * i] == CreateKey(bucket, S3Updater.PrependPath(s3Path, order[i]))
    ensures StepsForAll(createKey, bucket, localPath, s3Path, order)[2 * i + 1]
         == SetContents(createKey(bucket, S3Updater.PrependPath(s3Path, order[i])), S3Updater.PrependPath(localPath, order[i]))
  {
    var init := order[..|order| - 1];
    if i < |order| - 1 {
      StepsForAllAt(createKey, bucket, localPath, s3Path, init, i);
      assert init[i] == order[i];
    }
  }

  /**
   * `upload_files_template`: for every file of the set, in the set's
   * iteration order (returned as `order`), one key is created under the S3
   * path and filled from the file under the local path.
   */
  method UploadFilesTemplate<B, K>(getBucket: string -> B, createKey: (B, string) -> K,
                                   localFileSet: set<string>, localPath: string, s3Bucket: string, s3Path: string)
    returns (order: seq<string>, steps: seq<UploadStep<B, K>>)
    ensures multiset(order) == multiset(localFileSet)
    ensures steps == StepsForAll(createKey, getBucket(s3Bucket), localPath, s3Path, order)
  {
    var bucket := getBucket(s3Bucket);
    var remaining := localFileSet;
    order, steps := [], [];
    while remaining != {}
      invariant remaining <= localFileSet
      invariant multiset(order) + multiset(remaining) == multiset(localFileSet)
      invariant steps == StepsForAll(createKey, bucket, localPath, s3Path, order)
      decreases |remaining|
    {
      var file :| file in remaining;
      var key := createKey(bucket, S3Updater.PrependPath(s3Path, file));
      steps := steps + [CreateKey(bucket, S3Updater.PrependPath(s3Path, file)), SetContents(key, S3Updater.PrependPath(localPath, file))];
      assert (order + [file])[..|order|] == order;
      order := order + [file];
      remaining := remaining - {file};
    }
  }

  /**
   * Across generations: for every file, the older updater creates the key
   * and reads the local file that the newer updater's corrected
   * `upload_file` is handed by the newer template.
   */
  lemma UploadsAgreeWithCorrectedUpdater<B, K>(createKey: (B, string) -> K, bucket: B, localPath: string, s3Path: string,
                                               order: seq<string>, i: nat)
    requires i < |order|
    ensures var call := S3Updater.CallFor(bucket, localPath, s3Path, order[i]);
            var upload := S3Updater.UploadFileFixed(call.bucket, call.localFile, call.s3Key);
            StepsForAll(createKey, bucket, localPath, s3Path, order)[2 * i] == CreateKey(bucket, upload.key)
            && StepsForAll(createKey, bucket, localPath, s3Path, order)[2 * i + 1] == SetContents(createKey(bucket, upload.key), upload.filename)
  {
    StepsForAllAt(createKey, bucket, localPath, s3Path, order, i);
  }
}
