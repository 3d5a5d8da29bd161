/**
 * The sync driver: enumerate both file sets once, reconcile them, delete
 * what is gone locally, then upload what changed.
 */
module StackSync {
  import opened Common
  import opened FileSetLoader
  import S3Diff
  import S3Updater

  /** The S3 key a sync deletes for a removed item. */
  function DeleteKey(s3Path: string, item: Item): string {
    s3Path + "/" + item.file
  }

  /** The keys handed to `delete_files`: one per removed item. */
  function DeleteKeys(s3Path: string, removed: set<Item>): (keys: set<string>)
    ensures forall it :: it in removed ==> DeleteKey(s3Path, it) in keys
    ensures forall k :: k in keys ==> exists it :: it in removed && k == DeleteKey(s3Path, it)
  {
    set it | it in removed :: DeleteKey(s3Path, it)
  }

  /** The file names handed to `upload_files`: one per changed item. */
  function UploadNames(changed: set<Item>): (names: set<string>)
    ensures forall it :: it in changed ==> it.file in names
    ensures forall n :: n in names ==> exists it :: it in changed && it.file == n
  {
    set it | it in changed :: it.file
  }

  /** One effectful call of `sync_changes`. */
  datatype Step =
    | LoadFileSets(localPath: string, s3Bucket: string, s3Path: string)
    | DeleteFiles(keyList: set<string>, s3Bucket: string)
    | UploadFiles(localFileSet: set<string>, localPath: string, s3Bucket: string, s3Path: string)

  /**
   * `sync_changes`, given how the two enumerations ended and whether the
   * delete and upload calls raise: the calls made, in order, and the
   * exception that escapes, if any. Both reconciliations use the single
   * pair of sets loaded once; the delete call precedes the upload call and
   * its result is discarded.
   */
  method SyncChanges(local: Result<set<Item>>, s3: Result<set<Item>>,
                     deleteRaises: Option<Exception>, uploadRaises: Option<Exception>,
                     localPath: string, s3Bucket: string, s3Path: string)
    returns (steps: seq<Step>, raised: Option<Exception>)
    ensures |steps| >= 1 && steps[0] == LoadFileSets(localPath, s3Bucket, s3Path)
    ensures GetFileSets(local, s3).Failure? ==> steps == [steps[0]] && raised == Some(GetFileSets(local, s3).error)
    ensures GetFileSets(local, s3).Success? ==>
      |steps| >= 2 && steps[1] == DeleteFiles(DeleteKeys(s3Path, S3Diff.GetLocalFilesRemoved(local.value, s3.value)), s3Bucket)
    ensures GetFileSets(local, s3).Success? && deleteRaises.Some? ==> |steps| == 2 && raised == deleteRaises
    ensures GetFileSets(local, s3).Success? && deleteRaises.None? ==>
      |steps| == 3 && raised == uploadRaises
      && steps[2] == UploadFiles(UploadNames(S3Diff.GetLocalFilesChanged(local.value, s3.value)), localPath, s3Bucket, s3Path)
  {
    steps := [LoadFileSets(localPath, s3Bucket, s3Path)];
    var fileSets := GetFileSets(local, s3);
    if fileSets.Failure? {
      raised := Some(fileSets.error);
      return;
    }
    var (localSet, s3Set) := fileSets.value;
    var filesToUpdate := S3Diff.GetLocalFilesChanged(localSet, s3Set);
    var filesToRemove := S3Diff.GetLocalFilesRemoved(localSet, s3Set);
    steps := steps + [DeleteFiles(DeleteKeys(s3Path, filesToRemove), s3Bucket)];
    if deleteRaises.Some? {
      raised := deleteRaises;
      return;
    }
    steps := steps + [UploadFiles(UploadNames(filesToUpdate), localPath, s3Bucket, s3Path)];
    raised := uploadRaises;
  }

  /**
   * The sync deletes the very key it listed: an S3 item enumerated from a
   * key under `s3Path + "/"` is deleted under that key's own name.
   */
  lemma DeleteKeyIsListedKey(key: KeyStruct, s3Path: string)
    requires s3Path + "/" <= key.name
    ensures DeleteKey(s3Path, S3Item(key, s3Path)) == key.name
  {
    TrimPathPrefixRoundTrip(key.name, s3Path);
  }

  /**
   * No key the sync deletes is a key it then uploads to: a removed item's
   * path is never a changed item's path, and under a non-empty S3 path with
   * no trailing separator distinct relative names give distinct keys.
   */
  lemma UploadsNeverTargetDeletedKeys(localSet: set<Item>, s3Set: set<Item>, s3Path: string, name: string)
    requires s3Path != "" && !EndsWith(s3Path, "/")
    requires name in UploadNames(S3Diff.GetLocalFilesChanged(localSet, s3Set))
    requires name == "" || name[0] != '/'
    ensures S3Updater.PrependPath(s3Path, name) !in DeleteKeys(s3Path, S3Diff.GetLocalFilesRemoved(localSet, s3Set))
  {
    var removed := S3Diff.GetLocalFilesRemoved(localSet, s3Set);
    var l :| l in S3Diff.GetLocalFilesChanged(localSet, s3Set) && l.file == name;
    assert S3Updater.PrependPath(s3Path, name) == s3Path + "/" + name;
    forall it | it in removed ensures DeleteKey(s3Path, it) != s3Path + "/" + name {
      var n := |s3Path| + 1;
      assert it.file == DeleteKey(s3Path, it)[n..];
      assert name == (s3Path + "/" + name)[n..];
    }
  }

  /**
   * As written, the upload writes the key `local_path/file` (the paths are
   * swapped, see `S3Updater.UploadFilesSwapsPaths`). With the local path
   * "p/d", a changed item "name" and a removed S3 item "d/name", that key is
   * "p/d/name", which the same run deletes.
   */
  lemma AsWrittenUploadCanTargetDeletedKey<B>(bucket: B, s3Path: string, d: string, name: string,
                                              localHash: Option<string>, s3Hash: Option<string>)
    requires d != "" && d[|d| - 1] != '/'
    requires name == "" || name[0] != '/'
    ensures var localSet := {Item(name, localHash)};
            var s3Set := {Item(d + "/" + name, s3Hash)};
            var call := S3Updater.CallFor(bucket, s3Path + "/" + d, s3Path, name);
            && name in UploadNames(S3Diff.GetLocalFilesChanged(localSet, s3Set))
            && S3Updater.UploadFile(call.bucket, call.localFile, call.s3Key).key
               in DeleteKeys(s3Path, S3Diff.GetLocalFilesRemoved(localSet, s3Set))
  {
    var local := Item(name, localHash);
    var remote := Item(d + "/" + name, s3Hash);
    assert |local.file| != |remote.file|;
    assert local in S3Diff.GetLocalFilesChanged({local}, {remote});
    assert remote in S3Diff.GetLocalFilesRemoved({local}, {remote});
    S3Updater.UploadFilesSwapsPaths(bucket, s3Path + "/" + d, s3Path, name);
    var localPath := s3Path + "/" + d;
    assert localPath[|localPath| - 1] == d[|d| - 1];
    assert S3Updater.PrependPath(localPath, name) == localPath + "/" + name;
    assert localPath + "/" + name == DeleteKey(s3Path, remote);
  }

  /** A listed key's item carries the key's name trimmed of the S3 path. */
  lemma S3ItemFile(key: KeyStruct, s3Path: string)
    ensures S3Item(key, s3Path).file == TrimPathPrefix(key.name, s3Path)
  {
  }

  /**
   * An S3 path with a trailing separator: the listed key "p/rest" trims to
   * "rest", so the sync deletes "p//rest", a key it never listed.
   */
  lemma TrailingSlashDeletesOtherKey(p: string, rest: string, etag: string)
    requires rest != "" && rest[0] != '/'
    ensures DeleteKey(p + "/", S3Item(KeyStruct(p + "/" + rest, etag), p + "/")) == p + "//" + rest
    ensures p + "//" + rest != p + "/" + rest
  {
    assert p + "/" + "/" + rest == p + "//" + rest;
    assert (p + "//" + rest)[|p| + 1] == '/' && (p + "/" + rest)[|p| + 1] == rest[0];
    S3ItemFile(KeyStruct(p + "/" + rest, etag), p + "/");
    TrimUnderTrailingSlash(p, rest);
  }

  lemma TrimUnderTrailingSlash(p: string, rest: string)
    requires rest != "" && rest[0] != '/'
    ensures TrimPathPrefix(p + "/" + rest, p + "/") == rest
  {
    var name := p + "/" + rest;
    assert name[|p| + 1] == rest[0];
    assert !(p + "/" + "/" <= name);
    assert p + "/" <= name;
    var t := TrimPathPrefix(name, p + "/");
    assert name == p + "/" + t;
    assert t == name[|p| + 1..] && rest == name[|p| + 1..];
  }

  /** An empty S3 path: the listed key "x" is deleted as "/x", a key the sync never listed. */
  lemma EmptyPathDeletesOtherKey(name: string, etag: string)
    requires name != "" && name[0] != '/'
    ensures DeleteKey("", S3Item(KeyStruct(name, etag), "")) == "/" + name
    ensures "/" + name != name
  {
    var it := S3Item(KeyStruct(name, etag), "");
    assert it.file == name by {
      S3ItemFile(KeyStruct(name, etag), "");
      TrimUnderEmptyPath(name);
    }
    EmptyPathDeleteKey(it);
  }

  /** Under the empty S3 path the delete key is the item's path behind a separator. */
  lemma EmptyPathDeleteKey(it: Item)
    ensures DeleteKey("", it) == "/" + it.file
  {
    assert "" + "/" + it.file == "/" + it.file;
  }

  lemma TrimUnderEmptyPath(name: string)
    requires name != "" && name[0] != '/'
    ensures TrimPathPrefix(name, "") == name
  {
    assert "" <= name;
    assert !("" + "/" <= name);
    assert name == "" + TrimPathPrefix(name, "");
  }

  /**
   * A sibling key: listing under "stacks" also returns "stacks2/a", which
   * trims to "2/a" and is deleted as "stacks/2/a", a key the sync never listed.
   */
  lemma SiblingKeyDeletesOtherKey(p: string, c: char, rest: string, etag: string)
    requires c != '/'
    ensures p <= p + [c] + rest
    ensures DeleteKey(p, S3Item(KeyStruct(p + [c] + rest, etag), p)) == p + "/" + ([c] + rest)
    ensures p + "/" + ([c] + rest) != p + [c] + rest
  {
    S3ItemFile(KeyStruct(p + [c] + rest, etag), p);
    TrimSiblingKey(p, c, rest);
    assert |p + "/" + ([c] + rest)| != |p + [c] + rest|;
  }

  lemma TrimSiblingKey(p: string, c: char, rest: string)
    requires c != '/'
    ensures p <= p + [c] + rest
    ensures TrimPathPrefix(p + [c] + rest, p) == [c] + rest
  {
    var name := p + [c] + rest;
    assert name[..|p|] == p;
    assert name[|p|] == c;
    assert !(p + "/" <= name);
    var t := TrimPathPrefix(name, p);
    assert name == p + t;
    assert t == name[|p|..] && [c] + rest == name[|p|..];
  }
}
