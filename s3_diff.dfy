/**
 * The set reconciler: which local items must be uploaded ("changed") and
 * which S3 items must be deleted ("removed"). Changed compares items in full
 * (path and hash); removed compares paths only, so a file whose content
 * changed is re-uploaded and never deleted.
 */
module S3Diff {
  import opened Common
  import opened FileSetLoader

  /** The paths of a set of items. */
  function FilePaths(items: set<Item>): (paths: set<string>)
    ensures forall it :: it in items ==> it.file in paths
    ensures forall p :: p in paths ==> exists it :: it in items && it.file == p
  {
    set it | it in items :: it.file
  }

  /**
   * `get_local_files_changed`: the local items with no equal S3 item. Both
   * generations of the reconciler define it the same way.
   */
  function GetLocalFilesChanged<T(==)>(localFileSet: set<T>, s3FileSet: set<T>): (r: set<T>)
    ensures r <= localFileSet
    ensures r !! s3FileSet
    ensures forall x :: x in localFileSet && x !in s3FileSet ==> x in r
  {
    localFileSet - s3FileSet
  }

  /** For items, "changed" means: no S3 item has both the same path and the same hash. */
  lemma ChangedMeansNoMatchingPathAndHash(localFileSet: set<Item>, s3FileSet: set<Item>, it: Item)
    ensures it in GetLocalFilesChanged(localFileSet, s3FileSet) <==>
      it in localFileSet && forall o :: o in s3FileSet ==> o.file != it.file || o.fileHash != it.fileHash
  {
  }

  /** The changed-set tests: empty for equal sets and whenever S3 covers the local set. */
  lemma ChangedEmptyWhenS3Covers<T>(localFileSet: set<T>, s3FileSet: set<T>)
    requires localFileSet <= s3FileSet
    ensures GetLocalFilesChanged(localFileSet, s3FileSet) == {}
  {
  }

  /** The changed-set test: {1,3,5,7,9} locally against {1..5} on S3 gives {7,9}. */
  lemma ChangedExample()
    ensures GetLocalFilesChanged({1, 3, 5, 7, 9}, {1, 2, 3, 4, 5}) == {7, 9}
  {
    var r := GetLocalFilesChanged({1, 3, 5, 7, 9}, {1, 2, 3, 4, 5});
    assert 7 in r && 9 in r;
    assert forall x :: x in r ==> x == 7 || x == 9;
  }

  /**
   * `get_local_files_removed`: the S3 items whose path is the path of no
   * local item, whatever the hashes.
   */
  function GetLocalFilesRemoved(localFileSet: set<Item>, s3FileSet: set<Item>): (r: set<Item>)
    ensures r <= s3FileSet
    ensures forall it, l :: it in r && l in localFileSet ==> it.file != l.file
    ensures forall it :: it in s3FileSet && (forall l :: l in localFileSet ==> l.file != it.file) ==> it in r
  {
    var localFileNameSet := FilePaths(localFileSet);
    var s3FileNameSet := FilePaths(s3FileSet);
    var fileNameRemoveSet := s3FileNameSet - localFileNameSet;
    set it | it in s3FileSet && it.file in fileNameRemoveSet
  }

  /** The removed paths are exactly the S3 paths that are not local paths. */
  lemma RemovedPaths(localFileSet: set<Item>, s3FileSet: set<Item>)
    ensures FilePaths(GetLocalFilesRemoved(localFileSet, s3FileSet)) == FilePaths(s3FileSet) - FilePaths(localFileSet)
  {
    var removed := GetLocalFilesRemoved(localFileSet, s3FileSet);
    forall p | p in FilePaths(s3FileSet) - FilePaths(localFileSet)
      ensures p in FilePaths(removed)
    {
      var it :| it in s3FileSet && it.file == p;
      assert it in removed;
    }
    forall p | p in FilePaths(removed)
      ensures p in FilePaths(s3FileSet) - FilePaths(localFileSet)
    {
      var it :| it in removed && it.file == p;
    }
  }

  /**
   * Only paths matter: two pairs of inputs with the same paths on each side,
   * whatever their hashes, remove the same paths.
   */
  lemma RemovedDependsOnlyOnPaths(local1: set<Item>, s31: set<Item>, local2: set<Item>, s32: set<Item>)
    requires FilePaths(local1) == FilePaths(local2) && FilePaths(s31) == FilePaths(s32)
    ensures FilePaths(GetLocalFilesRemoved(local1, s31)) == FilePaths(GetLocalFilesRemoved(local2, s32))
  {
    RemovedPaths(local1, s31);
    RemovedPaths(local2, s32);
  }

  /** The removed-set tests: nothing is removed when every S3 path is a local path (equal sets included). */
  lemma RemovedEmptyWhenLocalPathsCover(localFileSet: set<Item>, s3FileSet: set<Item>)
    requires FilePaths(s3FileSet) <= FilePaths(localFileSet)
    ensures GetLocalFilesRemoved(localFileSet, s3FileSet) == {}
  {
    RemovedPaths(localFileSet, s3FileSet);
    assert FilePaths(GetLocalFilesRemoved(localFileSet, s3FileSet)) == {};
  }

  /** A file whose content changed locally is uploaded and its S3 copy is not deleted. */
  lemma ContentChangeIsUploadedNotDeleted(localFileSet: set<Item>, s3FileSet: set<Item>, l: Item, o: Item)
    requires l in localFileSet && o in s3FileSet && l.file == o.file
    requires forall x :: x in s3FileSet && x.file == l.file ==> x.fileHash != l.fileHash
    ensures l in GetLocalFilesChanged(localFileSet, s3FileSet)
    ensures o !in GetLocalFilesRemoved(localFileSet, s3FileSet)
  {
  }

  /** No item is both uploaded and deleted. */
  lemma ChangedAndRemovedDisjoint(localFileSet: set<Item>, s3FileSet: set<Item>)
    ensures GetLocalFilesChanged(localFileSet, s3FileSet) !! GetLocalFilesRemoved(localFileSet, s3FileSet)
  {
  }

  /** When S3 holds the local items plus some with new paths, exactly the new ones are removed. */
  lemma RemovedExtraPaths(localFileSet: set<Item>, extra: set<Item>)
    requires FilePaths(extra) !! FilePaths(localFileSet)
    ensures GetLocalFilesRemoved(localFileSet, localFileSet + extra) == extra
  {
    var removed := GetLocalFilesRemoved(localFileSet, localFileSet + extra);
    forall it | it in extra ensures it in removed {
      assert it.file in FilePaths(extra);
    }
    forall it | it in removed ensures it in extra {
      assert it in removed && it in localFileSet ==> it.file != it.file;
    }
  }

  /**
   * The removed-set test: S3 holds a.yaml to e.yaml, the local set a.yaml to
   * c.yaml; d.yaml and e.yaml are removed. Items at the root of the sync
   * directory carry their bare file name as path.
   */
  lemma RemovedExample()
    ensures var local := {Item("a.yaml", Some("hasha")), Item("b.yaml", Some("hashb")), Item("c.yaml", Some("hashc"))};
            var extra := {Item("d.yaml", Some("hashd")), Item("e.yaml", Some("hashe"))};
            GetLocalFilesRemoved(local, local + extra) == extra
  {
    var local := {Item("a.yaml", Some("hasha")), Item("b.yaml", Some("hashb")), Item("c.yaml", Some("hashc"))};
    var extra := {Item("d.yaml", Some("hashd")), Item("e.yaml", Some("hashe"))};
    assert FilePaths(local) == {"a.yaml", "b.yaml", "c.yaml"};
    assert FilePaths(extra) == {"d.yaml", "e.yaml"};
    RemovedExtraPaths(local, extra);
  }
}
