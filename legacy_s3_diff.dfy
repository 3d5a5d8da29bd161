/**
 * The older set reconciler: both results are plain set differences under
 * full item equality, so an item whose path still exists locally but whose
 * hash changed counts as removed. Its changed set is defined exactly as the
 * newer reconciler's and is taken from it.
 */
module LegacyS3Diff {
  import opened FileSetLoader
  import S3Diff

  /** `get_local_files_removed`: the S3 items that no local item equals. */
  function GetLocalFilesRemoved<T(==)>(localFileSet: set<T>, s3FileSet: set<T>): (r: set<T>)
    ensures r <= s3FileSet
    ensures r !! localFileSet
    ensures forall x :: x in s3FileSet && x !in localFileSet ==> x in r
  {
    s3FileSet - localFileSet
  }

  /** Both directions of the removed-set tests: empty for equal sets and whenever the local set covers S3. */
  lemma RemovedEmptyWhenLocalCovers<T>(localFileSet: set<T>, s3FileSet: set<T>)
    requires s3FileSet <= localFileSet
    ensures GetLocalFilesRemoved(localFileSet, s3FileSet) == {}
  {
  }

  /** The removed-set test: {1..5} locally against {1,3,5,7,9} on S3 removes {7,9}. */
  lemma RemovedExample()
    ensures GetLocalFilesRemoved({1, 2, 3, 4, 5}, {1, 3, 5, 7, 9}) == {7, 9}
  {
    var r := GetLocalFilesRemoved({1, 2, 3, 4, 5}, {1, 3, 5, 7, 9});
    assert 7 in r && 9 in r;
    assert forall x :: x in r ==> x == 7 || x == 9;
  }

  /** An S3 item whose path is still local but whose content changed is deleted, unlike in the newer reconciler. */
  lemma SamePathNewHashIsRemoved(localFileSet: set<Item>, s3FileSet: set<Item>, l: Item, o: Item)
    requires l in localFileSet && o in s3FileSet && l.file == o.file && l.fileHash != o.fileHash
    requires o !in localFileSet
    ensures o in GetLocalFilesRemoved(localFileSet, s3FileSet)
    ensures o !in S3Diff.GetLocalFilesRemoved(localFileSet, s3FileSet)
  {
  }

  /** Equal inputs give nothing to upload and nothing to delete. */
  lemma EqualSetsGiveNothing<T>(fileSet: set<T>)
    ensures S3Diff.GetLocalFilesChanged(fileSet, fileSet) == {}
    ensures GetLocalFilesRemoved(fileSet, fileSet) == {}
  {
  }

  /** No item is both uploaded and deleted. */
  lemma ChangedAndRemovedDisjoint<T>(localFileSet: set<T>, s3FileSet: set<T>)
    ensures S3Diff.GetLocalFilesChanged(localFileSet, s3FileSet) !! GetLocalFilesRemoved(localFileSet, s3FileSet)
  {
  }

  /**
   * Across generations: every item the path-only reconciler removes is also
   * removed by the older full-equality one; the older one additionally
   * removes exactly the S3 items whose path is still local with another hash.
   */
  lemma PathOnlyRemovalRefinesFullEquality(localFileSet: set<Item>, s3FileSet: set<Item>)
    ensures S3Diff.GetLocalFilesRemoved(localFileSet, s3FileSet) <= GetLocalFilesRemoved(localFileSet, s3FileSet)
    ensures forall it :: it in GetLocalFilesRemoved(localFileSet, s3FileSet) - S3Diff.GetLocalFilesRemoved(localFileSet, s3FileSet) ==>
      (exists l :: l in localFileSet && l.file == it.file && l.fileHash != it.fileHash)
  {
    var removed := S3Diff.GetLocalFilesRemoved(localFileSet, s3FileSet);
    var legacy := GetLocalFilesRemoved(localFileSet, s3FileSet);
    forall it | it in legacy - removed
      ensures exists l :: l in localFileSet && l.file == it.file && l.fileHash != it.fileHash
    {
      var l :| l in localFileSet && l.file == it.file;
      assert l != it;
    }
  }
}
