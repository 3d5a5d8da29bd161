# S3 stack sync: file-set reconciliation, modelled in Dafny

This project models the core of a CI tool that keeps an S3 prefix in step
with a local directory of CloudFormation stacks and templates. The tool
enumerates the local files and the S3 objects as sets of items. Each item is
a relative path plus a content hash: the MD5 of the local file, or the
object's ETag. The tool then reconciles the two sets into a set to upload
and a set to delete, deletes, and uploads. Two generations of the loader,
the reconciler and the updater exist side by side:

- the older one at the repository root uses the `boto` API;
- the newer one under `automation-scripts/` uses `boto3` with a paginated
  listing, and removes by path only.

Two small root scripts, which stage changed files for linting, are modelled
too.

Each source file is one Dafny module:

| module | source file | form |
|---|---|---|
| `FileSetLoader` | automation-scripts/file_set_loader.py | functions; the paginated listing is a method with a loop |
| `LegacyFileSetLoader` | file_set_loader.py | functions |
| `S3Diff` | automation-scripts/s3_diff.py | functions and lemmas |
| `LegacyS3Diff` | s3_diff.py | functions and lemmas |
| `S3Updater` | automation-scripts/s3_updater.py | functions; the upload loop is a method |
| `LegacyS3Updater` | s3_updater.py | the delete and upload loops are methods |
| `StackSync` | automation-scripts/automation-stack-sync.py | a method producing the ordered calls |
| `LinterFilesFilter` | automation-linter-files-filter.py | helpers as functions; the line loop is a method |
| `ChangedFilesFilter` | automation-changed-files-filter.py | filters as functions; the entry loop is a method |
| `Common`, `Paths` | (shared) | `Option`, `Result`, Python exceptions; `os.path.join` on POSIX |

Some code is shared between generations:

- Where an older definition is identical to a newer one, it is defined once,
  in the newer module, and the older module imports it. This covers `Item`,
  hashing, trimming, local enumeration, `get_file_sets`, `prepend_path` and
  `get_local_files_changed`.
- Lemmas that compare the two generations sit in the older module.

The model treats collaborators as follows:

- The source's collaborators become function parameters: file reading, MD5,
  `os.walk`, boto clients and buckets, and the upload and validation
  commands.
- A paginated S3 server is the sequence of responses it would give.
- A call that may raise is a function returning `Option<Exception>` or a
  `Result`.
- The order in which Python iterates a set is arbitrary. The loops over sets
  therefore pick any remaining element, and they return the order they used.

## Model

| member | source | states |
|---|---|---|
| `FileSetLoader.NewItem` | automation-scripts/file_set_loader.py:16-19 | The path is the bare file name when the directory is empty, and otherwise the directory, a separator and the name. The hash is kept as given. `Item.__init__` at file_set_loader.py:11-14 is the same. |
| `FileSetLoader.HashKeyAgreesWithEquality` | automation-scripts/file_set_loader.py:21-33 | Two items are equal exactly when their hash keys are equal, so `__eq__` and `__hash__` agree (also file_set_loader.py:16-26). |
| `FileSetLoader.SixItemsPairwiseDistinct` | automation-scripts/file_set_loader.py:281-308 | The six items of the inequality test are pairwise unequal; a `None` hash differs from a string hash (also file_set_loader.py:161-188). |
| `FileSetLoader.HashFileTemplate` | automation-scripts/file_set_loader.py:45-56 | A file's hash is the hash function applied to the bytes read from it, so two files that read the same bytes hash alike. |
| `FileSetLoader.TrimPrefix` | automation-scripts/file_set_loader.py:89-99 | When `s` starts with the prefix, the result with the prefix put back is `s`; otherwise `s` is unchanged (also file_set_loader.py:58). |
| `FileSetLoader.TrimPathPrefix` | automation-scripts/file_set_loader.py:102-112 | Covers all four cases: the prefix and a separator both removed, only the prefix, only a leading separator, or nothing (also file_set_loader.py:61). |
| `FileSetLoader.TrimPrefixExamples` | automation-scripts/file_set_loader.py:329-332 | The three `trim_prefix` test cases hold (also file_set_loader.py:209-212). |
| `FileSetLoader.TrimPathPrefixUnder` | automation-scripts/file_set_loader.py:335-339 | For every prefix, the prefix, a separator and a rest trim to exactly the rest. The four `trim_path_prefix` test cases are instances (also file_set_loader.py:215-219). |
| `FileSetLoader.TrimPathPrefixRoundTrip` | automation-scripts/file_set_loader.py:112 | For a key under `prefix + "/"`, putting the prefix and separator back in front of the trimmed key gives the key again. |
| `FileSetLoader.TrimPathPrefixSiblingKey` | automation-scripts/file_set_loader.py:112 | The trim is not aware of path components: "stacks2/a" trimmed by "stacks" gives "2/a". |
| `FileSetLoader.EntryItems` | automation-scripts/file_set_loader.py:134-136 | A walk entry gives one item per file name, in name order. The path is the root trimmed of the walk root, and the hash is taken over the untrimmed root joined with the name. |
| `FileSetLoader.WalkItems` | automation-scripts/file_set_loader.py:127-137 | The number of items equals the number of file names, and every item has a hash. |
| `FileSetLoader.WalkItemsMembers` | automation-scripts/file_set_loader.py:127-137 | Every (entry, name) pair of the walk yields its item, and every item comes from such a pair. |
| `FileSetLoader.WalkItemsAppend` | automation-scripts/file_set_loader.py:134-135 | The walk is consumed in order: the items of a concatenated walk are the items of each part, concatenated. |
| `FileSetLoader.EnumerateLocalFilesTemplate` | automation-scripts/file_set_loader.py:116-137 | There is one item per file name of the walk of the local path, each with a hash (also file_set_loader.py:64-76). |
| `FileSetLoader.TrimPathPrefixSelf` | automation-scripts/file_set_loader.py:131 | The walk root trimmed of the local path it starts from is empty, so files directly under the synced directory have an empty path. |
| `FileSetLoader.OneDirectoryWalk` | automation-scripts/file_set_loader.py:127-137 | A walk that finds only the root directory, holding two files, yields those two files' items in file order. |
| `FileSetLoader.EnumerateLocalFilesExample` | automation-scripts/file_set_loader.py:342-359 | For any hash function, a walk of "my_path" with two files gives two items. They are named by the bare file names and hashed over "my_path/" plus the name. |
| `FileSetLoader.LeadingCount` | automation-scripts/file_set_loader.py:163 | Counts the leading run of `c`: every counted character is `c` and the next one is not. |
| `FileSetLoader.StripLeading` | automation-scripts/file_set_loader.py:163 | `lstrip(c)`: the input is a run of `c` followed by the result, and the result does not start with `c`. |
| `FileSetLoader.StripTrailing` | automation-scripts/file_set_loader.py:163 | `rstrip(c)`: the input is the result followed by a run of `c`, and the result does not end with `c`. |
| `FileSetLoader.Strip` | automation-scripts/file_set_loader.py:163 | `strip(c)`: the input is a run of `c`, the result, then a run of `c`. The result neither starts nor ends with `c`. |
| `FileSetLoader.EtagHash` | automation-scripts/file_set_loader.py:163 | The hash is the ETag with '"' and then "'" stripped. It is no longer than the ETag and does not start or end with "'" (also file_set_loader.py:91). |
| `FileSetLoader.EtagHashExample` | automation-scripts/file_set_loader.py:163 | A double-quoted ETag loses its quotes. |
| `FileSetLoader.EtagHashUnquoted` | automation-scripts/file_set_loader.py:163 | An ETag that neither starts nor ends with a quote character is its own hash. |
| `FileSetLoader.FileKeys` | automation-scripts/file_set_loader.py:165-166 | Keeps exactly the listed keys that do not end in '/' ("directories"), and adds none. |
| `FileSetLoader.S3KeysToItems` | automation-scripts/file_set_loader.py:157-167 | There is one item per listed key that is not a directory marker, so there are never more items than keys. |
| `FileSetLoader.S3KeysToItemsMembers` | automation-scripts/file_set_loader.py:157-167 | Every listed key not ending in '/' becomes an item, and every item comes from such a key. |
| `FileSetLoader.EnumerateS3FilesTemplate` | automation-scripts/file_set_loader.py:145-167 | The keys come from the prefixed listing of the client's bucket. Each file key yields its item and each item comes from a file key. |
| `FileSetLoader.S3ItemOutsidePath` | automation-scripts/file_set_loader.py:159-164 | A file key not under the S3 path, with an unquoted ETag, keeps its name as path and its ETag as hash. |
| `FileSetLoader.TwoFilesAndMarker` | automation-scripts/file_set_loader.py:362-392 | The test's listing shape, for all such keys: two file keys outside the S3 path, then a directory marker, give exactly the two files' items in order, named by key and hashed by ETag. |
| `FileSetLoader.PageKeys` | automation-scripts/file_set_loader.py:194-196 | A page yields one (name, etag) record per entry of its "Contents", in order. A page without "Contents" yields none. |
| `FileSetLoader.KeysOfAppend` | automation-scripts/file_set_loader.py:190-196 | Pages are consumed in order: the records of concatenated responses are the concatenated records. |
| `FileSetLoader.KeysOfStep` | automation-scripts/file_set_loader.py:192-196 | Serving one more page appends exactly that page's records. |
| `FileSetLoader.KeysOfContainsEveryPage` | automation-scripts/file_set_loader.py:194-196 | Every object of every page appears among the records. |
| `FileSetLoader.StopIndex` | automation-scripts/file_set_loader.py:198-204 | The loop stops at the first response that lacks "Contents" or lacks a continuation token. |
| `FileSetLoader.GetPrefixedKeysFromBucket` | automation-scripts/file_set_loader.py:188-204 | Covers the first request, the later requests and the result. The first request names the bucket and prefix with no token. Each later request carries the previous response's `NextContinuationToken`. One request is made per response up to the stopping one. The result is every page's records in page order, or `KeyError` when the stopping page has no "Contents". |
| `FileSetLoader.PagedListingSinglePage` | automation-scripts/file_set_loader.py:396-422 | The test's single page of three keys lists those three records in order. |
| `FileSetLoader.EmptyPrefixListingRaises` | automation-scripts/file_set_loader.py:194 | As written: a prefix with no objects gives a response without "Contents", and the listing raises `KeyError`. |
| `FileSetLoader.LastPage` | automation-scripts/file_set_loader.py:198-204 | Finds the first response without a continuation token. |
| `FileSetLoader.GetPrefixedKeysFromBucketTolerant` | automation-scripts/file_set_loader.py:188-204 | Corrected listing with the same request chain. It stops at the first response without a token, and a page without "Contents" contributes nothing. |
| `FileSetLoader.EmptyPrefixListsNothing` | automation-scripts/file_set_loader.py:194 | Corrected: an empty prefix lists no keys. |
| `FileSetLoader.TolerantListingIsComplete` | automation-scripts/file_set_loader.py:190-204 | Corrected: every object of every page up to the last one is listed. |
| `FileSetLoader.ListingsAgreeWhenEveryPageHasContents` | automation-scripts/file_set_loader.py:190-204 | When every page carries "Contents", the listing as written succeeds and equals the corrected one. |
| `FileSetLoader.EnumerateS3Files` | automation-scripts/file_set_loader.py:208 | `enumerate_s3_files` as written sends its chain of requests under the S3 path. It fails with `KeyError` when the stopping page has no "Contents"; otherwise it yields the items of every listed key (also file_set_loader.py:188-204). |
| `FileSetLoader.EnumerateS3FilesTolerant` | automation-scripts/file_set_loader.py:208 | Corrected: the same requests over the tolerant listing, which never fails. It yields the items of the keys of every page that has "Contents". When every page has "Contents", these are the as-written items (`ListingsAgreeWhenEveryPageHasContents`). |
| `FileSetLoader.GetFileSets` | automation-scripts/file_set_loader.py:218-253 | A local failure is raised even if S3 also failed; otherwise an S3 failure is raised; otherwise both sets are returned. The result succeeds exactly when both enumerations did (also file_set_loader.py:114-133). |
| `LegacyFileSetLoader.GetPrefixedKeysFromBucket` | file_set_loader.py:103-105 | `bucket.list(prefix)` never returns more keys than the bucket holds. |
| `LegacyFileSetLoader.GetPrefixedKeysFromBucketMembers` | file_set_loader.py:103-105 | `bucket.list(prefix)`: only keys of the bucket are listed, and those are exactly the keys starting with the prefix. |
| `LegacyFileSetLoader.GetPrefixedKeysFromBucketAppend` | file_set_loader.py:103-105 | The listing keeps the bucket's order. |
| `LegacyFileSetLoader.EnumerateS3FilesTemplate` | file_set_loader.py:82-95 | Fetching the bucket by name and listing it gives the same items as the newer template when its client is that bucket. Every item comes from a file key of the listing. |
| `LegacyFileSetLoader.EnumerateBucketFiles` | file_set_loader.py:82-108 | Every file key under the prefix in the named bucket yields its item. |
| `S3Diff.FilePaths` | automation-scripts/s3_diff.py:20-21 | The path set contains every item's path and nothing else. |
| `S3Diff.GetLocalFilesChanged` | automation-scripts/s3_diff.py:12 | The result is a subset of the local set, disjoint from the S3 set, and holds every local item not on S3. The older definition at s3_diff.py:6 is identical. |
| `S3Diff.ChangedMeansNoMatchingPathAndHash` | automation-scripts/s3_diff.py:12 | Both directions: an item is changed exactly when it is local and no S3 item has both its path and its hash. |
| `S3Diff.ChangedEmptyWhenS3Covers` | automation-scripts/s3_diff.py:31-37 | Nothing is changed when S3 contains the local set, including equal sets (also s3_diff.py:17-23). |
| `S3Diff.ChangedExample` | automation-scripts/s3_diff.py:40-41 | {1,3,5,7,9} against {1,2,3,4,5} gives {7,9} (also s3_diff.py:26-27). |
| `S3Diff.GetLocalFilesRemoved` | automation-scripts/s3_diff.py:20-25 | The result is a subset of the S3 set. No removed item shares a path with a local item, and every S3 item whose path is not local is removed. |
| `S3Diff.RemovedPaths` | automation-scripts/s3_diff.py:20-25 | The removed paths are exactly the S3 paths minus the local paths. |
| `S3Diff.RemovedDependsOnlyOnPaths` | automation-scripts/s3_diff.py:20-23 | Inputs with the same paths on each side remove the same paths, whatever their hashes. |
| `S3Diff.RemovedEmptyWhenLocalPathsCover` | automation-scripts/s3_diff.py:44-54 | Nothing is removed when every S3 path is a local path, including equal sets. |
| `S3Diff.ContentChangeIsUploadedNotDeleted` | automation-scripts/s3_diff.py:12-25 | A local file whose S3 copy has another hash is uploaded, and that S3 copy is not deleted. |
| `S3Diff.ChangedAndRemovedDisjoint` | automation-scripts/s3_diff.py:12-25 | No item is both changed and removed. |
| `S3Diff.RemovedExtraPaths` | automation-scripts/s3_diff.py:20-25 | When S3 holds the local items plus items with new paths, exactly the new ones are removed. |
| `S3Diff.RemovedExample` | automation-scripts/s3_diff.py:57-63 | Remote a.yaml to e.yaml against local a.yaml to c.yaml removes exactly d.yaml and e.yaml. |
| `LegacyS3Diff.GetLocalFilesRemoved` | s3_diff.py:11 | The result is a subset of S3, disjoint from the local set, and holds every S3 item that no local item equals. |
| `LegacyS3Diff.RemovedEmptyWhenLocalCovers` | s3_diff.py:30-36 | Nothing is removed when the local set contains S3, including equal sets. |
| `LegacyS3Diff.RemovedExample` | s3_diff.py:39-40 | {1..5} locally against {1,3,5,7,9} on S3 removes {7,9}. |
| `LegacyS3Diff.SamePathNewHashIsRemoved` | s3_diff.py:11 | An S3 item whose path is still local with another hash is removed here, but not by the newer reconciler. |
| `LegacyS3Diff.EqualSetsGiveNothing` | s3_diff.py:17-32 | Equal inputs give nothing changed and nothing removed. |
| `LegacyS3Diff.ChangedAndRemovedDisjoint` | s3_diff.py:6-11 | The changed and removed results never share an item. |
| `LegacyS3Diff.PathOnlyRemovalRefinesFullEquality` | s3_diff.py:11 | Path-only removal (automation-scripts/s3_diff.py:25) removes a subset of what full-equality removal does. Every extra item the older one removes has its path still local with another hash. |
| `Paths.Join` | automation-scripts/file_set_loader.py:133 | `os.path.join(a, b)` on POSIX: an absolute `b` replaces `a`. Otherwise one separator goes between them, unless `a` is empty or already ends in one (also file_set_loader.py:18). |
| `Paths.JoinKeepsBothParts` | automation-scripts/file_set_loader.py:18 | The joined path always ends in `b` and, when `b` is relative, begins with `a`. |
| `S3Updater.PrependPath` | automation-scripts/s3_updater.py:7-17 | `os.path.join` of the path and the file: an absolute file replaces the path; otherwise a separator is inserted unless the path is empty or already ends in one (also s3_updater.py:8-10). |
| `S3Updater.PrependPathExample` | automation-scripts/s3_updater.py:193-195 | "path/to" and "myfile.txt" give "path/to/myfile.txt" (also s3_updater.py:95-97). |
| `S3Updater.PrependPathInjective` | automation-scripts/s3_updater.py:17 | Under a non-empty path without a trailing separator, distinct relative names give distinct joined paths. |
| `S3Updater.DeleteFilesTemplate` | automation-scripts/s3_updater.py:41-62 | The delete function receives the bucket fetched from a fresh client by name, and the key list unchanged. |
| `S3Updater.RequestKeys` | automation-scripts/s3_updater.py:77-82 | A request names one key per object. |
| `S3Updater.DeleteKeys` | automation-scripts/s3_updater.py:65-92 | An empty list makes no `delete_objects` call and returns empty lists. Otherwise one request is made whose objects give back exactly the input keys in order, and the result holds the response's "Deleted" and "Errors", each empty when absent. |
| `S3Updater.DeleteKeysReportsErrors` | automation-scripts/s3_updater.py:261-286 | Deleting key1 to key5 from a bucket that refuses key3 gives deleted [key1, key2, key4, key5] and errors [key3]. |
| `S3Updater.UploadFilesTemplate` | automation-scripts/s3_updater.py:99-134 | The bucket is fetched once. Each call passes that bucket, the local path joined with the file and the S3 path joined with the file. No file is uploaded twice and only files of the set are uploaded. Without an exception every file is uploaded; otherwise the first failing call ends the loop and its exception escapes. |
| `S3Updater.UploadFile` | automation-scripts/s3_updater.py:137-148 | As written: the second parameter becomes the key and the third the file to read. |
| `S3Updater.UploadFilesSwapsPaths` | automation-scripts/s3_updater.py:129-148 | Composed with the template, the local path becomes the key and the S3 path is read as the local file. |
| `S3Updater.UploadFilesSwapsPathsExample` | automation-scripts/s3_updater.py:314-342 | With the test's set-up, the composed upload reads "foo/file1" and writes key "my/files/path/file1". |
| `S3Updater.UploadFileFixed` | automation-scripts/s3_updater.py:137-148 | Corrected: the local file comes first and the key second, in the order the template passes them. |
| `S3Updater.UploadFileFixedSendsLocalFileToS3Key` | automation-scripts/s3_updater.py:129-148 | Corrected: each local file is sent from under the local path to its key under the S3 path. |
| `S3Updater.UploadFileFixedExample` | automation-scripts/s3_updater.py:314-342 | Corrected, with the test's set-up: "my/files/path/file1" is sent to key "foo/file1". |
| `S3Updater.Uploads` | automation-scripts/s3_updater.py:129-148 | A call trace maps call by call to the corrected uploads. |
| `S3Updater.UploadFilesReachesEveryKey` | automation-scripts/s3_updater.py:127-134 | Corrected (the code as written swaps the two paths, see s3_updater.py:137-148): after a run without exception, every local file has been sent to its key under the S3 path. |
| `LegacyS3Updater.DeleteFilesTemplate` | s3_updater.py:13-16 | The delete function receives the bucket fetched by name and the key list unchanged. |
| `LegacyS3Updater.Deleted` | s3_updater.py:27 | There is never more than one deleted value per call. |
| `LegacyS3Updater.Errors` | s3_updater.py:29-31 | There is never more than one error per call. |
| `LegacyS3Updater.DeletedAndErrorsPartition` | s3_updater.py:23-31 | Each key adds exactly one entry: `len(deleted) + len(errors) == len(keys)`. |
| `LegacyS3Updater.DeletedAppend` | s3_updater.py:23-27 | `deleted` keeps key order: a later key's value comes after every earlier one. |
| `LegacyS3Updater.ErrorsAppend` | s3_updater.py:23-31 | `errors` keeps key order. |
| `LegacyS3Updater.AllDeletedWhenNoneFail` | s3_updater.py:23-27 | When no call raises, `deleted` holds every returned value in order and `errors` is empty. |
| `LegacyS3Updater.Outcomes` | s3_updater.py:23-31 | One outcome per key, in key order. |
| `LegacyS3Updater.DeleteKeys` | s3_updater.py:19-33 | `delete_key` is called once per key, in order. The result belongs to the bucket. Returned values go to `deleted` and caught exceptions to `errors`, in order, and no exception escapes. |
| `LegacyS3Updater.DeleteKeysExample` | s3_updater.py:140-174 | For key1 to key5 with key3 refused: every key is tried, in order; the other four are deleted in order; one `KeyError` is collected. |
| `LegacyS3Updater.StepsForAll` | s3_updater.py:53-63 | Two calls per file. |
| `LegacyS3Updater.StepsForAllAt` | s3_updater.py:53-63 | The `i`-th file's calls sit at positions 2i and 2i+1. They create key `s3_path/file` and then fill that same key object from `local_path/file`. |
| `LegacyS3Updater.UploadFilesTemplate` | s3_updater.py:39-63 | The bucket is fetched once, and every file of the set is handled exactly once. The trace is, per file in loop order, a create-key call then a set-contents call. |
| `LegacyS3Updater.UploadsAgreeWithCorrectedUpdater` | s3_updater.py:55-63 | Across generations, the older updater creates the key and reads the file that the corrected newer `upload_file` receives. |
| `StackSync.DeleteKeys` | automation-scripts/automation-stack-sync.py:32 | The delete keys are exactly `s3_path + "/" + file`, one for each removed item. |
| `StackSync.UploadNames` | automation-scripts/automation-stack-sync.py:33 | The upload names are exactly the paths of the changed items. |
| `StackSync.SyncChanges` | automation-scripts/automation-stack-sync.py:16-33 | The file sets are loaded once and both reconciliations use that one pair. A load failure stops everything. The delete call precedes the upload call. Only an exception from the delete call, not its result, stops the upload. |
| `StackSync.DeleteKeyIsListedKey` | automation-scripts/automation-stack-sync.py:32 | An S3 item listed from a key under `s3_path + "/"` is deleted under that same key. |
| `StackSync.UploadsNeverTargetDeletedKeys` | automation-scripts/automation-stack-sync.py:29-33 | Corrected (the code as written swaps the two paths, see s3_updater.py:137-148): under a non-empty S3 path without a trailing separator, no uploaded key is a deleted key. |
| `StackSync.AsWrittenUploadCanTargetDeletedKey` | automation-scripts/s3_updater.py:137-148 | As written, the upload key is `local_path/file`. With local path "p/d", changed item "name" and removed S3 item "d/name", the run uploads to "p/d/name", which is also one of its delete keys (also automation-stack-sync.py:29-33). |
| `StackSync.TrailingSlashDeletesOtherKey` | automation-scripts/automation-stack-sync.py:32 | With an S3 path "p/", the listed key "p/rest" is deleted as "p//rest", a different key. |
| `StackSync.EmptyPathDeletesOtherKey` | automation-scripts/automation-stack-sync.py:32 | With an empty S3 path, the listed key "x" is deleted as "/x", a different key. |
| `StackSync.SiblingKeyDeletesOtherKey` | automation-scripts/automation-stack-sync.py:32 | The listing under "p" also returns a sibling key such as "p2/a", which is deleted as "p/2/a", a different key. |
| `LinterFilesFilter.IndexFrom` | automation-linter-files-filter.py:24 | Finds the first occurrence at or after a position, or reports that there is none. |
| `LinterFilesFilter.IndexOf` | automation-linter-files-filter.py:24 | `line.index(pat)`: the first occurrence, or none where Python raises. |
| `LinterFilesFilter.PySlice` | automation-linter-files-filter.py:25 | Python slicing: the substring when the bounds are in order, empty when the end precedes the start. |
| `LinterFilesFilter.SplitLines` | automation-linter-files-filter.py:21 | `split("\n")`: at least one piece, no piece holds a newline, and joining the pieces with newlines gives the input back. |
| `LinterFilesFilter.SplitJoinLines` | automation-linter-files-filter.py:21 | The other direction: splitting newline-free lines joined with newlines gives the lines back. |
| `LinterFilesFilter.ExtractPath` | automation-linter-files-filter.py:23-25 | A line not starting with "(dryrun) upload: " is ignored. Otherwise the path runs from index 17 to the first " to ", and a missing " to " raises `ValueError`. |
| `LinterFilesFilter.ExtractPathRoundTrip` | automation-linter-files-filter.py:23-25 | An upload line built from a path and a destination yields the path back, unless the path itself produces an earlier " to ". |
| `LinterFilesFilter.PathWithSeparatorIsTruncated` | automation-linter-files-filter.py:24-25 | A path containing " to " is cut at it: "a to b.yaml" is read as "a". |
| `LinterFilesFilter.HandleLine` | automation-linter-files-filter.py:23-31 | A non-upload line does nothing, and an upload line without " to " raises `ValueError`. Any other upload line is copied and, for templates, validated, and a failing validation is raised. |
| `LinterFilesFilter.PathActions` | automation-linter-files-filter.py:26-31 | The path is copied to `basePath + "/" + path`. Only for "templates" is that copy then validated as `file://` plus the destination. |
| `LinterFilesFilter.WellFormedAppend` | automation-linter-files-filter.py:26-31 | Prefixing one path's calls keeps the call sequence well formed. |
| `LinterFilesFilter.LineResultByCases` | automation-linter-files-filter.py:23-31 | A line's outcome meets `HandleLine`'s cases exactly when it is the line's entry in the run over the output, so the loop's run is the lines handled one by one. |
| `LinterFilesFilter.ChangeSetRunWellFormed` | automation-linter-files-filter.py:22-31 | For every output and every validation outcome, the run covers copies and validations. Every copy goes to the base path joined with its source. Every validation follows the copy it checks, and validations happen only for "templates". For "templates", every copy is followed by a validation. |
| `LinterFilesFilter.RunLinesAppend` | automation-linter-files-filter.py:22-31 | For any per-line handling, lines are handled in order. A raise ends the run, and later lines have no effect. |
| `LinterFilesFilter.CreateChangeSets` | automation-linter-files-filter.py:19-31 | A failing dry-run raises before any copy. Otherwise the calls and the escaping exception are those of the line-by-line run over the split output. |
| `ChangedFilesFilter.Select` | automation-changed-files-filter.py:26-27 | Keeps exactly the entries whose `a_path` starts with the prefix. |
| `ChangedFilesFilter.SelectAppend` | automation-changed-files-filter.py:26-27 | The filter keeps diff order. |
| `ChangedFilesFilter.StacksAndTemplatesDisjoint` | automation-changed-files-filter.py:26-27 | No entry is both a stack and a template. |
| `ChangedFilesFilter.EntryAction` | automation-changed-files-filter.py:18-23 | A deleted entry writes `a_path + "\n"` and is not copied. Any other entry is copied to `basePath + "/" + a_path` and writes nothing. |
| `ChangedFilesFilter.DeletedPaths` | automation-changed-files-filter.py:18-19 | Holds exactly the paths of the deleted entries. |
| `ChangedFilesFilter.DeletedTextLines` | automation-changed-files-filter.py:15-19 | Reading the delete file back line by line gives the deleted paths in entry order. |
| `ChangedFilesFilter.DeletedTextJoins` | automation-changed-files-filter.py:15-19 | The delete file's text is the deleted paths, each followed by a newline. |
| `ChangedFilesFilter.CreateChangeSets` | automation-changed-files-filter.py:14-23 | There is one effect per entry, in entry order, and the delete file receives the deleted paths' lines in entry order. |
| `ChangedFilesFilter.FilterChangedFiles` | automation-changed-files-filter.py:26-33 | Templates are handled first (staged under "templates-sync") and stacks second (under "stacks-sync"). Each group has its own delete file. |

## Findings

| source | as written | input that shows it | evidently intended | confidence | as-written member | corrected member |
|---|---|---|---|---|---|---|
| automation-scripts/file_set_loader.py:194 | `for key in response["Contents"]` indexes a field that `list_objects_v2` leaves out of a response with no objects | an S3 path with no objects yet: one response without "Contents" and without a continuation token; the listing raises `KeyError`, so the enumeration, and with it the whole sync, fails | an empty prefix lists no keys, and a sync to a fresh path uploads everything | not executed | `FileSetLoader.EmptyPrefixListingRaises` | `FileSetLoader.GetPrefixedKeysFromBucketTolerant` |
| automation-scripts/s3_updater.py:129-148 | the template calls `upload_file_func(bucket, local file, S3 key)`, but `upload_file(bucket, key_path, file)` reads them as (key, file) and calls `bucket.upload_file(file, key_path)` | local path "my/files/path", S3 path "foo", file "file1": the upload reads local file "foo/file1" and writes key "my/files/path/file1" | read "my/files/path/file1" and write key "foo/file1", as the older create-key/set-contents pair does | not executed | `S3Updater.UploadFilesSwapsPathsExample` | `S3Updater.UploadFileFixedSendsLocalFileToS3Key` |

## Left out

- Threads (`future.py` in both generations) are not modelled. Only what `get_file_sets` does after both threads have finished is modelled, as a function of the two outcomes.
- Currying (`curried.py`) is not modelled. Every `*_template` is an uncurried function or method whose collaborators are parameters.
- `Struct` (`automation-scripts/common.py`) becomes a fixed record, and the key listing's records are (name, etag) pairs.
- The following are parameters, not modelled: MD5, `read_bytes`, `os.walk`, `get_s3_client`, `get_bucket` and the boto/boto3 objects.
- `trim_prefix` builds a regular expression from the prefix. The model reads the prefix literally, so a prefix holding regex metacharacters (such as '.') behaves differently in the source.
- `os.path.join` is modelled for POSIX separators only.
- Python generators are lazy. The model produces whole sequences, and an exception raised mid-enumeration by a collaborator (an unreadable file, a failing request) appears only as the failed outcome that `get_file_sets` receives.
- `FileSetLoader.GetPrefixedKeysFromBucket` requires that some response stops the listing. A server that always returns a continuation token makes the source loop forever, and the model does not cover that.
- `StackSync.DeleteKeyIsListedKey` holds only for keys under `s3_path + "/"`. The sync also deletes keys it never listed: under a trailing-slash or empty S3 path, and for a sibling key such as "stacks2/a" listed under "stacks". `TrailingSlashDeletesOtherKey`, `EmptyPathDeletesOtherKey` and `SiblingKeyDeletesOtherKey` show each case.
- `StackSync.UploadsNeverTargetDeletedKeys` holds only for a non-empty S3 path without a trailing separator, for the same reasons.
- `LegacyFileSetLoader.GetPrefixedKeysFromBucket` models `bucket.list` as the bucket's keys filtered by prefix. boto's own paging behind `list` is not modelled.
- `Item.__repr__` and `Item.__str__` only format text and are not modelled.
- `LegacyS3Updater.UploadFilesTemplate` does not model an exception from `create_s3_key` or `set_s3_key_contents` ending the loop early. The newer template's failure behaviour is modelled.
- `StackSync.SyncChanges` passes the delete keys and upload names as sets. The source passes `map` objects, which would repeat a name held by two changed items; a local walk lists each path once, so that does not arise. The delete and upload calls appear as steps carrying their arguments and whether they raise; what they do inside is modelled in `S3Updater`.
- `automation-linter-files-filter.py` is partly left out. The `aws s3 sync --dryrun` run is replaced by its output, or the exception its failure raises, and UTF-8 decoding is not modelled. `os.makedirs` and `shutil.copy2` are modelled as a copy step that does not fail. The `validate-template` run is modelled as a validation step that may raise. The module-level `os.makedirs` calls, the unused `dir_path` and the two calls for "templates" and "stacks" at the end are left out.
- `automation-changed-files-filter.py` is partly left out. The commit diff from `git.Repo` is the input sequence of entries. `os.makedirs` and `shutil.copy2` are modelled as a copy step that does not fail; an exception from either (for instance an entry whose `a_path` is no longer in the working tree) would end the script, skipping later entries and the stacks pass, and the model does not cover that. The prints, opening the two delete files, and the `.close` references (lines 35-36, never called) are left out; a delete file's contents are the text written to it.
- `automation-stack-sync.py` (root), `automation-lambda-tests.py` and the argument parsing of the scripts are not part of this model. They only read a configuration file, run `aws s3 sync` or hold a stub.
