/**
 * The older file-set loader. Items, hashing, path trimming, local
 * enumeration and the joining of the two enumerations are the same as in
 * the newer loader and are taken from it; what differs is how S3 keys are
 * obtained: a bucket object is fetched by name and asked for the keys under
 * a prefix, in a single unpaginated listing.
 */
module LegacyFileSetLoader {
  import opened FileSetLoader

  /** A bucket as the listing sees it: its keys, in listing order. */
  type Bucket = seq<KeyStruct>

  /** `bucket.list(prefix = s3_path)`: the bucket's keys that start with the prefix, in order. */
  function GetPrefixedKeysFromBucket(bucket: Bucket, s3Path: string): (r: seq<KeyStruct>)
    ensures |r| <= |bucket|
  {
    if bucket == [] then []
    else if s3Path <= bucket[0].name then [bucket[0]] + GetPrefixedKeysFromBucket(bucket[1..], s3Path)
    else GetPrefixedKeysFromBucket(bucket[1..], s3Path)
  }

  /** Only keys of the bucket are listed, and those are exactly the keys that start with the prefix. */
  lemma {:induction false} GetPrefixedKeysFromBucketMembers(bucket: Bucket, s3Path: string)
    ensures forall k :: k in GetPrefixedKeysFromBucket(bucket, s3Path) <==> k in bucket && s3Path <= k.name
  {
    if bucket != [] {
      GetPrefixedKeysFromBucketMembers(bucket[1..], s3Path);
      assert forall k :: k in bucket <==> k == bucket[0] || k in bucket[1..];
    }
  }

  /** The listing keeps the bucket's order: listing a concatenation lists each part in turn. */
  lemma {:induction false} GetPrefixedKeysFromBucketAppend(a: Bucket, b: Bucket, s3Path: string)
    ensures GetPrefixedKeysFromBucket(a + b, s3Path) == GetPrefixedKeysFromBucket(a, s3Path) + GetPrefixedKeysFromBucket(b, s3Path)
  {
    if a == [] {
      assert a + b == b;
    } else {
      assert (a + b)[0] == a[0] && (a + b)[1..] == a[1..] + b;
      GetPrefixedKeysFromBucketAppend(a[1..], b, s3Path);
      var rest := GetPrefixedKeysFromBucket(a[1..], s3Path) + GetPrefixedKeysFromBucket(b, s3Path);
      if s3Path <= a[0].name {
        assert GetPrefixedKeysFromBucket(a + b, s3Path) == [a[0]] + rest;
      } else {
        assert GetPrefixedKeysFromBucket(a + b, s3Path) == rest;
      }
    }
  }

  /**
   * `enumerate_s3_files_template` with a bucket getter: the same items as the
   * newer template fed with a client that is the fetched bucket.
   */
  function EnumerateS3FilesTemplate<B>(getBucket: string -> B, getPrefixedKeys: (B, string) -> seq<KeyStruct>,
                                       s3Bucket: string, s3Path: string): (r: seq<Item>)
    ensures r == FileSetLoader.EnumerateS3FilesTemplate(() => getBucket(s3Bucket), (c: B, b: string, p: string) => getPrefixedKeys(c, p), s3Bucket, s3Path)
    ensures forall it :: it in r ==>
      (exists k :: k in getPrefixedKeys(getBucket(s3Bucket), s3Path) && !IsDirectoryMarker(k.name) && it == S3Item(k, s3Path))
  {
    S3KeysToItemsMembers(getPrefixedKeys(getBucket(s3Bucket), s3Path), s3Path);
    S3KeysToItems(getPrefixedKeys(getBucket(s3Bucket), s3Path), s3Path)
  }

  /**
   * `enumerate_s3_files` over a bucket: every enumerated item comes from a
   * file key under the prefix, and every such key yields an item.
   */
  lemma EnumerateBucketFiles(buckets: string -> Bucket, s3Bucket: string, s3Path: string, k: KeyStruct)
    requires k in buckets(s3Bucket) && s3Path <= k.name && !IsDirectoryMarker(k.name)
    ensures S3Item(k, s3Path) in EnumerateS3FilesTemplate(buckets, GetPrefixedKeysFromBucket, s3Bucket, s3Path)
  {
    GetPrefixedKeysFromBucketMembers(buckets(s3Bucket), s3Path);
    S3KeysToItemsMembers(GetPrefixedKeysFromBucket(buckets(s3Bucket), s3Path), s3Path);
  }
}
