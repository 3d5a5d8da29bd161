/**
 * The file-set loader: the `Item` value, the prefix-trimming helpers, the
 * enumeration of local files and of S3 keys, the paginated S3 listing and the
 * failure precedence applied once both enumerations have finished.
 *
 * The collaborators the scripts inject by currying (the file reader and hash
 * function, `os.walk`, the boto3 client) are function parameters here; the
 * paginated S3 client is the sequence of responses it hands out, one per call.
 */
module FileSetLoader {
  import opened Common
  import Paths

  // ---------------------------------------------------------------- Item

  /**
   * A file, identified by its relative path `file` and its content hash
   * (`None` for a file that was never hashed). Datatype equality is over both
   * fields, which is exactly what the Python `__eq__` compares.
   */
  datatype Item = Item(file: string, fileHash: Option<string>)

  /** `Item(file_path, file_name, file_hash)`: the directory is joined to the name only when it is non-empty. */
  function NewItem(filePath: string, fileName: string, fileHash: Option<string>): (r: Item)
    ensures filePath == "" ==> r.file == fileName
    ensures filePath != "" && filePath[|filePath| - 1] != '/' && !Paths.IsAbsolute(fileName)
      ==> r.file == filePath + "/" + fileName
    ensures r.fileHash == fileHash
  {
    Item(if filePath == "" then fileName else Paths.Join(filePath, fileName), fileHash)
  }

  /** The tuple `__hash__` feeds to Python's `hash`: both fields, in order. */
  function HashKey(it: Item): (string, Option<string>)
  {
    (it.file, it.fileHash)
  }

  /** Equality and hashing agree: two items are equal exactly when their hash keys are. */
  lemma HashKeyAgreesWithEquality(a: Item, b: Item)
    ensures a == b <==> HashKey(a) == HashKey(b)
  {
  }

  /** The six items of the inequality test are pairwise distinct; a `None` hash differs from every string hash. */
  lemma SixItemsPairwiseDistinct()
    ensures var items := [NewItem("foo", "bar", Some("baz")), NewItem("foo", "bar", None),
                          NewItem("foo", "bar", Some("hash")), NewItem("bar", "foo", Some("baz")),
                          NewItem("bar", "foo", None), NewItem("bar", "foo", Some("hash"))];
            forall i, j :: 0 <= i < j < 6 ==> items[i] != items[j]
  {
    var items := [NewItem("foo", "bar", Some("baz")), NewItem("foo", "bar", None),
                  NewItem("foo", "bar", Some("hash")), NewItem("bar", "foo", Some("baz")),
                  NewItem("bar", "foo", None), NewItem("bar", "foo", Some("hash"))];
    assert items[0].file == "foo/bar" && items[3].file == "bar/foo";
    assert "foo/bar"[0] != "bar/foo"[0];
  }

  // -------------------------------------------------------------- hashing

  type Bytes = seq<bv8>

  /** `hash_file_template`: the hash of a file is the hash function applied to the bytes read from it. */
  function HashFileTemplate(readBytes: string -> Bytes, hashFunc: Bytes -> string, file: string): (r: string)
    ensures r == hashFunc(readBytes(file))
  {
    hashFunc(readBytes(file))
  }

  // ------------------------------------------------------------- trimming

  /** `trim_prefix`: removes one leading occurrence of `prefix`, read as a literal string. */
  function TrimPrefix(s: string, prefix: string): (r: string)
    ensures prefix <= s ==> prefix + r == s
    ensures !(prefix <= s) ==> r == s
  {
    if prefix <= s then s[|prefix|..] else s
  }

  /** `trim_path_prefix`: trims `prefix`, then one leading path separator. */
  function TrimPathPrefix(s: string, prefix: string): (r: string)
    ensures prefix + "/" <= s ==> s == prefix + "/" + r
    ensures prefix <= s && !(prefix + "/" <= s) ==> s == prefix + r
    ensures !(prefix <= s) && "/" <= s ==> s == "/" + r
    ensures !(prefix <= s) && !("/" <= s) ==> r == s
  {
    var t := TrimPrefix(s, prefix);
    assert prefix + "/" <= s ==> "/" <= t by {
      if prefix + "/" <= s {
        assert t == s[|prefix|..];
        assert t[0] == s[|prefix|] == '/';
      }
    }
    TrimPrefix(t, "/")
  }

  /** The `trim_prefix` test: one leading "bob" goes, a string not starting with it is unchanged. */
  lemma TrimPrefixExamples()
    ensures TrimPrefix("bobobobobobbob", "bob") == "obobobobbob"
    ensures TrimPrefix("bobbobobobobob", "bob") == "bobobobobob"
    ensures TrimPrefix("ooobobbobobobo", "bob") == "ooobobbobobobo"
  {
    assert "bob" <= "bobobobobobbob";
    assert "bob" <= "bobbobobobobob";
    assert "ooobobbobobobo"[0] != "bob"[0];
  }

  /**
   * The `trim_path_prefix` test, for every prefix: a key made of the prefix,
   * a separator and a rest trims to exactly that rest, so "this/is/my/path/prefix"
   * under "this/is" gives "my/path/prefix".
   */
  lemma TrimPathPrefixUnder(prefix: string, rest: string)
    ensures TrimPathPrefix(prefix + "/" + rest, prefix) == rest
  {
    var key := prefix + "/" + rest;
    assert prefix + "/" <= key;
    var t := TrimPrefix(key, prefix);
    assert t == "/" + rest;
    assert TrimPrefix(t, "/") == rest;
  }

  /**
   * A key listed under `prefix + "/"` is rebuilt exactly by prepending the
   * prefix and one separator to its trimmed form.
   */
  lemma TrimPathPrefixRoundTrip(key: string, prefix: string)
    requires prefix + "/" <= key
    ensures prefix + "/" + TrimPathPrefix(key, prefix) == key
  {
  }

  /**
   * The trim is not path-component aware: a sibling key such as "stacks2/a"
   * under prefix "stacks" loses the characters "stacks" and nothing else.
   */
  lemma TrimPathPrefixSiblingKey()
    ensures TrimPathPrefix("stacks2/a", "stacks") == "2/a"
  {
    assert "stacks" <= "stacks2/a";
    assert !("stacks/" <= "stacks2/a") by { assert "stacks2/a"[6] != '/'; }
  }

  // ---------------------------------------------------- local enumeration

  /** One tuple `(root, dir_names, file_names)` of the directory walk. */
  datatype WalkEntry = WalkEntry(root: string, dirNames: seq<string>, fileNames: seq<string>)

  /** The item for file `name` found in directory `root`: path trimmed of the walk root, hash over the untrimmed path. */
  function LocalItem(hashFile: string -> string, localPath: string, root: string, name: string): Item
  {
    NewItem(TrimPathPrefix(root, localPath), name, Some(hashFile(Paths.Join(root, name))))
  }

  /** The items of one walk entry, in the order of its file names: one item per name, and only those. */
  function EntryItems(hashFile: string -> string, localPath: string, e: WalkEntry): (r: seq<Item>)
    ensures |r| == |e.fileNames|
    ensures forall i :: 0 <= i < |r| ==> r[i] == LocalItem(hashFile, localPath, e.root, e.fileNames[i])
    ensures forall name :: name in e.fileNames ==> LocalItem(hashFile, localPath, e.root, name) in r
    ensures forall it :: it in r ==> exists name :: name in e.fileNames && it == LocalItem(hashFile, localPath, e.root, name)
  {
    var r := seq(|e.fileNames|, i requires 0 <= i < |e.fileNames| => LocalItem(hashFile, localPath, e.root, e.fileNames[i]));
    forall it | it in r
      ensures exists name :: name in e.fileNames && it == LocalItem(hashFile, localPath, e.root, name)
    {
      var i :| 0 <= i < |r| && r[i] == it;
      assert e.fileNames[i] in e.fileNames;
    }
    forall name | name in e.fileNames
      ensures LocalItem(hashFile, localPath, e.root, name) in r
    {
      var i :| 0 <= i < |e.fileNames| && e.fileNames[i] == name;
      assert r[i] == LocalItem(hashFile, localPath, e.root, name);
    }
    r
  }

  /** The number of file names over all entries of a walk. */
  function FileCount(walk: seq<WalkEntry>): nat
  {
    if walk == [] then 0 else |walk[0].fileNames| + FileCount(walk[1..])
  }

  /** The items of a whole walk: the entries' items one after the other, one per file name, each with a hash. */
  function WalkItems(hashFile: string -> string, localPath: string, walk: seq<WalkEntry>): (r: seq<Item>)
    ensures |r| == FileCount(walk)
    ensures forall it :: it in r ==> it.fileHash.Some?
  {
    if walk == [] then []
    else EntryItems(hashFile, localPath, walk[0]) + WalkItems(hashFile, localPath, walk[1..])
  }

  /** Every (entry, file name) pair of the walk yields its item, and every item comes from such a pair. */
  lemma {:induction false} WalkItemsMembers(hashFile: string -> string, localPath: string, walk: seq<WalkEntry>)
    ensures forall e, name :: e in walk && name in e.fileNames ==> LocalItem(hashFile, localPath, e.root, name) in WalkItems(hashFile, localPath, walk)
    ensures forall it :: it in WalkItems(hashFile, localPath, walk) ==>
      exists e, name :: e in walk && name in e.fileNames && it == LocalItem(hashFile, localPath, e.root, name)
  {
    if walk != [] {
      var head := EntryItems(hashFile, localPath, walk[0]);
      var tail := WalkItems(hashFile, localPath, walk[1..]);
      WalkItemsMembers(hashFile, localPath, walk[1..]);
      assert WalkItems(hashFile, localPath, walk) == head + tail;
      forall e, name | e in walk && name in e.fileNames
        ensures LocalItem(hashFile, localPath, e.root, name) in head + tail
      {
        if e != walk[0] {
          assert e in walk[1..];
        }
      }
      forall it | it in head + tail
        ensures exists e, name :: e in walk && name in e.fileNames && it == LocalItem(hashFile, localPath, e.root, name)
      {
        if it in head {
          var name :| name in walk[0].fileNames && it == LocalItem(hashFile, localPath, walk[0].root, name);
          assert walk[0] in walk;
        } else {
          var e, name :| e in walk[1..] && name in e.fileNames && it == LocalItem(hashFile, localPath, e.root, name);
          assert e in walk;
        }
      }
    }
  }

  /** The walk is consumed in order: the items of a concatenated walk are the concatenated items. */
  lemma {:induction false} WalkItemsAppend(hashFile: string -> string, localPath: string, a: seq<WalkEntry>, b: seq<WalkEntry>)
    ensures WalkItems(hashFile, localPath, a + b) == WalkItems(hashFile, localPath, a) + WalkItems(hashFile, localPath, b)
  {
    if a == [] {
      assert a + b == b;
    } else {
      assert (a + b)[1..] == a[1..] + b;
      WalkItemsAppend(hashFile, localPath, a[1..], b);
    }
  }

  /** `enumerate_local_files_template`: one item per file name per walked directory, in walk order. */
  function EnumerateLocalFilesTemplate(hashFile: string -> string, listFiles: string -> seq<WalkEntry>, localPath: string): (r: seq<Item>)
    ensures |r| == FileCount(listFiles(localPath))
    ensures forall e, name :: e in listFiles(localPath) && name in e.fileNames ==>
      NewItem(TrimPathPrefix(e.root, localPath), name, Some(hashFile(Paths.Join(e.root, name)))) in r
    ensures forall it :: it in r ==> it.fileHash.Some?
  {
    WalkItemsMembers(hashFile, localPath, listFiles(localPath));
    WalkItems(hashFile, localPath, listFiles(localPath))
  }

  /**
   * The enumeration test: a walk of "my_path" alone yields its two files
   * with paths relative to the root, hashed over the full path.
   */
  lemma EnumerateLocalFilesExample(hashFile: string -> string, listFiles: string -> seq<WalkEntry>)
    requires listFiles("my_path") == [WalkEntry("my_path", [], ["file1.txt", "file2.txt"])]
    ensures EnumerateLocalFilesTemplate(hashFile, listFiles, "my_path")
      == [NewItem("", "file1.txt", Some(hashFile("my_path/file1.txt"))),
          NewItem("", "file2.txt", Some(hashFile("my_path/file2.txt")))]
  {
    assert "my_path" + "/" + "file1.txt" == "my_path/file1.txt";
    assert "my_path" + "/" + "file2.txt" == "my_path/file2.txt";
    LocalItemAtRoot(hashFile, "my_path", "file1.txt");
    LocalItemAtRoot(hashFile, "my_path", "file2.txt");
    OneDirectoryWalk(hashFile, listFiles, "my_path", "file1.txt", "file2.txt");
  }

  /** A file directly under the walk root has an empty path and is hashed over the root, a '/' and its name. */
  lemma LocalItemAtRoot(hashFile: string -> string, root: string, name: string)
    requires root != [] && root[|root| - 1] != '/' && !Paths.IsAbsolute(name)
    ensures LocalItem(hashFile, root, root, name) == NewItem("", name, Some(hashFile(root + "/" + name)))
  {
    TrimPathPrefixSelf(root);
  }

  /** The walk root trimmed of itself is empty: files directly under the synced directory have an empty path. */
  lemma TrimPathPrefixSelf(p: string)
    ensures TrimPathPrefix(p, p) == ""
  {
    assert p <= p;
    assert !(p + "/" <= p);
  }

  /** A walk that finds only the root directory, holding two files, yields the two files' items in order. */
  lemma OneDirectoryWalk(hashFile: string -> string, listFiles: string -> seq<WalkEntry>, localPath: string, f1: string, f2: string)
    requires listFiles(localPath) == [WalkEntry(localPath, [], [f1, f2])]
    ensures EnumerateLocalFilesTemplate(hashFile, listFiles, localPath)
      == [LocalItem(hashFile, localPath, localPath, f1), LocalItem(hashFile, localPath, localPath, f2)]
  {
    var e := WalkEntry(localPath, [], [f1, f2]);
    var items := EntryItems(hashFile, localPath, e);
    assert |items| == 2 && items[0] == LocalItem(hashFile, localPath, localPath, f1)
      && items[1] == LocalItem(hashFile, localPath, localPath, f2);
    TwoElements(items, LocalItem(hashFile, localPath, localPath, f1), LocalItem(hashFile, localPath, localPath, f2));
    assert WalkItems(hashFile, localPath, [e]) == items + WalkItems(hashFile, localPath, []) by { assert [e][1..] == []; }
    assert items + [] == items;
  }

  // ------------------------------------------------------- S3 enumeration

  /** The `(name, etag)` record the listing produces for each object. */
  datatype KeyStruct = KeyStruct(name: string, etag: string)

  /** A key ending in '/' is a "directory" marker, not a file. */
  predicate IsDirectoryMarker(name: string) {
    EndsWith(name, "/")
  }

  /** Leading copies of `c` in `s`. */
  function LeadingCount(s: string, c: char): (n: nat)
    ensures n <= |s|
    ensures forall i :: 0 <= i < n ==> s[i] == c
    ensures n < |s| ==> s[n] != c
  {
    if s != [] && s[0] == c then 1 + LeadingCount(s[1..], c) else 0
  }

  /** `s.lstrip(c)`: the result is a suffix of `s`, everything before it is `c`, and it does not start with `c`. */
  function StripLeading(s: string, c: char): (r: string)
    ensures |r| <= |s| && r == s[|s| - |r|..]
    ensures forall i :: 0 <= i < |s| - |r| ==> s[i] == c
    ensures r == [] || r[0] != c
  {
    s[LeadingCount(s, c)..]
  }

  /** `s.rstrip(c)`: the result is a prefix of `s`, everything after it is `c`, and it does not end with `c`. */
  function StripTrailing(s: string, c: char): (r: string)
    ensures |r| <= |s| && r == s[..|r|]
    ensures forall i :: |r| <= i < |s| ==> s[i] == c
    ensures r == [] || r[|r| - 1] != c
  {
    if s != [] && s[|s| - 1] == c then StripTrailing(s[..|s| - 1], c) else s
  }

  /**
   * `s.strip(c)`: the result is the part of `s` after its leading run of `c`,
   * followed in `s` only by copies of `c`, and neither starts nor ends with `c`.
   */
  function Strip(s: string, c: char): (r: string)
    ensures LeadingCount(s, c) + |r| <= |s|
    ensures r == s[LeadingCount(s, c)..LeadingCount(s, c) + |r|]
    ensures forall i :: LeadingCount(s, c) + |r| <= i < |s| ==> s[i] == c
    ensures r == [] || (r[0] != c && r[|r| - 1] != c)
  {
    var t := StripLeading(s, c);
    var r := StripTrailing(t, c);
    assert r != [] ==> r[0] == t[0];
    r
  }

  /** The hash of an S3 object: its ETag with '"' and then "'" stripped from both ends. */
  function EtagHash(etag: string): (r: string)
    ensures r == [] || (r[0] != '\'' && r[|r| - 1] != '\'')
    ensures |r| <= |etag|
  {
    Strip(Strip(etag, '"'), '\'')
  }

  /** A quoted ETag such as "\"abc\"" loses its quotes. */
  lemma EtagHashExample()
    ensures EtagHash("\"abc\"") == "abc"
  {
    assert LeadingCount("\"abc\"", '"') == 1;
    assert StripLeading("\"abc\"", '"') == "abc\"";
    assert StripTrailing("abc\"", '"') == "abc";
    assert LeadingCount("abc", '\'') == 0;
    assert StripTrailing("abc", '\'') == "abc";
  }

  /** The item for a listed object: path relative to `s3Path`, hash from the ETag. */
  function S3Item(key: KeyStruct, s3Path: string): Item
  {
    NewItem("", TrimPathPrefix(key.name, s3Path), Some(EtagHash(key.etag)))
  }

  /** The listed keys that are files, in listing order: directory markers dropped. */
  function FileKeys(keys: seq<KeyStruct>): (r: seq<KeyStruct>)
    ensures |r| <= |keys|
    ensures forall k :: k in r <==> k in keys && !IsDirectoryMarker(k.name)
  {
    if keys == [] then []
    else
      var tail := FileKeys(keys[1..]);
      assert forall k :: k in keys <==> k == keys[0] || k in keys[1..];
      if IsDirectoryMarker(keys[0].name) then tail else [keys[0]] + tail
  }

  /** The items for a listing, in listing order: one per key that is not a directory marker. */
  function S3KeysToItems(keys: seq<KeyStruct>, s3Path: string): (r: seq<Item>)
    ensures |r| == |FileKeys(keys)| <= |keys|
  {
    var files := FileKeys(keys);
    seq(|files|, i requires 0 <= i < |files| => S3Item(files[i], s3Path))
  }

  /** Every listed key that is not a directory marker becomes an item, and every item comes from such a key. */
  lemma S3KeysToItemsMembers(keys: seq<KeyStruct>, s3Path: string)
    ensures forall k :: k in keys && !IsDirectoryMarker(k.name) ==> S3Item(k, s3Path) in S3KeysToItems(keys, s3Path)
    ensures forall it :: it in S3KeysToItems(keys, s3Path) ==>
      (exists k :: k in keys && !IsDirectoryMarker(k.name) && it == S3Item(k, s3Path))
  {
    var files := FileKeys(keys);
    var r := S3KeysToItems(keys, s3Path);
    forall k | k in keys && !IsDirectoryMarker(k.name)
      ensures S3Item(k, s3Path) in r
    {
      var i :| 0 <= i < |files| && files[i] == k;
      assert r[i] == S3Item(k, s3Path);
    }
    forall it | it in r
      ensures exists k :: k in keys && !IsDirectoryMarker(k.name) && it == S3Item(k, s3Path)
    {
      var i :| 0 <= i < |r| && r[i] == it;
      assert files[i] in files;
    }
  }

  /**
   * `enumerate_s3_files_template`: lists the keys under `s3Path` with a fresh
   * client and turns every key that is not a directory marker into an item.
   */
  function EnumerateS3FilesTemplate<C>(getS3Client: () -> C, getPrefixedKeys: (C, string, string) -> seq<KeyStruct>,
                                       s3Bucket: string, s3Path: string): (r: seq<Item>)
    ensures forall k :: k in getPrefixedKeys(getS3Client(), s3Bucket, s3Path) && !IsDirectoryMarker(k.name) ==>
      S3Item(k, s3Path) in r
    ensures forall it :: it in r ==>
      (exists k :: k in getPrefixedKeys(getS3Client(), s3Bucket, s3Path) && !IsDirectoryMarker(k.name) && it == S3Item(k, s3Path))
    ensures |r| <= |getPrefixedKeys(getS3Client(), s3Bucket, s3Path)|
  {
    S3KeysToItemsMembers(getPrefixedKeys(getS3Client(), s3Bucket, s3Path), s3Path);
    S3KeysToItems(getPrefixedKeys(getS3Client(), s3Bucket, s3Path), s3Path)
  }

  /** An ETag that neither starts nor ends with a quote character is its own hash. */
  lemma EtagHashUnquoted(etag: string)
    requires etag != [] && etag[0] !in "\"'" && etag[|etag| - 1] !in "\"'"
    ensures EtagHash(etag) == etag
  {
    assert LeadingCount(etag, '"') == 0;
    assert StripTrailing(etag, '"') == etag;
    assert LeadingCount(etag, '\'') == 0;
    assert StripTrailing(etag, '\'') == etag;
  }

  /** A listed file whose name does not start with the S3 path or a separator keeps its name as path and its ETag as hash. */
  lemma S3ItemOutsidePath(k: KeyStruct, s3Path: string)
    requires !(s3Path <= k.name) && !("/" <= k.name)
    requires k.etag != [] && k.etag[0] !in "\"'" && k.etag[|k.etag| - 1] !in "\"'"
    ensures S3Item(k, s3Path) == Item(k.name, Some(k.etag))
  {
    EtagHashUnquoted(k.etag);
  }

  /**
   * The shape of the enumeration test's listing: two files outside the S3
   * path with unquoted ETags, then a directory marker. The marker is dropped,
   * and each file keeps its name, with its ETag as hash.
   */
  lemma TwoFilesAndMarker(f1: KeyStruct, f2: KeyStruct, dir: KeyStruct, s3Path: string)
    requires !IsDirectoryMarker(f1.name) && !IsDirectoryMarker(f2.name) && IsDirectoryMarker(dir.name)
    requires !(s3Path <= f1.name) && !("/" <= f1.name) && !(s3Path <= f2.name) && !("/" <= f2.name)
    requires f1.etag != [] && f1.etag[0] !in "\"'" && f1.etag[|f1.etag| - 1] !in "\"'"
    requires f2.etag != [] && f2.etag[0] !in "\"'" && f2.etag[|f2.etag| - 1] !in "\"'"
    ensures S3KeysToItems([f1, f2, dir], s3Path) == [Item(f1.name, Some(f1.etag)), Item(f2.name, Some(f2.etag))]
  {
    assert FileKeys([dir]) == [] by { assert [dir][1..] == []; }
    assert FileKeys([f2, dir]) == [f2] by { assert [f2, dir][1..] == [dir]; }
    assert FileKeys([f1, f2, dir]) == [f1, f2] by { assert [f1, f2, dir][1..] == [f2, dir]; }
    var r := S3KeysToItems([f1, f2, dir], s3Path);
    assert |r| == 2 && r[0] == S3Item(f1, s3Path) && r[1] == S3Item(f2, s3Path);
    TwoElements(r, S3Item(f1, s3Path), S3Item(f2, s3Path));
    S3ItemOutsidePath(f1, s3Path);
    S3ItemOutsidePath(f2, s3Path);
  }






  // ------------------------------------------------------ paginated listing

  /** An entry of a response's "Contents". */
  datatype ListedObject = ListedObject(key: string, etag: string)

  /** A `list_objects_v2` response: "Contents" and "NextContinuationToken" may each be absent. */
  datatype ListResponse = ListResponse(contents: Option<seq<ListedObject>>, nextContinuationToken: Option<string>)

  /** The keyword arguments of one `list_objects_v2` call. */
  datatype ListRequest = ListRequest(bucket: string, prefix: string, continuationToken: Option<string>)

  /** The records built from one response (none when "Contents" is absent). */
  function PageKeys(response: ListResponse): (r: seq<KeyStruct>)
    ensures response.contents.Some? ==> |r| == |response.contents.value|
    ensures response.contents.Some? ==> forall i :: 0 <= i < |r| ==>
      r[i] == KeyStruct(response.contents.value[i].key, response.contents.value[i].etag)
    ensures response.contents.None? ==> r == []
  {
    match response.contents
    case None => []
    case Some(c) => seq(|c|, i requires 0 <= i < |c| => KeyStruct(c[i].key, c[i].etag))
  }

  /** The records of a sequence of responses, page after page. */
  function KeysOf(responses: seq<ListResponse>): seq<KeyStruct>
  {
    if responses == [] then [] else PageKeys(responses[0]) + KeysOf(responses[1..])
  }

  lemma {:induction false} KeysOfAppend(a: seq<ListResponse>, b: seq<ListResponse>)
    ensures KeysOf(a + b) == KeysOf(a) + KeysOf(b)
  {
    if a == [] {
      assert a + b == b;
    } else {
      assert (a + b)[1..] == a[1..] + b;
      KeysOfAppend(a[1..], b);
    }
  }

  /** Serving one more page appends that page's records. */
  lemma KeysOfStep(responses: seq<ListResponse>, i: nat)
    requires i < |responses|
    ensures KeysOf(responses[..i + 1]) == KeysOf(responses[..i]) + PageKeys(responses[i])
  {
    KeysOfAppend(responses[..i], [responses[i]]);
    assert responses[..i + 1] == responses[..i] + [responses[i]];
    assert KeysOf([responses[i]]) == PageKeys(responses[i]) + KeysOf([]);
  }

  /** Every object of every page appears in the concatenated records, at its page's offset. */
  lemma {:induction false} KeysOfContainsEveryPage(responses: seq<ListResponse>, p: nat, o: nat)
    requires p < |responses| && responses[p].contents.Some? && o < |responses[p].contents.value|
    ensures KeyStruct(responses[p].contents.value[o].key, responses[p].contents.value[o].etag) in KeysOf(responses)
  {
    if p == 0 {
      assert PageKeys(responses[0])[o] == KeyStruct(responses[p].contents.value[o].key, responses[p].contents.value[o].etag);
    } else {
      KeysOfContainsEveryPage(responses[1..], p - 1, o);
    }
  }

  /** A response after which the listing loop stops: "Contents" missing (it raises) or no continuation token. */
  predicate StopsListing(response: ListResponse) {
    response.contents.None? || response.nextContinuationToken.None?
  }

  predicate HasStop(responses: seq<ListResponse>) {
    exists i :: 0 <= i < |responses| && StopsListing(responses[i])
  }

  /** The index of the response at which the listing loop stops. */
  function StopIndex(responses: seq<ListResponse>): (n: nat)
    requires HasStop(responses)
    ensures n < |responses| && StopsListing(responses[n])
    ensures forall i :: 0 <= i < n ==> !StopsListing(responses[i])
  {
    if StopsListing(responses[0]) then 0
    else
      assert HasStop(responses[1..]) by {
        var i :| 0 <= i < |responses| && StopsListing(responses[i]);
        assert i > 0 && StopsListing(responses[1..][i - 1]);
      }
      1 + StopIndex(responses[1..])
  }

  /** The `KeyError` raised by `response["Contents"]` when a page carries no objects. */
  const MissingContents := Exception("KeyError", "Contents")

  /** What the listing generator delivers to its consumer, as written. */
  function PagedListing(responses: seq<ListResponse>): Result<seq<KeyStruct>>
    requires HasStop(responses)
  {
    var n := StopIndex(responses);
    if responses[n].contents.None? then Failure(MissingContents) else Success(KeysOf(responses[..n + 1]))
  }

  /** The requests the listing sends: the first without a token, each later one with its predecessor's token. */
  predicate RequestChain(requests: seq<ListRequest>, responses: seq<ListResponse>, bucket: string, prefix: string)
  {
    && |requests| >= 1
    && |requests| <= |responses|
    && requests[0] == ListRequest(bucket, prefix, None)
    && forall i :: 0 < i < |requests| ==> requests[i] == ListRequest(bucket, prefix, responses[i - 1].nextContinuationToken)
  }

  /**
   * `get_prefixed_keys_from_bucket`: calls `list_objects_v2` with the bucket
   * and prefix, yields every object of the response, and repeats with the
   * response's `NextContinuationToken` until a response has none. The i-th
   * call is answered by `responses[i]`.
   */
  method GetPrefixedKeysFromBucket(responses: seq<ListResponse>, bucket: string, prefix: string)
    returns (requests: seq<ListRequest>, keys: Result<seq<KeyStruct>>)
    requires HasStop(responses)
    ensures RequestChain(requests, responses, bucket, prefix)
    ensures |requests| == StopIndex(responses) + 1
    ensures forall i :: 0 < i < |requests| ==> requests[i].continuationToken.Some?
    ensures keys == PagedListing(responses)
  {
    var n := StopIndex(responses);
    var token: Option<string> := None;
    requests := [ListRequest(bucket, prefix, token)];
    var listed: seq<KeyStruct> := [];
    var i := 0;
    while true
      invariant 0 <= i <= n
      invariant |requests| == i + 1
      invariant RequestChain(requests, responses, bucket, prefix)
      invariant forall j :: 0 < j < |requests| ==> requests[j].continuationToken.Some?
      invariant listed == KeysOf(responses[..i])
      decreases n - i
    {
      var response := responses[i];
      if response.contents.None? {
        assert i == n;
        keys := Failure(MissingContents);
        return;
      }
      KeysOfStep(responses, i);
      listed := listed + PageKeys(response);
      if response.nextContinuationToken.None? {
        assert i == n;
        keys := Success(listed);
        return;
      }
      token := response.nextContinuationToken;
      requests := requests + [ListRequest(bucket, prefix, token)];
      i := i + 1;
    }
  }

  /** The test's single page of three keys, with no continuation token, lists those keys in order. */
  lemma PagedListingSinglePage()
    ensures HasStop([ListResponse(Some([ListedObject("blah1", "1halb"), ListedObject("blah2", "2halb"), ListedObject("blah3", "3halb")]), None)])
    ensures PagedListing([ListResponse(Some([ListedObject("blah1", "1halb"), ListedObject("blah2", "2halb"), ListedObject("blah3", "3halb")]), None)])
      == Success([KeyStruct("blah1", "1halb"), KeyStruct("blah2", "2halb"), KeyStruct("blah3", "3halb")])
  {
    var r := ListResponse(Some([ListedObject("blah1", "1halb"), ListedObject("blah2", "2halb"), ListedObject("blah3", "3halb")]), None);
    assert StopsListing([r][0]);
    assert StopIndex([r]) == 0;
    assert [r][..1] == [r] && [r][1..] == [];
    assert KeysOf([r]) == PageKeys(r) + KeysOf([]);
    var pk := PageKeys(r);
    assert |pk| == 3 && pk[0] == KeyStruct("blah1", "1halb") && pk[1] == KeyStruct("blah2", "2halb") && pk[2] == KeyStruct("blah3", "3halb");
    assert pk == [KeyStruct("blah1", "1halb"), KeyStruct("blah2", "2halb"), KeyStruct("blah3", "3halb")];
    assert KeysOf([r][..1]) == pk;
    assert PagedListing([r]) == Success(KeysOf([r][..1]));
  }

  /**
   * A prefix holding no objects: S3 answers without a "Contents" entry and the
   * listing as written raises `KeyError`, so the enumeration of an empty S3
   * location fails instead of yielding the empty set.
   */
  lemma EmptyPrefixListingRaises()
    ensures HasStop([ListResponse(None, None)])
    ensures PagedListing([ListResponse(None, None)]) == Failure(MissingContents)
  {
    assert StopsListing([ListResponse(None, None)][0]);
    assert StopIndex([ListResponse(None, None)]) == 0;
  }

  // ----------------------------------------- paginated listing, corrected

  predicate HasLastPage(responses: seq<ListResponse>) {
    exists i :: 0 <= i < |responses| && responses[i].nextContinuationToken.None?
  }

  /** The index of the first response without a continuation token. */
  function LastPage(responses: seq<ListResponse>): (n: nat)
    requires HasLastPage(responses)
    ensures n < |responses| && responses[n].nextContinuationToken.None?
    ensures forall i :: 0 <= i < n ==> responses[i].nextContinuationToken.Some?
  {
    if responses[0].nextContinuationToken.None? then 0
    else
      assert HasLastPage(responses[1..]) by {
        var i :| 0 <= i < |responses| && responses[i].nextContinuationToken.None?;
        assert i > 0 && responses[1..][i - 1].nextContinuationToken.None?;
      }
      1 + LastPage(responses[1..])
  }

  /** The corrected listing: a page without "Contents" contributes no keys. */
  function TolerantListing(responses: seq<ListResponse>): seq<KeyStruct>
    requires HasLastPage(responses)
  {
    KeysOf(responses[..LastPage(responses) + 1])
  }

  /**
   * The listing with `response.get("Contents", [])`: same requests, and never
   * raises for an empty page.
   */
  method GetPrefixedKeysFromBucketTolerant(responses: seq<ListResponse>, bucket: string, prefix: string)
    returns (requests: seq<ListRequest>, keys: seq<KeyStruct>)
    requires HasLastPage(responses)
    ensures RequestChain(requests, responses, bucket, prefix)
    ensures |requests| == LastPage(responses) + 1
    ensures forall i :: 0 < i < |requests| ==> requests[i].continuationToken.Some?
    ensures keys == TolerantListing(responses)
  {
    var n := LastPage(responses);
    requests := [ListRequest(bucket, prefix, None)];
    keys := [];
    var i := 0;
    while true
      invariant 0 <= i <= n
      invariant |requests| == i + 1
      invariant RequestChain(requests, responses, bucket, prefix)
      invariant forall j :: 0 < j < |requests| ==> requests[j].continuationToken.Some?
      invariant keys == KeysOf(responses[..i])
      decreases n - i
    {
      var response := responses[i];
      KeysOfStep(responses, i);
      keys := keys + PageKeys(response);
      if response.nextContinuationToken.None? {
        assert i == n;
        return;
      }
      requests := requests + [ListRequest(bucket, prefix, response.nextContinuationToken)];
      i := i + 1;
    }
  }

  /** Corrected: an empty prefix lists no keys instead of raising. */
  lemma EmptyPrefixListsNothing()
    ensures HasLastPage([ListResponse(None, None)])
    ensures TolerantListing([ListResponse(None, None)]) == []
  {
    assert [ListResponse(None, None)][0].nextContinuationToken.None?;
    assert LastPage([ListResponse(None, None)]) == 0;
    assert [ListResponse(None, None)][..1] == [ListResponse(None, None)];
  }

  /** Corrected: every object of every page up to the last one is listed. */
  lemma TolerantListingIsComplete(responses: seq<ListResponse>, p: nat, o: nat)
    requires HasLastPage(responses)
    requires p <= LastPage(responses) && responses[p].contents.Some? && o < |responses[p].contents.value|
    ensures KeyStruct(responses[p].contents.value[o].key, responses[p].contents.value[o].etag) in TolerantListing(responses)
  {
    var served := responses[..LastPage(responses) + 1];
    assert served[p] == responses[p];
    KeysOfContainsEveryPage(served, p, o);
  }

  /** When every page carries "Contents", the listing as written and the corrected one agree. */
  lemma ListingsAgreeWhenEveryPageHasContents(responses: seq<ListResponse>)
    requires HasLastPage(responses)
    requires forall i :: 0 <= i < |responses| ==> responses[i].contents.Some?
    ensures HasStop(responses) && PagedListing(responses) == Success(TolerantListing(responses))
  {
    var n := LastPage(responses);
    assert StopsListing(responses[n]);
    assert StopIndex(responses) == n by {
      var m := StopIndex(responses);
      assert responses[m].nextContinuationToken.None?;
    }
  }

  /**
   * `enumerate_s3_files`: the template with the paginated listing plugged in.
   * The listing's `KeyError` for a response without "Contents" escapes, so
   * the enumeration either fails with it or yields the items of every listed
   * key.
   */
  method EnumerateS3Files(responses: seq<ListResponse>, s3Bucket: string, s3Path: string)
    returns (requests: seq<ListRequest>, items: Result<seq<Item>>)
    requires HasStop(responses)
    ensures RequestChain(requests, responses, s3Bucket, s3Path) && |requests| == StopIndex(responses) + 1
    ensures PagedListing(responses).Failure? ==> items == Failure(MissingContents)
    ensures PagedListing(responses).Success? ==> items == Success(S3KeysToItems(PagedListing(responses).value, s3Path))
  {
    var keys;
    requests, keys := GetPrefixedKeysFromBucket(responses, s3Bucket, s3Path);
    if keys.Failure? {
      items := Failure(keys.error);
      return;
    }
    items := Success(S3KeysToItems(keys.value, s3Path));
  }

  /**
   * Corrected: `enumerate_s3_files` over the tolerant listing. It sends the
   * same requests and never fails.
   */
  method EnumerateS3FilesTolerant(responses: seq<ListResponse>, s3Bucket: string, s3Path: string)
    returns (requests: seq<ListRequest>, items: seq<Item>)
    requires HasLastPage(responses)
    ensures RequestChain(requests, responses, s3Bucket, s3Path) && |requests| == LastPage(responses) + 1
    ensures items == S3KeysToItems(TolerantListing(responses), s3Path)
  {
    var keys;
    requests, keys := GetPrefixedKeysFromBucketTolerant(responses, s3Bucket, s3Path);
    items := S3KeysToItems(keys, s3Path);
  }

  // ------------------------------------------------------ joining the two

  /**
   * `get_file_sets` after both enumerations have finished, given what each
   * enumeration thread left behind (its set, or the exception it captured):
   * a local failure is
   * raised first, then an S3 failure, otherwise both sets are returned.
   */
  function GetFileSets(local: Result<set<Item>>, s3: Result<set<Item>>): (r: Result<(set<Item>, set<Item>)>)
    ensures local.Failure? ==> r == Failure(local.error)
    ensures local.Success? && s3.Failure? ==> r == Failure(s3.error)
    ensures r.Success? <==> local.Success? && s3.Success?
    ensures r.Success? ==> r.value.0 == local.value && r.value.1 == s3.value
  {
    if local.Failure? then Failure(local.error)
    else if s3.Failure? then Failure(s3.error)
    else Success((local.value, s3.value))
  }

}
