/**
 * Where downloaded objects go: each S3 key is written under the output directory at
 * the key's own path, after creating the key's directory part there.
 */
module S3Download {
  import opened Wrappers
  import opened Text
  import opened Maps

  predicate EndsWithSlash(s: string)
  {
    |s| > 0 && s[|s| - 1] == '/'
  }

  /** Removes every '/' at the end. */
  function TrimTrailingSlashes(s: string): (r: string)
    ensures r <= s && !EndsWithSlash(r)
    ensures forall k :: |r| <= k < |s| ==> s[k] == '/'
    decreases |s|
  {
    if EndsWithSlash(s) then TrimTrailingSlashes(s[..|s| - 1]) else s
  }

  /**
   * `get_dirpath`: a key ending in '/' names a directory and is refused. Otherwise the
   * parent path is everything before the last '/', less any '/' it ends with; there is
   * no directory part when that is empty, which is also the case when the parent is the
   * root.
   */
  function GetDirpath(key: string): Result<Option<string>, string>
  {
    if EndsWithSlash(key) then Failure("the object path looks like a dir: " + key)
    else if '/' !in key then Success(None)
    else
      var parent := TrimTrailingSlashes(key[..LastIndexOf(key, '/')]);
      if parent == [] then Success(None) else Success(Some(parent))
  }

  /**
   * A directory part is a non-empty prefix of the key, not ending in '/', followed in
   * the key by one or more '/' and then a last name that is not empty and holds no '/'.
   */
  lemma DirpathShape(key: string)
    requires GetDirpath(key).Success? && GetDirpath(key).value.Some?
    ensures var d := GetDirpath(key).value.value;
      && d != [] && !EndsWithSlash(d) && d <= key
      && exists i :: |d| <= i < |key| - 1 && key[i] == '/'
           && (forall k :: |d| <= k <= i ==> key[k] == '/')
           && '/' !in key[i + 1..]
  {
    var i := LastIndexOf(key, '/');
    var pre := key[..i];
    var d := TrimTrailingSlashes(pre);
    assert d == key[..|d|] by {
      assert d == pre[..|d|];
    }
    assert i != |key| - 1;
    assert forall k :: |d| <= k < i ==> key[k] == pre[k];
    assert |d| <= i < |key| - 1 && key[i] == '/'
      && (forall k :: |d| <= k <= i ==> key[k] == '/')
      && '/' !in key[i + 1..];
  }

  /** A key without a directory part, or whose parent is the root, has no directory to create. */
  lemma NoDirpath(key: string)
    requires key != [] && !EndsWithSlash(key)
    requires '/' !in key || (key[0] == '/' && '/' !in key[1..])
    ensures GetDirpath(key) == Success(None)
  {
    if '/' in key {
      assert key == [] + ['/'] + key[1..];
      LastIndexOfBeforeSuffix([], '/', key[1..]);
    }
  }

  /** A key's path parts joined by '/' has as directory part all the parts but the last. */
  lemma NestedDirpath(dirParts: seq<string>, name: string)
    requires dirParts != []
    requires forall k :: 0 <= k < |dirParts| ==> dirParts[k] != [] && '/' !in dirParts[k]
    requires name != [] && '/' !in name
    ensures GetDirpath(Join(dirParts + [name], "/")) == Success(Some(Join(dirParts, "/")))
  {
    JoinSnoc(dirParts, name, "/");
    JoinEndsWithPart(dirParts);
    DirpathOfSplitKey(Join(dirParts, "/"), name);
  }

  lemma DirpathOfSplitKey(d: string, name: string)
    requires d != [] && !EndsWithSlash(d)
    requires name != [] && '/' !in name
    ensures GetDirpath(d + "/" + name) == Success(Some(d))
  {
    var key := d + "/" + name;
    assert key == d + ['/'] + name;
    assert !EndsWithSlash(key) by {
      assert key[|key| - 1] == name[|name| - 1];
      assert name[|name| - 1] in name;
    }
    LastIndexOfBeforeSuffix(d, '/', name);
    assert key[..|d|] == d;
  }

  lemma {:induction false} JoinSnoc(parts: seq<string>, x: string, sep: string)
    requires parts != []
    ensures Join(parts + [x], sep) == Join(parts, sep) + sep + x
    decreases |parts|
  {
    if |parts| == 1 {
      assert (parts + [x])[1..] == [x];
    } else {
      assert (parts + [x])[1..] == parts[1..] + [x];
      JoinSnoc(parts[1..], x, sep);
    }
  }

  /** Parts that are not empty and hold no '/' join to a text neither empty nor ending in '/'. */
  lemma {:induction false} JoinEndsWithPart(parts: seq<string>)
    requires parts != []
    requires forall k :: 0 <= k < |parts| ==> parts[k] != [] && '/' !in parts[k]
    ensures Join(parts, "/") != [] && !EndsWithSlash(Join(parts, "/"))
    decreases |parts|
  {
    var last := parts[|parts| - 1];
    assert last[|last| - 1] in last;
    if |parts| > 1 {
      JoinEndsWithPart(parts[1..]);
    }
  }

  lemma DirpathExamples()
    ensures GetDirpath("x/y/z.parquet") == Success(Some("x/y"))
    ensures GetDirpath("a.parquet") == Success(None)
    ensures GetDirpath("/a.parquet") == Success(None)
    ensures GetDirpath("x/y/").Failure?
  {
    assert ["x", "y", "z.parquet"] == ["x", "y"] + ["z.parquet"];
    assert Join(["x", "y", "z.parquet"], "/") == "x/y/z.parquet" by {
      assert ["x", "y", "z.parquet"][1..] == ["y", "z.parquet"];
      assert ["y", "z.parquet"][1..] == ["z.parquet"];
    }
    assert Join(["x", "y"], "/") == "x/y" by {
      assert ["x", "y"][1..] == ["y"];
    }
    NestedDirpath(["x", "y"], "z.parquet");
    NoDirpath("a.parquet");
    NoDirpath("/a.parquet");
  }

  /** Where the object under `key` is written. */
  function LocalFilePath(outputDir: string, key: string): string
  {
    outputDir + "/" + key
  }

  /** The directory created before writing the object, if the key has a directory part. */
  function LocalDirToCreate(outputDir: string, key: string): Result<Option<string>, string>
  {
    match GetDirpath(key)
    case Failure(e) => Failure(e)
    case Success(None) => Success(None)
    case Success(Some(dirpath)) => Success(Some(outputDir + "/" + dirpath))
  }

  /** The directory created for a key holds the file written for it. */
  lemma FileInsideCreatedDir(outputDir: string, key: string)
    requires LocalDirToCreate(outputDir, key).Success? && LocalDirToCreate(outputDir, key).value.Some?
    ensures LocalDirToCreate(outputDir, key).value.value + "/" <= LocalFilePath(outputDir, key)
  {
    DirpathShape(key);
    var d := GetDirpath(key).value.value;
    assert key[|d|] == '/';
    assert key[..|d| + 1] == d + "/";
  }

  /** The (key, local path) pairs the key list gives, in order. */
  function DownloadEntries(keys: seq<string>, outputDir: string): seq<(string, string)>
  {
    if keys == [] then [] else [(keys[0], LocalFilePath(outputDir, keys[0]))] + DownloadEntries(keys[1..], outputDir)
  }

  /** `map_ids_to_downloads`: the key list collected into a map from key to local path. */
  function DownloadMap(keys: seq<string>, outputDir: string): map<string, string>
  {
    InsertAll(map[], DownloadEntries(keys, outputDir))
  }

  lemma {:induction false} DownloadEntriesSpec(keys: seq<string>, outputDir: string)
    ensures |DownloadEntries(keys, outputDir)| == |keys|
    ensures forall i :: 0 <= i < |keys| ==> DownloadEntries(keys, outputDir)[i] == (keys[i], LocalFilePath(outputDir, keys[i]))
    decreases |keys|
  {
    if keys != [] {
      DownloadEntriesSpec(keys[1..], outputDir);
    }
  }

  /**
   * The download map has exactly the given keys, repeats collapsed, and sends each to
   * the path its object is written to.
   */
  lemma DownloadMapSpec(keys: seq<string>, outputDir: string, key: string)
    ensures key in DownloadMap(keys, outputDir) <==> key in keys
    ensures key in keys ==> DownloadMap(keys, outputDir)[key] == LocalFilePath(outputDir, key)
  {
    var es := DownloadEntries(keys, outputDir);
    DownloadEntriesSpec(keys, outputDir);
    InsertAllKeys(map[], es, key);
    if key in DownloadMap(keys, outputDir) {
      var e :| e in es && e.0 == key;
      var i :| 0 <= i < |es| && es[i] == e;
      assert keys[i] == key;
    }
    if key in keys {
      var i :| 0 <= i < |keys| && keys[i] == key;
      assert es[i] in es;
      forall e | e in es && e.0 == key ensures e.1 == LocalFilePath(outputDir, key) {
        var j :| 0 <= j < |es| && es[j] == e;
      }
      InsertAllAgreeing(map[], es, key, LocalFilePath(outputDir, key));
    }
  }
}
