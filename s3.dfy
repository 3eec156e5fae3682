/**
 * The S3 helper (`S3Utils`): the requests it sends to the S3 client, recorded in
 * order, and the checks it makes on the local filesystem before sending them. The
 * filesystem is a tree of named entries; responses and client faults are parameters.
 */
module S3 {
  import opened Wrappers
  import opened Text

  /** A request the S3 client received, with the arguments it was given. */
  datatype S3Call =
    | ListBuckets
    | DeleteObject(bucket: string, key: string)
    | UploadFile(filename: string, bucket: string, key: string)

  /** One element of a `list_buckets` response's `Buckets`. */
  datatype Bucket = Bucket(name: string)

  datatype Kind = File | Directory

  /**
   * The local filesystem as the tree of its entries, each named by its path components
   * from the root; the root itself is the empty path.
   */
  datatype FileSystem = FileSystem(entries: map<seq<string>, Kind>) {

    /**
     * Every component is a non-empty name without `/`, and every entry's enclosing
     * entries are directories.
     */
    ghost predicate WellFormed() {
      forall p :: p in entries ==>
        && (forall k :: 0 <= k < |p| ==> ValidName(p[k]))
        && (forall k :: 0 <= k < |p| ==> p[..k] in entries && entries[p[..k]] == Directory)
    }
  }

  /** A name that can be one path component. */
  predicate ValidName(name: string) {
    name != "" && '/' !in name
  }

  /** A relative path below a directory: at least one component, each a valid name. */
  predicate ValidRelative(rel: seq<string>) {
    |rel| >= 1 && forall k :: 0 <= k < |rel| ==> ValidName(rel[k])
  }

  // ---------------------------------------------------------------------------
  // paths

  /** The components a path string names: its non-empty `/`-separated pieces. */
  function Resolve(path: string): seq<string>
  {
    DropEmpty(Split(path, '/'))
  }

  /**
   * `os.path.exists`: the empty path never exists, and a path ending in `/` exists only
   * when it names a directory (POSIX `stat` fails with ENOTDIR on `file/`).
   */
  predicate Exists(fs: FileSystem, path: string) {
    && path != ""
    && Resolve(path) in fs.entries
    && (path[|path| - 1] == '/' ==> fs.entries[Resolve(path)] == Directory)
  }

  /**
   * A regular file named with a trailing `/` does not exist, while the same path
   * without it does; its directory exists with or without the trailing `/`.
   */
  lemma FileWithTrailingSlash(fs: FileSystem, r: string, f: string)
    requires ValidName(r) && ValidName(f)
    requires fs.entries == map[[] := Directory, [r] := Directory, [r, f] := File]
    ensures Exists(fs, r + "/" + f) && !Exists(fs, r + "/" + f + "/")
    ensures Exists(fs, r + "/") && IsDir(fs, r + "/")
  {
    ResolveOfTwoNames(r, f);
    ResolveOfTwoNamesSlash(r, f);
    ResolveOfNameSlash(r);
  }

  /** `a/b` resolves to `[a, b]`. */
  lemma ResolveOfTwoNames(a: string, b: string)
    requires ValidName(a) && ValidName(b)
    ensures Resolve(a + "/" + b) == [a, b]
  {
    JoinCons([a, b], '/');
    assert [a, b][1..] == [b];
    ResolvePieces([a, b], a + "/" + b);
    DropEmptyNone([a, b]);
  }

  /** `a/b/` resolves to `[a, b]` as well: the trailing empty piece is dropped. */
  lemma ResolveOfTwoNamesSlash(a: string, b: string)
    requires ValidName(a) && ValidName(b)
    ensures Resolve(a + "/" + b + "/") == [a, b]
  {
    var pieces := [a, b, ""];
    JoinCons(pieces, '/');
    assert pieces[1..] == [b, ""];
    JoinCons(pieces[1..], '/');
    assert pieces[1..][1..] == [""];
    assert Join(pieces, '/') == a + "/" + (b + "/" + "");
    assert a + "/" + (b + "/" + "") == a + "/" + b + "/";
    ResolvePieces(pieces, a + "/" + b + "/");
    assert pieces == [a, b] + [""];
    DropEmptyConcat([a, b], [""]);
    DropEmptyNone([a, b]);
  }

  /** `a/` resolves to `[a]`. */
  lemma ResolveOfNameSlash(a: string)
    requires ValidName(a)
    ensures Resolve(a + "/") == [a]
  {
    JoinCons([a, ""], '/');
    assert [a, ""][1..] == [""];
    assert a + "/" + "" == a + "/";
    ResolvePieces([a, ""], a + "/");
  }

  /** A path joined from pieces without `/` resolves to its non-empty pieces. */
  lemma ResolvePieces(pieces: seq<string>, path: string)
    requires |pieces| >= 1
    requires forall k :: 0 <= k < |pieces| ==> '/' !in pieces[k]
    requires path == Join(pieces, '/')
    ensures Resolve(path) == DropEmpty(pieces)
  {
    SplitJoin(pieces, '/');
  }

  /** `os.path.isdir`. */
  predicate IsDir(fs: FileSystem, path: string): (b: bool)
    ensures b ==> Exists(fs, path)
  {
    path != "" && Resolve(path) in fs.entries && fs.entries[Resolve(path)] == Directory
  }

  /** The relative paths of the regular files strictly below the directory `base`. */
  function FilesUnder(fs: FileSystem, base: seq<string>): set<seq<string>>
  {
    set p | p in fs.entries && fs.entries[p] == File && |p| > |base| && p[..|base|] == base :: p[|base|..]
  }

  /** The path `os.walk` gives a file: the walked root joined with the file's relative path. */
  function LocalPath(dir: string, rel: seq<string>): string
  {
    PathJoin(dir, Join(rel, '/'))
  }

  /** `os.path.join(prefix, rel_path).replace("\\", "/")`: the object key of an uploaded file. */
  function ObjectKey(prefix: string, rel: seq<string>): (key: string)
    ensures ValidRelative(rel) ==> key != ""
  {
    var j := Join(rel, '/');
    assert ValidRelative(rel) ==> j != "" by {
      if ValidRelative(rel) {
        JoinStartsWithFirst(rel, '/');
      }
    }
    Replace(PathJoin(prefix, j), '\\', '/')
  }

  /** The upload request `upload_directory` makes for the file at `rel`. */
  function DirectoryUpload(dir: string, bucket: string, prefix: string, rel: seq<string>): S3Call
  {
    UploadFile(LocalPath(dir, rel), bucket, ObjectKey(prefix, rel))
  }

  /** The set of upload requests a directory upload must make: one per file below the root. */
  function DirectoryUploads(fs: FileSystem, dir: string, bucket: string, prefix: string): set<S3Call>
  {
    set rel | rel in FilesUnder(fs, Resolve(dir)) :: DirectoryUpload(dir, bucket, prefix, rel)
  }

  /** The joined relative path is non-empty and does not start with `/`. */
  lemma JoinedRelative(rel: seq<string>)
    requires ValidRelative(rel)
    ensures var j := Join(rel, '/'); j != "" && j[0] != '/' && Split(j, '/') == rel
  {
    JoinStartsWithFirst(rel, '/');
    assert Join(rel, '/')[0] == rel[0][0];
    SplitJoin(rel, '/');
  }

  /** The file `os.walk` reaches at `rel` below `dir` resolves to `dir`'s components, then `rel`. */
  lemma ResolveLocalPath(dir: string, rel: seq<string>)
    requires ValidRelative(rel)
    ensures Resolve(LocalPath(dir, rel)) == Resolve(dir) + rel
  {
    if dir == [] {
      ResolveBelowRoot(rel);
    } else if dir[|dir| - 1] == '/' {
      ResolveBelowSlash(dir, rel);
    } else {
      ResolveBelowName(dir, rel);
    }
  }

  /** Below the empty root, the local path is the joined relative path itself. */
  lemma ResolveBelowRoot(rel: seq<string>)
    requires ValidRelative(rel)
    ensures Resolve(LocalPath("", rel)) == Resolve("") + rel
  {
    JoinedRelative(rel);
    DropEmptyNone(rel);
    assert Split("", '/') == [""];
  }

  /** `os.path.join` of a root ending in `/`: no separator is added. */
  lemma ResolveBelowSlash(dir: string, rel: seq<string>)
    requires ValidRelative(rel)
    requires dir != "" && dir[|dir| - 1] == '/'
    ensures Resolve(LocalPath(dir, rel)) == Resolve(dir) + rel
  {
    var front := dir[..|dir| - 1];
    assert front + "/" == dir;
    var j := Join(rel, '/');
    JoinedRelative(rel);
    DropEmptyNone(rel);
    assert PathJoin(dir, j) == front + ['/'] + j;
    ResolveTrailingSlash(front);
    SplitConcat(front, j, '/');
    DropEmptyConcat(Split(front, '/'), rel);
  }

  /** A trailing `/` names the same components as the path without it. */
  lemma ResolveTrailingSlash(front: string)
    ensures Resolve(front + "/") == DropEmpty(Split(front, '/'))
  {
    assert front + "/" == front + ['/'] + "";
    SplitConcat(front, "", '/');
    DropEmptyConcat(Split(front, '/'), [""]);
  }

  /** `os.path.join` of a root not ending in `/`: one separator is added. */
  lemma ResolveBelowName(dir: string, rel: seq<string>)
    requires ValidRelative(rel)
    requires dir != "" && dir[|dir| - 1] != '/'
    ensures Resolve(LocalPath(dir, rel)) == Resolve(dir) + rel
  {
    var j := Join(rel, '/');
    JoinedRelative(rel);
    DropEmptyNone(rel);
    assert PathJoin(dir, j) == dir + ['/'] + j;
    SplitConcat(dir, j, '/');
    DropEmptyConcat(Split(dir, '/'), rel);
  }

  /** Different files below one root are reached at different local paths. */
  lemma LocalPathInjective(dir: string, r1: seq<string>, r2: seq<string>)
    requires ValidRelative(r1) && ValidRelative(r2)
    requires LocalPath(dir, r1) == LocalPath(dir, r2)
    ensures r1 == r2
  {
    ResolveLocalPath(dir, r1);
    ResolveLocalPath(dir, r2);
    var base := Resolve(dir);
    assert (base + r1)[|base|..] == r1;
    assert (base + r2)[|base|..] == r2;
  }

  /** With an empty prefix, a key is just the relative path joined with `/`. */
  lemma ObjectKeyWithoutPrefix(rel: seq<string>)
    requires forall k :: 0 <= k < |rel| ==> '\\' !in rel[k]
    ensures ObjectKey("", rel) == Join(rel, '/')
  {
    JoinAvoids(rel, '/', '\\');
    ReplaceAbsent(Join(rel, '/'), '\\', '/');
  }

  /** A prefix not ending in `/` is separated from the relative path by one `/`. */
  lemma ObjectKeyUnderPrefix(prefix: string, rel: seq<string>)
    requires ValidRelative(rel)
    requires forall k :: 0 <= k < |rel| ==> '\\' !in rel[k]
    ensures var lead := if prefix == "" || prefix[|prefix| - 1] == '/' then prefix else prefix + "/";
      ObjectKey(prefix, rel) == Replace(lead, '\\', '/') + Join(rel, '/')
  {
    var j := Join(rel, '/');
    JoinedRelative(rel);
    var lead := if prefix == "" || prefix[|prefix| - 1] == '/' then prefix else prefix + "/";
    assert PathJoin(prefix, j) == lead + j;
    ReplaceConcat(lead, j, '\\', '/');
    JoinAvoids(rel, '/', '\\');
    ReplaceAbsent(j, '\\', '/');
  }

  /** Under one prefix, files whose names hold no `\` get different keys. */
  lemma ObjectKeysDistinct(prefix: string, r1: seq<string>, r2: seq<string>)
    requires ValidRelative(r1) && ValidRelative(r2)
    requires forall k :: 0 <= k < |r1| ==> '\\' !in r1[k]
    requires forall k :: 0 <= k < |r2| ==> '\\' !in r2[k]
    requires r1 != r2
    ensures ObjectKey(prefix, r1) != ObjectKey(prefix, r2)
  {
    ObjectKeyUnderPrefix(prefix, r1);
    ObjectKeyUnderPrefix(prefix, r2);
    JoinedRelative(r1);
    JoinedRelative(r2);
    var lead := if prefix == "" || prefix[|prefix| - 1] == '/' then prefix else prefix + "/";
    var l := Replace(lead, '\\', '/');
    var j1, j2 := Join(r1, '/'), Join(r2, '/');
    if |j1| == |j2| {
      assert j1 != j2;
      assert (l + j1)[|l|..] == j1;
      assert (l + j2)[|l|..] == j2;
    } else {
      assert |l + j1| != |l + j2|;
    }
  }

  /**
   * On a POSIX system `\` is an ordinary character in a name, so the replacement makes
   * a file named `a\b` at the root and the file `b` in the directory `a` share the key
   * `a/b`.
   */
  lemma BackslashNamesCollide(r1: seq<string>, r2: seq<string>)
    requires r1 == ["a\\b"] && r2 == ["a", "b"]
    ensures ValidRelative(r1) && ValidRelative(r2) && r1 != r2
    ensures ObjectKey("", r1) == ObjectKey("", r2) == "a/b"
  {
    assert Join(r2, '/') == "a/b";
    assert Replace("a\\b", '\\', '/') == "a/b";
    assert Replace("a/b", '\\', '/') == "a/b";
  }

  /** The documented example: `a.txt` under the prefix `p` is stored as `p/a.txt`. */
  lemma KeyOfTopLevelFile(rel: seq<string>, prefix: string)
    requires rel == ["a.txt"] && prefix == "p"
    ensures ObjectKey(prefix, rel) == "p/a.txt"
  {
    ObjectKeyUnderPrefix(prefix, rel);
    assert Replace("p/", '\\', '/') == "p/";
  }

  /** The documented example: `sub/b.txt` under the prefix `p` is stored as `p/sub/b.txt`. */
  lemma KeyOfNestedFile(rel: seq<string>, prefix: string)
    requires rel == ["sub", "b.txt"] && prefix == "p"
    ensures ObjectKey(prefix, rel) == "p/sub/b.txt"
    ensures ObjectKey("", rel) == "sub/b.txt"
  {
    KeyOfTwoComponents(prefix, rel[0], rel[1]);
    assert rel == [rel[0], rel[1]];
    NestedKeySpelling();
  }

  /** The two keys of the example, spelled out. */
  lemma NestedKeySpelling()
    ensures "p" + "/" + "sub" + "/" + "b.txt" == "p/sub/b.txt"
    ensures "sub" + "/" + "b.txt" == "sub/b.txt"
  {
  }

  /** A file two levels down is keyed by the prefix, a `/`, and its two names separated by `/`. */
  lemma KeyOfTwoComponents(prefix: string, a: string, b: string)
    requires ValidName(a) && ValidName(b) && '\\' !in a && '\\' !in b
    requires prefix != "" && prefix[|prefix| - 1] != '/' && '\\' !in prefix
    ensures ObjectKey(prefix, [a, b]) == prefix + "/" + a + "/" + b
    ensures ObjectKey("", [a, b]) == a + "/" + b
  {
    var j := a + "/" + b;
    assert Join([a, b], '/') == j by {
      assert [a, b][1..] == [b];
    }
    assert '\\' !in j;
    assert ObjectKey("", [a, b]) == j by {
      ReplaceAbsent(j, '\\', '/');
    }
    var whole := prefix + "/" + j;
    assert PathJoin(prefix, j) == whole by {
      assert j[0] == a[0];
    }
    assert '\\' !in whole;
    assert ObjectKey(prefix, [a, b]) == whole by {
      ReplaceAbsent(whole, '\\', '/');
    }
    assert whole == prefix + "/" + a + "/" + b by {
      ConcatAssociates(prefix + "/", a + "/", b);
      ConcatAssociates(prefix + "/", a, "/");
    }
  }

  // ---------------------------------------------------------------------------
  // console link and bucket names

  const BucketConsolePrefix := "https://s3.console.aws.amazon.com/s3/buckets/"

  /**
   * The page `open_bucket_in_console` opens for the client's region, or `None` when no
   * bucket was given (nothing is opened).
   */
  function BucketConsoleUrl(region: string, bucket: string): (url: Option<string>)
    ensures url.None? <==> bucket == ""
  {
    if bucket == "" then None
    else Some(BucketConsolePrefix + bucket + "?region=" + region + "&tab=objects")
  }

  /** The bucket `test-bucket` in us-east-1 opens its object listing; no bucket opens nothing. */
  lemma BucketConsoleUrlExample()
    ensures BucketConsoleUrl("us-east-1", "test-bucket")
         == Some("https://s3.console.aws.amazon.com/s3/buckets/" + "test-bucket" + "?region=" + "us-east-1"
                 + "&tab=objects")
    ensures BucketConsoleUrl("us-east-1", "") == None
  {
  }

  /** In one region, the link names its bucket: different buckets open different pages. */
  lemma BucketConsoleUrlNamesBucket(region: string, b1: string, b2: string)
    requires b1 != "" && b2 != ""
    requires BucketConsoleUrl(region, b1) == BucketConsoleUrl(region, b2)
    ensures b1 == b2
  {
    var u1 := BucketConsolePrefix + b1 + "?region=" + region + "&tab=objects";
    var u2 := BucketConsolePrefix + b2 + "?region=" + region + "&tab=objects";
    assert BucketConsoleUrl(region, b1) == Some(u1);
    assert BucketConsoleUrl(region, b2) == Some(u2);
    assert u1 == u2;
    assert |b1| == |b2|;
    assert u1[|BucketConsolePrefix|..|BucketConsolePrefix| + |b1|] == b1;
    assert u2[|BucketConsolePrefix|..|BucketConsolePrefix| + |b2|] == b2;
  }

  /** For one bucket, the link names the region: different regions open different pages. */
  lemma BucketConsoleUrlNamesRegion(bucket: string, r1: string, r2: string)
    requires bucket != ""
    requires BucketConsoleUrl(r1, bucket) == BucketConsoleUrl(r2, bucket)
    ensures r1 == r2
  {
    var head := BucketConsolePrefix + bucket + "?region=";
    var u1 := head + r1 + "&tab=objects";
    var u2 := head + r2 + "&tab=objects";
    assert BucketConsoleUrl(r1, bucket) == Some(u1);
    assert BucketConsoleUrl(r2, bucket) == Some(u2);
    assert u1 == u2;
    assert |r1| == |r2|;
    assert u1[|head|..|head| + |r1|] == r1;
    assert u2[|head|..|head| + |r2|] == r2;
  }

  /** `[b["Name"] for b in resp.get("Buckets", [])]`. */
  function BucketNames(buckets: seq<Bucket>): (names: seq<string>)
    ensures |names| == |buckets|
    ensures forall k :: 0 <= k < |buckets| ==> names[k] == buckets[k].name
  {
    seq(|buckets|, k requires 0 <= k < |buckets| => buckets[k].name)
  }

  /** The key `upload_file` uses: the given one when non-empty, else the path's base name. */
  function KeyFor(path: string, key: Option<string>): string
  {
    if key.Some? && key.value != "" then key.value else LastSegment(path, '/')
  }

  /** Without a key, a file at `dir/name` is stored under `name`. */
  lemma KeyForDefaultsToBaseName(dir: string, name: string)
    requires '/' !in name
    ensures KeyFor(dir + "/" + name, None) == name
    ensures KeyFor(dir + "/" + name, Some("")) == name
  {
    LastSegmentAfterSeparator(dir, name, '/');
  }

  // ---------------------------------------------------------------------------
  // the helper object

  /** `S3Utils`, with its client's region and the requests the client has received. */
  class S3Utils {
    const region: string
    var calls: seq<S3Call>

    constructor (region: string)
      ensures this.region == region && calls == []
    {
      this.region := region;
      calls := [];
    }

    /** `list_buckets`: one request; the bucket names in response order, `[]` when absent. */
    method ListBuckets(response: Option<seq<Bucket>>) returns (names: seq<string>)
      modifies this
      ensures calls == old(calls) + [S3Call.ListBuckets]
      ensures response.Some? ==> names == BucketNames(response.value)
      ensures response.None? ==> names == []
    {
      calls := calls + [S3Call.ListBuckets];
      names := BucketNames(response.GetOr([]));
    }

    /** `open_bucket_in_console`: the page opened, if any; no request is sent. */
    method OpenBucketInConsole(bucket: string) returns (url: Option<string>)
      ensures url == BucketConsoleUrl(region, bucket)
    {
      if bucket == "" {
        url := None;
        return;
      }
      url := Some(BucketConsolePrefix + bucket + "?region=" + region + "&tab=objects");
    }

    /**
     * `delete_object`: an empty bucket or key is refused before any request; otherwise
     * one delete request, and the client's fault, if any, is raised unchanged.
     */
    method DeleteObject(bucket: string, key: string, fault: Option<Error>) returns (r: Status)
      modifies this
      ensures bucket == "" || key == "" ==>
        r == Failure(ValueError("Bucket and key are required")) && calls == old(calls)
      ensures bucket != "" && key != "" ==>
        && calls == old(calls) + [S3Call.DeleteObject(bucket, key)]
        && (fault.Some? ==> r == Failure(fault.value))
        && (fault.None? ==> r == Success)
    {
      if bucket == "" || key == "" {
        r := Failure(ValueError("Bucket and key are required"));
        return;
      }
      calls := calls + [S3Call.DeleteObject(bucket, key)];
      match fault
      case Some(e) => r := Failure(e);
      case None => r := Success;
    }

    /**
     * `upload_file`: a path that does not exist is refused before any request;
     * otherwise one upload of the path under the given key or the path's base name.
     */
    method UploadFile(fs: FileSystem, filePath: string, bucket: string, key: Option<string>) returns (r: Status)
      modifies this
      ensures !Exists(fs, filePath) ==>
        r == Failure(FileNotFoundError("File not found: " + filePath)) && calls == old(calls)
      ensures Exists(fs, filePath) ==>
        r == Success && calls == old(calls) + [S3Call.UploadFile(filePath, bucket, KeyFor(filePath, key))]
    {
      if !Exists(fs, filePath) {
        r := Failure(FileNotFoundError("File not found: " + filePath));
        return;
      }
      var k := if key.Some? && key.value != "" then key.value else LastSegment(filePath, '/');
      calls := calls + [S3Call.UploadFile(filePath, bucket, k)];
      r := Success;
    }

    /**
     * `upload_directory`: a root that is not a directory is refused before any request;
     * otherwise every regular file below the root is uploaded exactly once, under the
     * prefix joined with its relative path, in whatever order the walk visits them.
     */
    method UploadDirectory(fs: FileSystem, dirPath: string, bucket: string, prefix: string) returns (r: Status)
      requires fs.WellFormed()
      modifies this
      ensures !IsDir(fs, dirPath) ==>
        r == Failure(NotADirectoryError("Directory not found: " + dirPath)) && calls == old(calls)
      ensures IsDir(fs, dirPath) ==>
        && r == Success
        && |calls| >= |old(calls)|
        && calls[..|old(calls)|] == old(calls)
        && var sent := calls[|old(calls)|..];
          && (forall k :: 0 <= k < |sent| ==> sent[k] in DirectoryUploads(fs, dirPath, bucket, prefix))
          && (forall u :: u in DirectoryUploads(fs, dirPath, bucket, prefix) ==> u in sent)
          && (forall j, k :: 0 <= j < k < |sent| ==> sent[j] != sent[k])
    {
      if !IsDir(fs, dirPath) {
        r := Failure(NotADirectoryError("Directory not found: " + dirPath));
        return;
      }
      ghost var order := UploadEachFile(fs, dirPath, bucket, prefix);
      EveryFileUploadedOnce(fs, dirPath, bucket, prefix, order, old(calls), calls);
      r := Success;
    }

    /**
     * The walk of `upload_directory`: one `upload_file` per file below the root, in an
     * unspecified order, each of which finds its file.
     */
    method UploadEachFile(fs: FileSystem, dirPath: string, bucket: string, prefix: string)
      returns (ghost order: seq<seq<string>>)
      requires fs.WellFormed()
      modifies this
      ensures calls == old(calls) + UploadSequence(dirPath, bucket, prefix, order)
      ensures forall k :: 0 <= k < |order| ==> order[k] in FilesUnder(fs, Resolve(dirPath))
      ensures forall rel :: rel in FilesUnder(fs, Resolve(dirPath)) ==> rel in order
      ensures forall j, k :: 0 <= j < k < |order| ==> order[j] != order[k]
    {
      var files := FilesUnder(fs, Resolve(dirPath));
      var pending := files;
      order := [];
      while pending != {}
        invariant pending <= files
        invariant calls == old(calls) + UploadSequence(dirPath, bucket, prefix, order)
        invariant forall k :: 0 <= k < |order| ==> order[k] in files && order[k] !in pending
        invariant forall rel :: rel in files ==> rel in pending || rel in order
        invariant forall j, k :: 0 <= j < k < |order| ==> order[j] != order[k]
        decreases |pending|
      {
        var rel :| rel in pending;
        UploadReachesFile(fs, dirPath, bucket, prefix, rel);
        ghost var sent := UploadSequence(dirPath, bucket, prefix, order);
        var st := UploadFile(fs, LocalPath(dirPath, rel), bucket, Some(ObjectKey(prefix, rel)));
        assert calls == old(calls) + UploadSequence(dirPath, bucket, prefix, order + [rel]) by {
          UploadSequenceAppend(dirPath, bucket, prefix, order, rel);
          ConcatAssociates(old(calls), sent, [DirectoryUpload(dirPath, bucket, prefix, rel)]);
        }
        VisitStep(files, pending, order, rel);
        order := order + [rel];
        pending := pending - {rel};
      }
    }
  }

  /** The upload requests for the files in `order`, in that order. */
  function UploadSequence(dir: string, bucket: string, prefix: string, order: seq<seq<string>>): seq<S3Call>
  {
    seq(|order|, k requires 0 <= k < |order| => DirectoryUpload(dir, bucket, prefix, order[k]))
  }

  lemma UploadSequenceAppend(dir: string, bucket: string, prefix: string, order: seq<seq<string>>, rel: seq<string>)
    ensures UploadSequence(dir, bucket, prefix, order + [rel])
         == UploadSequence(dir, bucket, prefix, order) + [DirectoryUpload(dir, bucket, prefix, rel)]
  {
  }

  /** Moving one pending file to the end of the visit order keeps the walk's bookkeeping. */
  lemma VisitStep<T>(files: set<T>, pending: set<T>, order: seq<T>, x: T)
    requires x in pending && pending <= files
    requires forall k :: 0 <= k < |order| ==> order[k] in files && order[k] !in pending
    requires forall y :: y in files ==> y in pending || y in order
    requires forall j, k :: 0 <= j < k < |order| ==> order[j] != order[k]
    ensures var order', pending' := order + [x], pending - {x};
      && pending' <= files
      && (forall k :: 0 <= k < |order'| ==> order'[k] in files && order'[k] !in pending')
      && (forall y :: y in files ==> y in pending' || y in order')
      && (forall j, k :: 0 <= j < k < |order'| ==> order'[j] != order'[k])
  {
  }

  /**
   * A file found below the root exists at the path the walk builds for it, and its
   * key is non-empty, so `upload_file` keeps that key.
   */
  lemma UploadReachesFile(fs: FileSystem, dir: string, bucket: string, prefix: string, rel: seq<string>)
    requires fs.WellFormed()
    requires rel in FilesUnder(fs, Resolve(dir))
    ensures Exists(fs, LocalPath(dir, rel))
    ensures var path := LocalPath(dir, rel);
      S3Call.UploadFile(path, bucket, KeyFor(path, Some(ObjectKey(prefix, rel)))) == DirectoryUpload(dir, bucket, prefix, rel)
  {
    FileBelowRoot(fs, Resolve(dir), rel);
    ResolveLocalPath(dir, rel);
    JoinedRelative(rel);
    LocalPathEndsWithName(dir, rel);
  }

  /** The path the walk builds for a file ends with the file's name, so not with `/`. */
  lemma LocalPathEndsWithName(dir: string, rel: seq<string>)
    requires ValidRelative(rel)
    ensures var path := LocalPath(dir, rel); path != "" && path[|path| - 1] != '/'
  {
    var j := Join(rel, '/');
    var last := rel[|rel| - 1];
    assert ValidName(last);
    JoinedRelative(rel);
    JoinEndsWithLast(rel, '/');
    assert j[|j| - 1] == last[|last| - 1] by {
      assert j[|j| - |last|..][|last| - 1] == last[|last| - 1];
    }
    var path := PathJoin(dir, j);
    assert path[|path| - |j|..] == j;
    assert path[|path| - 1] == j[|j| - 1] by {
      assert path[|path| - |j|..][|j| - 1] == j[|j| - 1];
    }
  }

  /**
   * Visiting each file below the root once, in any order, sends exactly the required
   * uploads, each once.
   */
  lemma EveryFileUploadedOnce(fs: FileSystem, dir: string, bucket: string, prefix: string, order: seq<seq<string>>,
                              before: seq<S3Call>, after: seq<S3Call>)
    requires fs.WellFormed()
    requires after == before + UploadSequence(dir, bucket, prefix, order)
    requires forall k :: 0 <= k < |order| ==> order[k] in FilesUnder(fs, Resolve(dir))
    requires forall rel :: rel in FilesUnder(fs, Resolve(dir)) ==> rel in order
    requires forall j, k :: 0 <= j < k < |order| ==> order[j] != order[k]
    ensures |after| >= |before| && after[..|before|] == before
    ensures var sent := after[|before|..];
      && (forall k :: 0 <= k < |sent| ==> sent[k] in DirectoryUploads(fs, dir, bucket, prefix))
      && (forall u :: u in DirectoryUploads(fs, dir, bucket, prefix) ==> u in sent)
      && (forall j, k :: 0 <= j < k < |sent| ==> sent[j] != sent[k])
  {
    var sent := UploadSequence(dir, bucket, prefix, order);
    SplitAppend(before, sent, after);
    UploadSequenceCovers(fs, dir, bucket, prefix, order);
    UploadsAreDistinct(fs, dir, bucket, prefix, order, sent);
  }

  /** The uploads for a visit order that lists exactly the files below the root are the required ones. */
  lemma UploadSequenceCovers(fs: FileSystem, dir: string, bucket: string, prefix: string, order: seq<seq<string>>)
    requires forall k :: 0 <= k < |order| ==> order[k] in FilesUnder(fs, Resolve(dir))
    requires forall rel :: rel in FilesUnder(fs, Resolve(dir)) ==> rel in order
    ensures var sent := UploadSequence(dir, bucket, prefix, order);
      && (forall k :: 0 <= k < |sent| ==> sent[k] in DirectoryUploads(fs, dir, bucket, prefix))
      && (forall u :: u in DirectoryUploads(fs, dir, bucket, prefix) ==> u in sent)
  {
    var sent := UploadSequence(dir, bucket, prefix, order);
    forall u | u in DirectoryUploads(fs, dir, bucket, prefix) ensures u in sent {
      var rel :| rel in FilesUnder(fs, Resolve(dir)) && u == DirectoryUpload(dir, bucket, prefix, rel);
      var k :| 0 <= k < |order| && order[k] == rel;
      assert sent[k] == u;
    }
  }

  /** A file found below a directory is valid relative to it, and its full path is an entry. */
  lemma FileBelowRoot(fs: FileSystem, base: seq<string>, rel: seq<string>)
    requires fs.WellFormed()
    requires rel in FilesUnder(fs, base)
    ensures ValidRelative(rel) && base + rel in fs.entries
  {
    var p :| p in fs.entries && fs.entries[p] == File && |p| > |base| && p[..|base|] == base && rel == p[|base|..];
    assert base + rel == p;
    forall k | 0 <= k < |rel| ensures ValidName(rel[k]) {
      assert rel[k] == p[|base| + k];
    }
  }

  /** Requests made for distinct files below one root are distinct requests. */
  lemma UploadsAreDistinct(fs: FileSystem, dir: string, bucket: string, prefix: string,
                           order: seq<seq<string>>, sent: seq<S3Call>)
    requires fs.WellFormed()
    requires |sent| == |order|
    requires forall k :: 0 <= k < |order| ==>
      order[k] in FilesUnder(fs, Resolve(dir)) && sent[k] == DirectoryUpload(dir, bucket, prefix, order[k])
    requires forall j, k :: 0 <= j < k < |order| ==> order[j] != order[k]
    ensures forall j, k :: 0 <= j < k < |sent| ==> sent[j] != sent[k]
  {
    forall j, k | 0 <= j < k < |sent| ensures sent[j] != sent[k] {
      FileBelowRoot(fs, Resolve(dir), order[j]);
      FileBelowRoot(fs, Resolve(dir), order[k]);
      if LocalPath(dir, order[j]) == LocalPath(dir, order[k]) {
        LocalPathInjective(dir, order[j], order[k]);
      }
    }
  }

  // ---------------------------------------------------------------------------
  // the documented example: `a.txt` and `sub/b.txt` below the root `R`

  /** The two files below `R` are `a.txt` and `sub/b.txt`. */
  lemma FilesOfExampleTree(fs: FileSystem, dir: string)
    requires dir == "R"
    requires fs.entries == map[[] := Directory, ["R"] := Directory, ["R", "a.txt"] := File,
                               ["R", "sub"] := Directory, ["R", "sub", "b.txt"] := File]
    ensures FilesUnder(fs, Resolve(dir)) == {["a.txt"], ["sub", "b.txt"]}
  {
    assert Resolve(dir) == ["R"] by {
      assert Split(dir, '/') == ["R"];
    }
    FilesOfTwoLevels(fs, "R", "a.txt", "sub", "b.txt");
  }

  /** Below `r` holding the file `x` and the directory `y` with the file `z`, the files are `x` and `y/z`. */
  lemma FilesOfTwoLevels(fs: FileSystem, r: string, x: string, y: string, z: string)
    requires x != y
    requires fs.entries == map[[] := Directory, [r] := Directory, [r, x] := File,
                               [r, y] := Directory, [r, y, z] := File]
    ensures FilesUnder(fs, [r]) == {[x], [y, z]}
  {
    var base := [r];
    var p1 := [r, x];
    var p2 := [r, y, z];
    assert p1[1..] == [x] && p1[..1] == base;
    assert p2[1..] == [y, z] && p2[..1] == base;
  }

  lemma PathOfTopLevelFile(dir: string, rel: seq<string>)
    requires dir == "R" && rel == ["a.txt"]
    ensures LocalPath(dir, rel) == "R/a.txt"
  {
    assert Join(rel, '/') == "a.txt";
  }

  lemma PathOfNestedFile(dir: string, rel: seq<string>)
    requires dir == "R" && rel == ["sub", "b.txt"]
    ensures LocalPath(dir, rel) == "R/sub/b.txt"
  {
    assert Join(rel, '/') == "sub/b.txt";
  }

  lemma UploadsOfTwoFiles(fs: FileSystem, dir: string, bucket: string, prefix: string, r1: seq<string>, r2: seq<string>)
    requires FilesUnder(fs, Resolve(dir)) == {r1, r2}
    ensures DirectoryUploads(fs, dir, bucket, prefix)
         == {DirectoryUpload(dir, bucket, prefix, r1), DirectoryUpload(dir, bucket, prefix, r2)}
  {
  }

  /**
   * Uploading `R` under the prefix `p` must make exactly two uploads, with the keys
   * `p/a.txt` and `p/sub/b.txt`, in either order.
   */
  lemma DirectoryExampleUploads(fs: FileSystem, dir: string, bucket: string, prefix: string)
    requires dir == "R" && prefix == "p"
    requires fs.entries == map[[] := Directory, ["R"] := Directory, ["R", "a.txt"] := File,
                               ["R", "sub"] := Directory, ["R", "sub", "b.txt"] := File]
    ensures DirectoryUploads(fs, dir, bucket, prefix)
         == {UploadFile("R/a.txt", bucket, "p/a.txt"), UploadFile("R/sub/b.txt", bucket, "p/sub/b.txt")}
  {
    var r1: seq<string> := ["a.txt"];
    var r2: seq<string> := ["sub", "b.txt"];
    FilesOfExampleTree(fs, dir);
    UploadsOfTwoFiles(fs, dir, bucket, prefix, r1, r2);
    KeyOfTopLevelFile(r1, prefix);
    KeyOfNestedFile(r2, prefix);
    PathOfTopLevelFile(dir, r1);
    PathOfNestedFile(dir, r2);
  }
}
