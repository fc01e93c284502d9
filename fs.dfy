/** The local filesystem backend: buckets are directories under `/tmp/s3` and objects are
    files in them. The filesystem is modelled as a map from path to node; paths are built
    by plain joining, without `abspath` normalisation. */
module FsStorage {

  import opened Base
  import opened Text
  import opened Listing
  import opened ListingOrder

  /** `self.directory`. */
  const Root := "/tmp/s3"

  /** A filesystem node: a directory, or a regular file with its contents and times. */
  datatype Node =
    | Dir(created: int)
    | File(data: seq<byte>, modified: int, created: int)

  type Fs = map<string, Node>

  /** `__object_path__(b, o)`: `os.path.join` of the root, the bucket and, when `o` is
      truthy, the object name (`abspath`'s normalisation is not modelled). */
  function ObjectPath(b: string, o: Option<string>): string {
    if Truthy(o) then PathJoin(PathJoin(Root, b), o.value) else PathJoin(Root, b)
  }

  /** A plain bucket name (non-empty, no `/`) is a directory right below the root. */
  lemma BucketPathOfPlainName(b: string)
    requires b != "" && '/' !in b
    ensures ObjectPath(b, None) == Root + "/" + b
  {
    assert b[0] != '/';
  }

  /** For a plain bucket name and relative object names, an object's path lies inside its
      bucket's directory, and distinct object names in one bucket have distinct paths. */
  lemma ObjectPathInBucket(b: string, o: string, o': string)
    requires b != "" && '/' !in b
    requires o != "" && o[0] != '/' && o' != "" && o'[0] != '/'
    ensures ObjectPath(b, Some(o)) == ObjectPath(b, None) + "/" + o
    ensures StartsWith(ObjectPath(b, Some(o)), ObjectPath(b, None) + "/")
    ensures ObjectPath(b, Some(o)) != ObjectPath(b, None)
    ensures ObjectPath(b, Some(o)) == ObjectPath(b, Some(o')) ==> o == o'
  {
    BucketPathOfPlainName(b);
    var d := ObjectPath(b, None) + "/";
    assert ObjectPath(b, None)[|ObjectPath(b, None)| - 1] == b[|b| - 1];
    assert ObjectPath(b, Some(o)) == d + o;
    assert ObjectPath(b, Some(o')) == d + o';
    if ObjectPath(b, Some(o)) == ObjectPath(b, Some(o')) {
      assert o == (d + o)[|d|..];
      assert o' == (d + o')[|d|..];
    }
  }

  /** An object name that starts with `/` leaves the bucket: `os.path.join` discards the
      root and the bucket, so the path is the name itself. */
  lemma AbsoluteObjectNameEscapes(b: string, o: string)
    requires o != "" && o[0] == '/'
    ensures ObjectPath(b, Some(o)) == o
  {
  }

  predicate IsDir(fs: Fs, p: string) {
    p in fs && fs[p].Dir?
  }

  predicate IsFile(fs: Fs, p: string) {
    p in fs && fs[p].File?
  }

  /** The directory a path would be created in: everything before its last `/`. */
  function Parent(p: string): string {
    LastSegmentIsSuffix(p);
    if |LastSegment(p)| < |p| then p[..|p| - |LastSegment(p)| - 1] else ""
  }

  /** `open(p, 'w')` can create or truncate `p`: `p` is not a directory, names something after
      its last `/`, and sits in an existing directory (the root always exists). */
  predicate Writable(fs: Fs, p: string) {
    !IsDir(fs, p) && LastSegment(p) != "" && (Parent(p) == Root || IsDir(fs, Parent(p)))
  }

  /** Something lies below directory `p`. */
  predicate HasChildren(fs: Fs, p: string) {
    exists q :: q in fs && StartsWith(q, p + "/")
  }

  /** `os.stat` as the listing reads it: `st_mtime` and `st_size`. A directory entry records
      only its creation time, which stands in for its `st_mtime`, with size 0. */
  function StatInfo(fs: Fs, p: string): Result<ObjectInfo> {
    if p !in fs then Err(OSError)
    else match fs[p]
         case File(data, modified, _) => Ok(ObjectInfo(modified, |data|))
         case Dir(created) => Ok(ObjectInfo(created, 0))
  }

  function ListingStat(fs: Fs, b: string): string -> Result<ObjectInfo> {
    k => StatInfo(fs, ObjectPath(b, Some(k)))
  }

  /** One entry of `list_buckets`. */
  datatype BucketEntry = BucketEntry(name: string, created: int)

  /** `list_buckets` over `os.listdir(root)` = `names`: one entry per name, in listing order,
      dated by `st_ctime`; a name whose stat fails raises. */
  function BucketList(fs: Fs, names: seq<string>): Result<seq<BucketEntry>>
    decreases |names|
  {
    if names == [] then Ok([])
    else
      var init := BucketList(fs, names[..|names| - 1]);
      var p := ObjectPath(names[|names| - 1], None);
      if init.Err? then init
      else if p !in fs then Err(OSError)
      else Ok(init.value + [BucketEntry(names[|names| - 1], fs[p].created)])
  }

  /** A successful `list_buckets` has exactly one entry per listed name, in order. */
  lemma {:induction false} BucketListOnePerName(fs: Fs, names: seq<string>)
    ensures BucketList(fs, names).Ok? <==> forall j :: 0 <= j < |names| ==> ObjectPath(names[j], None) in fs
    ensures BucketList(fs, names).Ok? ==>
      var es := BucketList(fs, names).value;
      |es| == |names| && forall j :: 0 <= j < |names| ==>
        es[j] == BucketEntry(names[j], fs[ObjectPath(names[j], None)].created)
    decreases |names|
  {
    if names != [] {
      var init := names[..|names| - 1];
      BucketListOnePerName(fs, init);
      assert forall j :: 0 <= j < |init| ==> init[j] == names[j];
    }
  }

  /** Once a prefix of the names fails to list, the whole listing fails the same way. */
  lemma {:induction false} BucketListFails(fs: Fs, names: seq<string>, i: nat)
    requires i <= |names| && BucketList(fs, names[..i]).Err?
    ensures BucketList(fs, names) == BucketList(fs, names[..i])
    decreases |names| - i
  {
    if i < |names| {
      assert names[..i + 1][..i] == names[..i];
      BucketListFails(fs, names, i + 1);
    } else {
      assert names[..i] == names;
    }
  }

  /** `names` is what `os.listdir(root)` gives: every entry directly below the root, in any
      order. */
  ghost predicate RootEntries(fs: Fs, names: seq<string>) {
    forall n :: n in names <==> n != "" && '/' !in n && ObjectPath(n, None) in fs
  }

  /** `keys` is what `os.walk` of bucket `b`'s directory yields as file names: the last
      segment of every regular file anywhere below it, in any order. */
  ghost predicate WalkedFiles(fs: Fs, b: string, keys: seq<string>) {
    forall k :: k in keys <==>
      exists p :: IsFile(fs, p) && StartsWith(p, ObjectPath(b, None) + "/") && LastSegment(p) == k
  }

  /** A regular file lies somewhere below bucket `b`'s directory. */
  ghost predicate HoldsFile(fs: Fs, b: string) {
    exists p :: IsFile(fs, p) && StartsWith(p, ObjectPath(b, None) + "/")
  }

  /** The walk of a bucket yields some name exactly when a regular file lies below it. */
  lemma WalkedFilesNonEmpty(fs: Fs, b: string, keys: seq<string>)
    requires WalkedFiles(fs, b, keys)
    ensures keys != [] <==> HoldsFile(fs, b)
  {
    if HoldsFile(fs, b) {
      var p :| IsFile(fs, p) && StartsWith(p, ObjectPath(b, None) + "/");
      assert LastSegment(p) in keys;
    }
    if keys != [] {
      assert keys[0] in keys;
    }
  }

  /** `os.stat` of `b/name` succeeds for every file name the walk of bucket `b` yields, as it
      does when every file lies directly in the bucket directory. */
  ghost predicate WalkedNamesStat(fs: Fs, b: string) {
    forall p :: IsFile(fs, p) && StartsWith(p, ObjectPath(b, None) + "/") ==>
      ObjectPath(b, Some(LastSegment(p))) in fs
  }

  /** Once `create_bucket(b)` has made the directory of a plain bucket name, a bucket list over
      the root's own entries succeeds and shows `b`, dated by the directory's creation time. */
  lemma CreatedBucketListed(fs: Fs, b: string, names: seq<string>)
    requires b != "" && '/' !in b && IsDir(fs, ObjectPath(b, None))
    requires RootEntries(fs, names)
    ensures BucketList(fs, names).Ok?
    ensures BucketEntry(b, fs[ObjectPath(b, None)].created) in BucketList(fs, names).value
  {
    assert forall j :: 0 <= j < |names| ==> ObjectPath(names[j], None) in fs by {
      forall j | 0 <= j < |names| ensures ObjectPath(names[j], None) in fs {
        assert names[j] in names;
      }
    }
    BucketListOnePerName(fs, names);
    assert b in names;
    var j :| 0 <= j < |names| && names[j] == b;
    assert BucketList(fs, names).value[j] == BucketEntry(b, fs[ObjectPath(b, None)].created);
  }

  /** What `is_object(b, o)` answers in both filesystem backends: `True` when the path is a
      regular file, else `None` (never `False`). */
  function ObjectAnswer(fs: Fs, b: string, o: string): (r: Option<bool>)
    ensures r == Some(true) <==> IsFile(fs, ObjectPath(b, Some(o)))
    ensures r != Some(false)
  {
    if IsFile(fs, ObjectPath(b, Some(o))) then Some(true) else None
  }

  class ObjectStorage {
    var fs: Fs

    /** A storage object over a root directory holding nothing. */
    constructor ()
      ensures fs == map[]
    {
      fs := map[];
    }

    /** `is_bucket(b, o)`: the path is a directory. */
    function IsBucket(b: string, o: Option<string>): (r: bool)
      reads this
      ensures r <==> ObjectPath(b, o) in fs && fs[ObjectPath(b, o)].Dir?
    {
      IsDir(fs, ObjectPath(b, o))
    }

    /** `is_object(b, o)`. */
    function IsObject(b: string, o: string): Option<bool>
      reads this
    {
      ObjectAnswer(fs, b, o)
    }

    /** `list_buckets`, over the names `os.listdir` gives for the root. */
    method ListBuckets(names: seq<string>) returns (r: Result<seq<BucketEntry>>)
      ensures r == BucketList(fs, names)
      ensures r.Ok? ==> |r.value| == |names|
      ensures r.Ok? ==> forall j :: 0 <= j < |names| ==> r.value[j].name == names[j]
      ensures RootEntries(fs, names) ==> r.Ok?
    {
      var buckets: seq<BucketEntry> := [];
      var i := 0;
      while i < |names|
        invariant 0 <= i <= |names|
        invariant BucketList(fs, names[..i]) == Ok(buckets)
      {
        var p := ObjectPath(names[i], None);
        assert names[..i + 1][..i] == names[..i];
        if p !in fs {
          BucketListFails(fs, names, i + 1);
          return Err(OSError);
        }
        buckets := buckets + [BucketEntry(names[i], fs[p].created)];
        i := i + 1;
      }
      assert names[..|names|] == names;
      BucketListOnePerName(fs, names);
      return Ok(buckets);
    }

    /** `create_bucket`: `makedirs` the bucket directory unless it is already a directory;
        `makedirs` over an existing file raises. */
    method CreateBucket(b: string, now: int) returns (r: Result<()>)
      modifies this
      ensures var p := ObjectPath(b, None);
        && (old(IsDir(fs, p)) ==> r == Ok(()) && fs == old(fs))
        && (old(IsFile(fs, p)) ==> r == Err(OSError) && fs == old(fs))
        && (old(p !in fs) ==> r == Ok(()) && fs == old(fs)[p := Dir(now)])
      ensures r.Ok? ==> IsBucket(b, None)
    {
      var p := ObjectPath(b, None);
      if !IsDir(fs, p) {
        if p in fs {
          return Err(OSError);
        }
        fs := fs[p := Dir(now)];
      }
      return Ok(());
    }

    /** `delete_bucket`: `rmdir` the bucket directory if it is one; `rmdir` of a directory
        with anything in it raises. */
    method DeleteBucket(b: string) returns (r: Result<()>)
      modifies this
      ensures var p := ObjectPath(b, None);
        && (!old(IsDir(fs, p)) ==> r == Ok(()) && fs == old(fs))
        && (old(IsDir(fs, p)) && old(HasChildren(fs, p)) ==> r == Err(OSError) && fs == old(fs))
        && (old(IsDir(fs, p)) && !old(HasChildren(fs, p)) ==> r == Ok(()) && fs == old(fs) - {p})
      ensures r.Ok? ==> !IsBucket(b, None)
    {
      var p := ObjectPath(b, None);
      if IsDir(fs, p) {
        if HasChildren(fs, p) {
          return Err(OSError);
        }
        fs := fs - {p};
      }
      return Ok(());
    }

    /** `list_objects` over `keys`, the file names `os.walk` yields for the bucket; entries of a
        non-terse listing are described by `os.stat`. */
    method ListObjects(b: string, keys: seq<string>, marker: Option<string>, prefix: Option<string>,
                       maxKeys: int, terse: bool) returns (r: Result<ListResult>)
      requires WalkedFiles(fs, b, keys)
      ensures r == ListSpec(b, keys, marker, prefix, maxKeys, terse, false, ListingStat(fs, b))
      ensures r.Ok? ==> |r.value.contents| <= Budget(maxKeys) && r.value.marker == LastOr(KeysOf(r.value.contents), marker)
    {
      r := Listing.ListObjects(b, keys, marker, prefix, maxKeys, terse, false, ListingStat(fs, b));
      if r.Ok? {
        ListingShape(b, keys, marker, prefix, maxKeys, terse, false, ListingStat(fs, b));
      }
    }

    /** `stat_object`: `os.stat` of the object path, which raises when nothing is there. */
    function StatObject(b: string, o: string): (r: Result<Stat>)
      reads this
      ensures r.Err? <==> ObjectPath(b, Some(o)) !in fs
      ensures IsFile(fs, ObjectPath(b, Some(o))) ==>
        r == Ok(Stat(fs[ObjectPath(b, Some(o))].modified, fs[ObjectPath(b, Some(o))].created,
                     |fs[ObjectPath(b, Some(o))].data|))
    {
      var p := ObjectPath(b, Some(o));
      if p !in fs then Err(OSError)
      else match fs[p]
           case File(data, modified, created) => Ok(Stat(modified, created, |data|))
           case Dir(created) => Ok(Stat(created, created, 0))
    }

    /** `read_object`: the whole file; `open` raises on a missing path or a directory. */
    function ReadObject(b: string, o: string): (r: Result<seq<byte>>)
      reads this
      ensures r.Ok? <==> IsFile(fs, ObjectPath(b, Some(o)))
      ensures r.Ok? ==> r.value == fs[ObjectPath(b, Some(o))].data
      ensures r.Err? ==> r.error == IOError
    {
      var p := ObjectPath(b, Some(o));
      if IsFile(fs, p) then Ok(fs[p].data) else Err(IOError)
    }

    /** `write_object`: `open(path, 'w').write(content)` replaces the whole file. */
    method WriteObject(b: string, o: string, content: seq<byte>, now: int) returns (r: Result<()>)
      modifies this
      ensures var p := ObjectPath(b, Some(o));
        && (old(Writable(fs, p)) ==> r == Ok(()) && fs == old(fs)[p := File(content, now, now)])
        && (!old(Writable(fs, p)) ==> r == Err(IOError) && fs == old(fs))
      ensures r.Ok? ==> ReadObject(b, o) == Ok(content) && IsObject(b, o) == Some(true)
    {
      var p := ObjectPath(b, Some(o));
      if !Writable(fs, p) {
        return Err(IOError);
      }
      fs := fs[p := File(content, now, now)];
      return Ok(());
    }

    /** `delete_object`: unlink the path if it is a regular file, otherwise do nothing. */
    method DeleteObject(b: string, o: string)
      modifies this
      ensures var p := ObjectPath(b, Some(o));
        fs == if old(IsFile(fs, p)) then old(fs) - {p} else old(fs)
      ensures IsObject(b, o).None?
    {
      var p := ObjectPath(b, Some(o));
      if IsFile(fs, p) {
        fs := fs - {p};
      }
    }
  }
}
