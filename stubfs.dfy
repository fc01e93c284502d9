/** The older filesystem backend the synchronous server loads: it reads the same directory
    tree as the newer one, but its mutators do nothing and its non-terse listing names two
    variables that do not exist. It has no `stat_object` and no `read_object`. */
module StubFsStorage {

  import opened Base
  import opened Listing
  import opened ListingOrder
  import opened FsStorage

  /** What a non-terse listing does per accepted key: `self.__object_path__(bucket, _object)`
      evaluates the unbound name `bucket` and raises before any stat happens. */
  function UnboundStat(): string -> Result<ObjectInfo> {
    k => Err(NameError)
  }

  class ObjectStorage {
    var fs: Fs

    constructor ()
      ensures fs == map[]
    {
      fs := map[];
    }

    /** `is_bucket(b)`: the bucket path is a directory. This version takes no object name. */
    function IsBucket(b: string): (r: bool)
      reads this
      ensures r <==> IsDir(fs, ObjectPath(b, None))
    {
      IsDir(fs, ObjectPath(b, None))
    }

    /** `is_object(b, o)`, the same test as the newer backend's. */
    function IsObject(b: string, o: string): Option<bool>
      reads this
    {
      ObjectAnswer(fs, b, o)
    }

    /** `list_buckets`: one entry per name `os.listdir` gives, in that order. */
    method ListBuckets(names: seq<string>) returns (r: Result<seq<BucketEntry>>)
      ensures r == BucketList(fs, names)
      ensures r.Ok? ==> |r.value| == |names|
      ensures r.Ok? ==> forall j :: 0 <= j < |names| ==> r.value[j].name == names[j]
      ensures RootEntries(fs, names) ==> r.Ok?
    {
      var buckets: seq<BucketEntry> := [];
      var i := 0;
      while i < |names|
        invariant 0 <= i <= |names|
        invariant BucketList(fs, names[..i]) == Ok(buckets)
      {
        var info := StatPath(ObjectPath(names[i], None));
        assert names[..i + 1][..i] == names[..i];
        if info.None? {
          BucketListFails(fs, names, i + 1);
          return Err(OSError);
        }
        buckets := buckets + [BucketEntry(names[i], info.value)];
        i := i + 1;
      }
      assert names[..|names|] == names;
      BucketListOnePerName(fs, names);
      return Ok(buckets);
    }

    /** `os.stat(p).st_ctime`, or `None` when `os.stat` raises. */
    function StatPath(p: string): (c: Option<int>)
      reads this
      ensures c.Some? <==> p in fs
      ensures c.Some? ==> c.value == fs[p].created
    {
      if p in fs then Some(fs[p].created) else None
    }

    /** `create_bucket` is `pass`. */
    method CreateBucket(b: string)
      ensures fs == old(fs)
    {
    }

    /** `delete_bucket` is `pass`. */
    method DeleteBucket(b: string)
      ensures fs == old(fs)
    {
    }

    /** `write_object(b, o)` is `pass`; it takes no content argument. */
    method WriteObject(b: string, o: string)
      ensures fs == old(fs)
    {
    }

    /** `delete_object` is `pass`. */
    method DeleteObject(b: string, o: string)
      ensures fs == old(fs)
    {
    }

    /** `list_objects` over `keys`, the file names `os.walk` yields: the terse listing is the
        shared engine's; a non-terse listing raises `NameError` at its first accepted key. */
    method ListObjects(b: string, keys: seq<string>, marker: Option<string>, prefix: Option<string>,
                       maxKeys: int, terse: bool) returns (r: Result<ListResult>)
      requires WalkedFiles(fs, b, keys)
      ensures r == ListSpec(b, keys, marker, prefix, maxKeys, terse, false, UnboundStat())
      ensures prefix.Some? && !terse && Walk(keys, StartPos(keys, marker, prefix), prefix.value, maxKeys, false).keys != [] ==>
        r == Err(NameError)
      ensures r.Ok? ==> |r.value.contents| <= Budget(maxKeys) && r.value.marker == LastOr(KeysOf(r.value.contents), marker)
    {
      r := Listing.ListObjects(b, keys, marker, prefix, maxKeys, terse, false, UnboundStat());
      if r.Ok? {
        ListingShape(b, keys, marker, prefix, maxKeys, terse, false, UnboundStat());
      }
      if prefix.Some? && !terse {
        var page := Walk(keys, StartPos(keys, marker, prefix), prefix.value, maxKeys, false);
        DescribeEntries(page.keys, terse, UnboundStat());
        if page.keys != [] {
          assert UnboundStat()(page.keys[0]).Err?;
        }
      }
    }
  }
}
