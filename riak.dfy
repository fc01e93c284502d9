/** The distributed backend: object metadata in a key/value store, one JSON record per key
    and bucket, and payloads in a separate blob service addressed by the `Location` it hands
    out. Both services are modelled as maps held by the storage object. */
module RiakStorage {

  import opened Base
  import opened Text
  import opened Listing
  import opened ListingOrder

  /** A metadata record, as the JSON this backend stores under a key. */
  datatype Record =
    | CreationMarker(created: int)                                  // the `__CreationDate__` value
    | ObjectRecord(created: int, modified: int, path: string, size: int)
    | Tombstone(deleted: int, path: string, fromBucket: string)     // in `deleted_objects`

  /** Buckets `list_buckets` never shows. */
  const Private: seq<string> := ["luwak_node", "deleted_files"]

  /** The bucket overwritten blobs are recorded in. */
  const Graveyard := "deleted_objects"

  /** One entry of `list_buckets`. */
  datatype BucketEntry = BucketEntry(name: string, created: int)

  /** The metadata store: the record under each (bucket, key) pair. */
  type Meta = map<(string, string), Record>

  /** `list_buckets` over the store's bucket enumeration `names`: private buckets are passed
      over, a bucket is shown only when it holds a creation marker, and a non-marker record under
      the reserved key makes `float()` raise. */
  function BucketList(meta: Meta, names: seq<string>): Result<seq<BucketEntry>>
    decreases |names|
  {
    if names == [] then Ok([])
    else
      var init := BucketList(meta, names[..|names| - 1]);
      var b := names[|names| - 1];
      if init.Err? || b in Private || (b, Reserved) !in meta then init
      else match meta[(b, Reserved)]
           case CreationMarker(c) => Ok(init.value + [BucketEntry(b, c)])
           case _ => Err(TypeError)
  }

  /** The names `list_buckets` shows, in enumeration order. */
  function Visible(meta: Meta, names: seq<string>): (vs: seq<string>)
    ensures forall v :: v in vs ==> v in names
    decreases |names|
  {
    if names == [] then []
    else
      var b := names[|names| - 1];
      Visible(meta, names[..|names| - 1]) + (if b !in Private && (b, Reserved) in meta then [b] else [])
  }

  function EntryNames(es: seq<BucketEntry>): (ns: seq<string>)
    ensures |ns| == |es| && forall j :: 0 <= j < |es| ==> ns[j] == es[j].name
  {
    seq(|es|, j requires 0 <= j < |es| => es[j].name)
  }

  /** A successful `list_buckets` shows exactly the non-private enumerated buckets that hold a
      creation marker, in enumeration order, each with that marker's date. */
  lemma {:induction false} BucketListShows(meta: Meta, names: seq<string>)
    requires BucketList(meta, names).Ok?
    ensures var es := BucketList(meta, names).value;
      && EntryNames(es) == Visible(meta, names)
      && forall e :: e in es ==> e.name !in Private && (e.name, Reserved) in meta &&
                                 meta[(e.name, Reserved)] == CreationMarker(e.created)
    decreases |names|
  {
    if names != [] {
      var init := names[..|names| - 1];
      BucketListShows(meta, init);
      var b := names[|names| - 1];
      var es := BucketList(meta, names).value;
      var es0 := BucketList(meta, init).value;
      if b !in Private && (b, Reserved) in meta {
        assert es == es0 + [BucketEntry(b, meta[(b, Reserved)].created)];
        assert EntryNames(es) == EntryNames(es0) + [b];
      } else {
        assert Visible(meta, names) == Visible(meta, init) + [];
      }
    }
  }

  /** Membership in `Visible`, both ways. */
  lemma {:induction false} VisibleMembers(meta: Meta, names: seq<string>, b: string)
    ensures b in Visible(meta, names) <==> b in names && b !in Private && (b, Reserved) in meta
    decreases |names|
  {
    if names != [] {
      var init := names[..|names| - 1];
      VisibleMembers(meta, init, b);
      assert names == init + [names[|names| - 1]];
    }
  }

  /** Bucket `b` holds some key, so the store's bucket enumeration names it. */
  predicate ListedIn(meta: Meta, b: string) {
    exists p :: p in meta && p.0 == b
  }

  /** `names` is what `riak_client.list_buckets()` gives: every bucket holding a key, in any
      order. */
  ghost predicate BucketsOfStore(meta: Meta, names: seq<string>) {
    forall n :: n in names <==> ListedIn(meta, n)
  }

  /** `keys` is what `bucket.list_keys()` gives for bucket `b`: every key stored in it, in any
      order. */
  ghost predicate KeysOfBucket(meta: Meta, b: string, keys: seq<string>) {
    forall k :: k in keys <==> (b, k) in meta
  }

  /** After `create_bucket(b)` a bucket list over the store's own enumeration shows `b` with
      its new date, unless `b` is private or another bucket's marker makes `float()` raise. */
  lemma CreatedBucketListed(meta: Meta, b: string, now: int, names: seq<string>)
    requires b !in Private
    requires BucketsOfStore(meta[(b, Reserved) := CreationMarker(now)], names)
    ensures var l := BucketList(meta[(b, Reserved) := CreationMarker(now)], names);
      l.Ok? ==> BucketEntry(b, now) in l.value
  {
    var m := meta[(b, Reserved) := CreationMarker(now)];
    assert ListedIn(m, b) by { assert (b, Reserved) in m; }
    var l := BucketList(m, names);
    if l.Ok? {
      BucketListShows(m, names);
      VisibleMembers(m, names, b);
      var es := l.value;
      var j :| 0 <= j < |EntryNames(es)| && EntryNames(es)[j] == b;
      assert es[j] in es;
      assert es[j] == BucketEntry(b, now);
    }
  }

  /** `stat_object`'s dict, as a non-terse listing reads it: a missing key gives `False`, and
      subscripting `False` or a marker's number raises `TypeError`; a tombstone has no
      `LastModified`. */
  function ListingInfo(meta: Meta, b: string, k: string): Result<ObjectInfo> {
    if (b, k) !in meta then Err(TypeError)
    else match meta[(b, k)]
         case ObjectRecord(_, modified, _, size) => Ok(ObjectInfo(modified, size))
         case CreationMarker(_) => Err(TypeError)
         case Tombstone(_, _, _) => Err(KeyError)
  }

  function ListingStat(meta: Meta, b: string): string -> Result<ObjectInfo> {
    k => ListingInfo(meta, b, k)
  }

  /** The metadata store and the blob service that one `ObjectStorage` talks to. */
  class ObjectStorage {
    var meta: Meta
    var blobs: map<string, seq<byte>>

    /** A storage object over empty services. */
    constructor ()
      ensures meta == map[] && blobs == map[]
    {
      meta := map[];
      blobs := map[];
    }

    /** The record under key `k` of bucket `b`, if any (`get_binary(...).exists()`). */
    function Lookup(b: string, k: string): Option<Record>
      reads this
    {
      if (b, k) in meta then Some(meta[(b, k)]) else None
    }

    /** The store's bucket list holds every bucket with at least one key. */
    predicate Listed(b: string)
      reads this
    {
      ListedIn(meta, b)
    }

    /** Bucket `b` holds a key besides its creation marker. */
    ghost predicate HoldsKey(b: string)
      reads this
    {
      exists k :: k != Reserved && Lookup(b, k).Some?
    }

    /** Every key of bucket `b` besides its marker holds an object record, so `stat_object`
        describes each of them. */
    ghost predicate OnlyObjects(b: string)
      reads this
    {
      forall k :: k != Reserved && Lookup(b, k).Some? ==> Lookup(b, k).value.ObjectRecord?
    }

    /** `is_bucket(b)`: listed and holding `__CreationDate__`; `is_bucket(b, o)` with a truthy
        `o` instead looks up the key `"b/o"` inside `b`. */
    function IsBucket(b: string, o: Option<string>): (r: bool)
      reads this
      ensures r ==> Listed(b)
      ensures !Truthy(o) ==> (r <==> Lookup(b, Reserved).Some?)
      ensures Truthy(o) ==> (r <==> Lookup(b, b + "/" + o.value).Some?)
    {
      if !Listed(b) then false
      else if !Truthy(o) then (b, Reserved) in meta
      else (b, b + "/" + o.value) in meta
    }

    /** `is_object`: the stored record, or `False` (here `None`). */
    function IsObject(b: string, o: string): (r: Option<Record>)
      reads this
      ensures r.Some? <==> (b, o) in meta
      ensures r.Some? ==> r.value == meta[(b, o)]
    {
      Lookup(b, o)
    }

    /** `list_buckets`, over the bucket names the metadata store enumerates. */
    method ListBuckets(names: seq<string>) returns (r: Result<seq<BucketEntry>>)
      requires BucketsOfStore(meta, names)
      ensures r == BucketList(meta, names)
      ensures r.Ok? ==> EntryNames(r.value) == Visible(meta, names)
      ensures r.Ok? ==> forall n :: n in EntryNames(r.value) <==> n !in Private && (n, Reserved) in meta
    {
      var list: seq<BucketEntry> := [];
      var i := 0;
      while i < |names|
        invariant 0 <= i <= |names|
        invariant BucketList(meta, names[..i]) == Ok(list)
      {
        var b := names[i];
        assert names[..i + 1][..i] == names[..i];
        if b !in Private {
          var obj := IsObject(b, Reserved);
          if obj.Some? {
            if !obj.value.CreationMarker? {
              assert BucketList(meta, names[..i + 1]).Err?;
              BucketListFails(names, i + 1);
              return Err(TypeError);
            }
            list := list + [BucketEntry(b, obj.value.created)];
          }
        }
        i := i + 1;
      }
      assert names[..|names|] == names;
      BucketListShows(meta, names);
      forall n ensures n in Visible(meta, names) <==> n !in Private && (n, Reserved) in meta {
        VisibleMembers(meta, names, n);
        if (n, Reserved) in meta {
          assert ListedIn(meta, n);
        }
      }
      return Ok(list);
    }

    /** Once `list_buckets` raises on a prefix of the enumeration it raises on all of it. */
    lemma {:induction false} BucketListFails(names: seq<string>, i: nat)
      requires i <= |names| && BucketList(meta, names[..i]).Err?
      ensures BucketList(meta, names) == BucketList(meta, names[..i])
      decreases |names| - i
    {
      if i < |names| {
        assert names[..i + 1][..i] == names[..i];
        BucketListFails(names, i + 1);
      } else {
        assert names[..i] == names;
      }
    }

    /** `create_bucket`: stores a fresh creation marker dated `now`. */
    method CreateBucket(b: string, now: int)
      modifies this
      ensures meta == old(meta)[(b, Reserved) := CreationMarker(now)] && blobs == old(blobs)
      ensures IsBucket(b, None)
    {
      meta := meta[(b, Reserved) := CreationMarker(now)];
    }

    /** `delete_bucket`: deletes the creation marker, answering whether there was one. */
    method DeleteBucket(b: string) returns (r: Result<bool>)
      modifies this
      ensures r == Ok(old(Lookup(b, Reserved)).Some?)
      ensures meta == old(meta) - {(b, Reserved)} && blobs == old(blobs)
      ensures !IsBucket(b, None)
    {
      // `delete_object(b, Reserved)`: the key names no blob (it lacks `ObjectPath`)
      r := Ok(Lookup(b, Reserved).Some?);
      meta := meta - {(b, Reserved)};
    }

    /** `list_objects` over `keys`, the enumeration the store gives of bucket `b` (any order);
        the reserved key is passed over and entries are described by `stat_object`. */
    method ListObjects(b: string, keys: seq<string>, marker: Option<string>, prefix: Option<string>,
                       maxKeys: int, terse: bool) returns (r: Result<ListResult>)
      requires KeysOfBucket(meta, b, keys)
      ensures r == ListSpec(b, keys, marker, prefix, maxKeys, terse, true, ListingStat(meta, b))
      ensures r.Ok? ==> |r.value.contents| <= Budget(maxKeys)
      ensures r.Ok? ==> forall j :: 0 <= j < |r.value.contents| ==> r.value.contents[j].key != Reserved
    {
      r := Listing.ListObjects(b, keys, marker, prefix, maxKeys, terse, true, ListingStat(meta, b));
      if r.Ok? {
        ListingShape(b, keys, marker, prefix, maxKeys, terse, true, ListingStat(meta, b));
      }
    }

    /** `stat_object`: `False` (here `Ok(None)`) for a missing key, the dates and size of an
        object record, and a raise for a marker (a number) or a tombstone (no `LastModified`). */
    function StatObject(b: string, o: string): (r: Result<Option<Stat>>)
      reads this
      ensures r == Ok(None) <==> (b, o) !in meta
      ensures r.Ok? && r.value.Some? <==> Lookup(b, o).Some? && Lookup(b, o).value.ObjectRecord?
    {
      match Lookup(b, o)
      case None => Ok(None)
      case Some(ObjectRecord(created, modified, _, size)) => Ok(Some(Stat(modified, created, size)))
      case Some(CreationMarker(_)) => Err(TypeError)
      case Some(Tombstone(_, _, _)) => Err(KeyError)
    }

    /** `read_object`: the blob at the record's `ObjectPath`. A missing key has no data to
        decode and a marker cannot be subscripted (`TypeError`). */
    function ReadObject(b: string, o: string): (r: Result<seq<byte>>)
      reads this
      ensures r.Ok? ==> Lookup(b, o).Some? && !Lookup(b, o).value.CreationMarker? &&
                        Lookup(b, o).value.path in blobs && r.value == blobs[Lookup(b, o).value.path]
    {
      match Lookup(b, o)
      case None => Err(TypeError)
      case Some(CreationMarker(_)) => Err(TypeError)
      case Some(rec) => if rec.path in blobs then Ok(blobs[rec.path]) else Err(BlobMissing)
    }

    /** `write_object`: read the old record, post the content to the blob service (which answers
        with `location`), store the new record keeping an old `CreationDate`, and on overwrite
        only record a tombstone for the old blob and delete it. `size` stands for the
        interpreter's size of the content and `now` for the clock. */
    method WriteObject(b: string, o: string, content: seq<byte>, location: string, now: int, size: int)
      returns (r: Result<bool>)
      modifies this
      ensures var prev := old(Lookup(b, o));
        prev.Some? && !prev.value.ObjectRecord? ==>
          r == Err(if prev.value.CreationMarker? then TypeError else KeyError) &&
          meta == old(meta) && blobs == old(blobs)
      ensures var prev := old(Lookup(b, o));
        prev.None? ==>
          r == Ok(true) && meta == old(meta)[(b, o) := ObjectRecord(now, now, location, size)] &&
          blobs == old(blobs)[location := content]
      ensures var prev := old(Lookup(b, o));
        prev.Some? && prev.value.ObjectRecord? ==>
          var seg := LastSegment(prev.value.path);
          && r == Ok(true)
          && meta == old(meta)[(b, o) := ObjectRecord(prev.value.created, now, location, size)]
                           [(Graveyard, seg) := Tombstone(prev.value.created, seg, b)]
          && blobs == old(blobs)[location := content] - {prev.value.path}
      ensures var prev := old(Lookup(b, o));
        r.Ok? && (prev.None? || (location != prev.value.path &&
                                 !(b == Graveyard && o == LastSegment(prev.value.path)))) ==>
          ReadObject(b, o) == Ok(content) && StatObject(b, o).Ok? &&
          StatObject(b, o).value == Some(Stat(now, if prev.Some? then prev.value.created else now, size))
    {
      var prev := IsObject(b, o);
      var created := now;
      if prev.Some? {
        match prev.value
        case CreationMarker(_) => return Err(TypeError);   // a number has no ['CreationDate']
        case Tombstone(_, _, _) => return Err(KeyError);
        case ObjectRecord(c, _, _, _) => created := c;
      }
      blobs := blobs[location := content];
      meta := meta[(b, o) := ObjectRecord(created, now, location, size)];
      if prev.Some? {
        var seg := LastSegment(prev.value.path);
        meta := meta[(Graveyard, seg) := Tombstone(created, seg, b)];
        blobs := blobs - {prev.value.path};
      }
      return Ok(true);
    }

    /** `delete_object`: removes an existing key and answers whether there was one; the blob is
        deleted too, but only when the object's *name* contains `ObjectPath`. */
    method DeleteObject(b: string, o: string) returns (r: Result<bool>)
      modifies this
      ensures var prev := old(Lookup(b, o));
        && (prev.None? ==> r == Ok(false) && meta == old(meta) && blobs == old(blobs))
        && (prev.Some? && Contains(o, "ObjectPath") && prev.value.CreationMarker? ==>
              r == Err(TypeError) && meta == old(meta) && blobs == old(blobs))
        && (prev.Some? && Contains(o, "ObjectPath") && !prev.value.CreationMarker? ==>
              r == Ok(true) && meta == old(meta) - {(b, o)} && blobs == old(blobs) - {prev.value.path})
        && (prev.Some? && !Contains(o, "ObjectPath") ==>
              r == Ok(true) && meta == old(meta) - {(b, o)} && blobs == old(blobs))
      ensures r.Ok? ==> Lookup(b, o).None?
    {
      var prev := Lookup(b, o);
      if prev.None? {
        return Ok(false);
      }
      if Contains(o, "ObjectPath") {
        if prev.value.CreationMarker? {
          return Err(TypeError);   // a number has no ['ObjectPath']
        }
        blobs := blobs - {prev.value.path};
      }
      meta := meta - {(b, o)};
      return Ok(true);
    }
  }

  lemma ReservedHasNoPathWord()
    ensures !Contains(Reserved, "ObjectPath")
  {
    FirstCharAbsent(Reserved, "ObjectPath");
  }
}
