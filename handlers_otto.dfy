/** The request handlers of the otto server over the filesystem backend. That backend answers
    synchronously, so an exception in any storage call, the mutators included, reaches the
    handler and becomes a 500. */
module OttoHandlers {

  import opened Base
  import opened Listing
  import opened Http
  import Render
  import opened FsStorage
  import ListingOrder
  import Text

  /** `BucketHandler.get`: read the query, 404 for a missing bucket, else render the listing
      of the file names `keys` the walk of the bucket directory yields. */
  method GetBucket(s: ObjectStorage, b: string, query: map<string, string>, keys: seq<string>,
                   time: int -> Render.DateTime, esc: string -> string, utf8: string -> string)
    returns (r: Result<Response>)
    requires WalkedFiles(s.fs, b, keys)
    ensures ReadListingQuery(query).Err? ==> r == Err(ReadListingQuery(query).error)
    ensures ReadListingQuery(query).Ok? && !s.IsBucket(b, None) ==> r == Ok(Refuse(404))
    ensures ReadListingQuery(query).Ok? && s.IsBucket(b, None) ==>
      var q := ReadListingQuery(query).value;
      r == ListingResponse(ListSpec(b, keys, Some(q.marker), Some(q.prefix), q.maxKeys, q.terse, false,
                                    ListingStat(s.fs, b)), time, esc, utf8)
  {
    var q := ReadListingQuery(query);
    if q.Err? {
      return Err(q.error);
    }
    if !s.IsBucket(b, None) {
      return Ok(Refuse(404));
    }
    var listing := s.ListObjects(b, keys, Some(q.value.marker), Some(q.value.prefix), q.value.maxKeys, q.value.terse);
    r := ListingResponse(listing, time, esc, utf8);
  }

  /** `BucketHandler.put`: 403 when the bucket directory exists, else create it; a file in the
      way makes `makedirs` raise. */
  method PutBucket(s: ObjectStorage, b: string, now: int) returns (r: Result<Response>)
    modifies s
    ensures var p := ObjectPath(b, None);
      && (old(IsDir(s.fs, p)) ==> r == Ok(Refuse(403)) && s.fs == old(s.fs))
      && (old(IsFile(s.fs, p)) ==> r == Err(OSError) && s.fs == old(s.fs))
      && (old(p !in s.fs) ==> r == Ok(Response(200, NoBody)) && s.fs == old(s.fs)[p := Dir(now)])
    ensures r == Ok(Response(200, NoBody)) ==> s.IsBucket(b, None)
  {
    if s.IsBucket(b, None) {
      return Ok(Refuse(403));
    }
    var created := s.CreateBucket(b, now);
    if created.Err? {
      return Err(created.error);
    }
    return Ok(Response(200, NoBody));
  }

  /** `BucketHandler.delete` with the listing it evidently means (prefix `""`): 404 for a
      missing bucket, 403 when the listing shows a file, else `rmdir`. */
  method DeleteBucket(s: ObjectStorage, b: string, keys: seq<string>) returns (r: Result<Response>)
    requires WalkedFiles(s.fs, b, keys)
    modifies s
    ensures old(s.IsBucket(b, None)) && old(HoldsFile(s.fs, b)) ==>
      (r.Err? || r == Ok(Refuse(403))) && s.fs == old(s.fs)
    ensures old(s.IsBucket(b, None)) && old(HoldsFile(s.fs, b)) && old(WalkedNamesStat(s.fs, b)) ==>
      r == Ok(Refuse(403))
    ensures !old(s.IsBucket(b, None)) ==> r == Ok(Refuse(404)) && s.fs == old(s.fs)
    ensures var p := ObjectPath(b, None);
      var l := ListSpec(b, keys, None, Some(""), ListDefaultMaxKeys, false, false, ListingStat(old(s.fs), b));
      old(s.IsBucket(b, None)) ==>
      && (l.Err? ==> r == Err(l.error) && s.fs == old(s.fs))
      && (l.Ok? && l.value.contents != [] ==> r == Ok(Refuse(403)) && s.fs == old(s.fs))
      && (l.Ok? && l.value.contents == [] && old(HasChildren(s.fs, p)) ==> r == Err(OSError) && s.fs == old(s.fs))
      && (l.Ok? && l.value.contents == [] && !old(HasChildren(s.fs, p)) ==>
            r == Ok(Response(204, NoBody)) && s.fs == old(s.fs) - {p} && !s.IsBucket(b, None))
  {
    if !s.IsBucket(b, None) {
      return Ok(Refuse(404));
    }
    var listing := s.ListObjects(b, keys, None, Some(""), ListDefaultMaxKeys, false);
    WalkedFilesNonEmpty(s.fs, b, keys);
    if keys != [] {
      assert !Skipped(keys[0], false);
      forall x | x in keys && WalkedNamesStat(s.fs, b) ensures ListingStat(s.fs, b)(x).Ok? {
        var q :| IsFile(s.fs, q) && Text.StartsWith(q, ObjectPath(b, None) + "/") && Text.LastSegment(q) == x;
      }
      ListingOrder.EverythingListed(b, keys, ListDefaultMaxKeys, false, false, ListingStat(s.fs, b));
    }
    if listing.Err? {
      return Err(listing.error);
    }
    if |listing.value.contents| > 0 {
      return Ok(Refuse(403));
    }
    var removed := s.DeleteBucket(b);
    if removed.Err? {
      return Err(removed.error);
    }
    return Ok(Response(204, NoBody));
  }

  /** `BucketHandler.delete` as written: `list_objects(bucket_name)` passes prefix `None`, so
      any file in the bucket makes `startswith(None)` raise. */
  method DeleteBucketAsWritten(s: ObjectStorage, b: string, keys: seq<string>) returns (r: Result<Response>)
    requires WalkedFiles(s.fs, b, keys)
    modifies s
    ensures !old(s.IsBucket(b, None)) ==> r == Ok(Refuse(404)) && s.fs == old(s.fs)
    ensures old(s.IsBucket(b, None)) && keys != [] ==> r == Err(TypeError) && s.fs == old(s.fs)
    ensures old(s.IsBucket(b, None)) && old(HoldsFile(s.fs, b)) ==> r == Err(TypeError) && s.fs == old(s.fs)
    ensures var p := ObjectPath(b, None);
      old(s.IsBucket(b, None)) && keys == [] ==>
      && (old(HasChildren(s.fs, p)) ==> r == Err(OSError) && s.fs == old(s.fs))
      && (!old(HasChildren(s.fs, p)) ==> r == Ok(Response(204, NoBody)) && s.fs == old(s.fs) - {p})
    ensures r.Ok? ==> r.value.status != 403
  {
    if !s.IsBucket(b, None) {
      return Ok(Refuse(404));
    }
    var listing := s.ListObjects(b, keys, None, None, ListDefaultMaxKeys, false);
    WalkedFilesNonEmpty(s.fs, b, keys);
    NoPrefixListsNothingFrom(b, keys, false, ListingStat(s.fs, b));
    assert keys != [] ==> ReachesKey(keys, 0, false) by {
      if keys != [] {
        assert !Skipped(keys[0], false);
      }
    }
    if listing.Err? {
      return Err(listing.error);
    }
    if |listing.value.contents| > 0 {
      // the 403 of the source: never reached, a listing without a prefix is empty or raises
      assert false;
    }
    var removed := s.DeleteBucket(b);
    if removed.Err? {
      return Err(removed.error);
    }
    return Ok(Response(204, NoBody));
  }

  /** `ObjectHandler.get`: 404 unless the path is a regular file, then its stat and bytes. */
  method GetObject(s: ObjectStorage, b: string, o: string) returns (r: Result<Response>)
    ensures !IsFile(s.fs, ObjectPath(b, Some(o))) ==> r == Ok(Refuse(404))
    ensures IsFile(s.fs, ObjectPath(b, Some(o))) ==>
      r == Ok(Response(200, Data(s.fs[ObjectPath(b, Some(o))].data)))
  {
    if s.IsObject(b, o).None? {
      return Ok(Refuse(404));
    }
    // a regular file always stats and opens, so neither call raises here
    var st := s.StatObject(b, o);
    var data := s.ReadObject(b, o);
    assert st.Ok? && data.Ok?;
    return Ok(Response(200, Data(data.value)));
  }

  /** `ObjectHandler.put`: 404 for a missing bucket, 403 when the object path is a directory,
      else write the file; `open` raises when the path cannot be created. */
  method PutObject(s: ObjectStorage, b: string, o: string, body: seq<byte>, now: int)
    returns (r: Result<Response>)
    modifies s
    ensures !old(s.IsBucket(b, None)) ==> r == Ok(Refuse(404)) && s.fs == old(s.fs)
    ensures old(s.IsBucket(b, None)) && old(s.IsBucket(b, Some(o))) ==> r == Ok(Refuse(403)) && s.fs == old(s.fs)
    ensures var p := ObjectPath(b, Some(o));
      old(s.IsBucket(b, None)) && !old(s.IsBucket(b, Some(o))) ==>
      && (old(Writable(s.fs, p)) ==> r == Ok(Response(200, NoBody)) && s.fs == old(s.fs)[p := File(body, now, now)])
      && (!old(Writable(s.fs, p)) ==> r == Err(IOError) && s.fs == old(s.fs))
    ensures r == Ok(Response(200, NoBody)) ==> s.ReadObject(b, o) == Ok(body)
  {
    if !s.IsBucket(b, None) {
      return Ok(Refuse(404));
    }
    if s.IsBucket(b, Some(o)) {
      return Ok(Refuse(403));
    }
    var written := s.WriteObject(b, o, body, now);
    if written.Err? {
      return Err(written.error);
    }
    return Ok(Response(200, NoBody));
  }

  /** `ObjectHandler.delete`: 404 unless the path is a regular file, else unlink it. */
  method DeleteObject(s: ObjectStorage, b: string, o: string) returns (r: Result<Response>)
    modifies s
    ensures var p := ObjectPath(b, Some(o));
      && (!old(IsFile(s.fs, p)) ==> r == Ok(Refuse(404)) && s.fs == old(s.fs))
      && (old(IsFile(s.fs, p)) ==> r == Ok(Response(204, NoBody)) && s.fs == old(s.fs) - {p})
    ensures s.IsObject(b, o).None?
  {
    if s.IsObject(b, o).None? {
      return Ok(Refuse(404));
    }
    s.DeleteObject(b, o);
    return Ok(Response(204, NoBody));
  }
}
