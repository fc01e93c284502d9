/** The request handlers of the asynchronous server package, over the distributed backend.
    Every storage call a handler waits for (`yield`) is a call whose exception reaches the
    handler and becomes a 500; the mutators the handlers fire without waiting (create,
    delete, write) cannot change the status, so their outcome is dropped here too. */
module LibHandlers {

  import opened Base
  import opened Listing
  import opened Http
  import opened Auth
  import Render
  import Text
  import ListingOrder
  import opened RiakStorage

  /** `BucketHandler.get`: read the query, 404 for a missing bucket, else render the listing
      the backend returns for `keys`, the store's enumeration of the bucket's keys. */
  method GetBucket(s: ObjectStorage, b: string, query: map<string, string>, keys: seq<string>,
                   time: int -> Render.DateTime, esc: string -> string, utf8: string -> string)
    returns (r: Result<Response>)
    requires KeysOfBucket(s.meta, b, keys)
    ensures ReadListingQuery(query).Err? ==> r == Err(ReadListingQuery(query).error)
    ensures ReadListingQuery(query).Ok? && !s.IsBucket(b, None) ==> r == Ok(Refuse(404))
    ensures ReadListingQuery(query).Ok? && s.IsBucket(b, None) ==>
      var q := ReadListingQuery(query).value;
      r == ListingResponse(ListSpec(b, keys, Some(q.marker), Some(q.prefix), q.maxKeys, q.terse, true,
                                    ListingStat(s.meta, b)), time, esc, utf8)
  {
    var q := ReadListingQuery(query);
    if q.Err? {
      return Err(q.error);
    }
    if !s.IsBucket(b, None) {
      return Ok(Refuse(404));
    }
    var listing := s.ListObjects(b, keys, Some(q.value.marker), Some(q.value.prefix), q.value.maxKeys, q.value.terse);
    r := ListingResponse(listing, time, esc, utf8);
  }

  /** `BucketHandler.put` behind the `Authenticator` decorator (with the challenge the
      decorator means to send): 403 when the bucket exists, else create it. */
  method PutBucket(s: ObjectStorage, b: string, header: Option<string>, now: int)
    returns (r: Result<Response>)
    modifies s
    ensures Authenticator(header).Challenge? ==>
      r == Ok(Refuse(401)) && s.meta == old(s.meta) && s.blobs == old(s.blobs)
    ensures Authenticator(header).Proceed? && old(s.IsBucket(b, None)) ==>
      r == Ok(Refuse(403)) && s.meta == old(s.meta) && s.blobs == old(s.blobs)
    ensures Authenticator(header).Proceed? && !old(s.IsBucket(b, None)) ==>
      && r == Ok(Response(200, NoBody))
      && s.meta == old(s.meta)[(b, Reserved) := CreationMarker(now)] && s.blobs == old(s.blobs)
      && s.IsBucket(b, None)
  {
    if Authenticator(header).Challenge? {
      return Ok(Refuse(401));
    }
    if s.IsBucket(b, None) {
      return Ok(Refuse(403));
    }
    s.CreateBucket(b, now);
    return Ok(Response(200, NoBody));
  }

  /** `BucketHandler.put` behind the decorator as written: a failed check escapes as the
      decorator's own `NameError` (a 500) and leaves the store alone; a passing one goes on
      as in `PutBucket`. */
  method PutBucketAsWritten(s: ObjectStorage, b: string, header: Option<string>, now: int)
    returns (r: Result<Response>)
    modifies s
    ensures AuthenticatorAsWritten(header).Err? ==>
      r == Err(NameError) && s.meta == old(s.meta) && s.blobs == old(s.blobs)
    ensures AuthenticatorAsWritten(header).Ok? && old(s.IsBucket(b, None)) ==>
      r == Ok(Refuse(403)) && s.meta == old(s.meta) && s.blobs == old(s.blobs)
    ensures AuthenticatorAsWritten(header).Ok? && !old(s.IsBucket(b, None)) ==>
      && r == Ok(Response(200, NoBody))
      && s.meta == old(s.meta)[(b, Reserved) := CreationMarker(now)] && s.blobs == old(s.blobs)
      && s.IsBucket(b, None)
  {
    var a := AuthenticatorAsWritten(header);
    if a.Err? {
      return Err(a.error);
    }
    if s.IsBucket(b, None) {
      return Ok(Refuse(403));
    }
    s.CreateBucket(b, now);
    return Ok(Response(200, NoBody));
  }

  /** `BucketHandler.delete` with the listing it evidently means: every key (prefix `""`).
      404 for a missing bucket, 403 when the listing shows a key, else 204 and the bucket's
      marker is removed. A bucket holding a key is never deleted: the listing shows the key,
      or a stat raises. */
  method DeleteBucket(s: ObjectStorage, b: string, keys: seq<string>) returns (r: Result<Response>)
    requires KeysOfBucket(s.meta, b, keys)
    modifies s
    ensures old(s.IsBucket(b, None)) && old(s.HoldsKey(b)) ==>
      (r.Err? || r == Ok(Refuse(403))) && s.meta == old(s.meta) && s.blobs == old(s.blobs)
    ensures old(s.IsBucket(b, None)) && old(s.HoldsKey(b)) && old(s.OnlyObjects(b)) ==> r == Ok(Refuse(403))
    ensures !old(s.IsBucket(b, None)) ==> r == Ok(Refuse(404)) && s.meta == old(s.meta) && s.blobs == old(s.blobs)
    ensures old(s.IsBucket(b, None)) ==>
      var l := ListSpec(b, keys, None, Some(""), ListDefaultMaxKeys, false, true, ListingStat(old(s.meta), b));
      && (l.Err? ==> r == Err(l.error) && s.meta == old(s.meta) && s.blobs == old(s.blobs))
      && (l.Ok? && l.value.contents != [] ==> r == Ok(Refuse(403)) && s.meta == old(s.meta) && s.blobs == old(s.blobs))
      && (l.Ok? && l.value.contents == [] ==>
            r == Ok(Response(204, NoBody)) && s.meta == old(s.meta) - {(b, Reserved)} && s.blobs == old(s.blobs)
            && !s.IsBucket(b, None))
  {
    if !s.IsBucket(b, None) {
      return Ok(Refuse(404));
    }
    var listing := s.ListObjects(b, keys, None, Some(""), ListDefaultMaxKeys, false);
    if s.HoldsKey(b) {
      var k :| k != Reserved && s.Lookup(b, k).Some?;
      assert k in keys;
      var j :| 0 <= j < |keys| && keys[j] == k;
      assert !Skipped(keys[j], true);
      forall x | x in keys && !Skipped(x, true) && s.OnlyObjects(b) ensures ListingStat(s.meta, b)(x).Ok? {
        assert s.Lookup(b, x).Some?;
      }
      ListingOrder.EverythingListed(b, keys, ListDefaultMaxKeys, false, true, ListingStat(s.meta, b));
    }
    if listing.Err? {
      return Err(listing.error);
    }
    if |listing.value.contents| > 0 {
      return Ok(Refuse(403));
    }
    var _ := s.DeleteBucket(b);
    return Ok(Response(204, NoBody));
  }

  /** `BucketHandler.delete` as written: `list_objects(bucket_name)` passes prefix `None`. */
  method DeleteBucketAsWritten(s: ObjectStorage, b: string, keys: seq<string>) returns (r: Result<Response>)
    requires KeysOfBucket(s.meta, b, keys)
    modifies s
    ensures !old(s.IsBucket(b, None)) ==> r == Ok(Refuse(404)) && s.meta == old(s.meta) && s.blobs == old(s.blobs)
    ensures old(s.IsBucket(b, None)) && ReachesKey(keys, 0, true) ==>
      r == Err(TypeError) && s.meta == old(s.meta) && s.blobs == old(s.blobs)
    ensures old(s.IsBucket(b, None)) && !ReachesKey(keys, 0, true) ==>
      r == Ok(Response(204, NoBody)) && s.meta == old(s.meta) - {(b, Reserved)} && s.blobs == old(s.blobs)
    ensures r.Ok? ==> r.value.status != 403
  {
    if !s.IsBucket(b, None) {
      return Ok(Refuse(404));
    }
    var listing := s.ListObjects(b, keys, None, None, ListDefaultMaxKeys, false);
    NoPrefixListsNothingFrom(b, keys, true, ListingStat(s.meta, b));
    if listing.Err? {
      return Err(listing.error);
    }
    if |listing.value.contents| > 0 {
      // the 403 of the source: never reached, a listing without a prefix is empty or raises
      assert false;
    }
    var _ := s.DeleteBucket(b);
    return Ok(Response(204, NoBody));
  }

  /** `ObjectHandler.get`: 404 unless the key exists, then the stat (whose failure is a 500)
      and the object's bytes. */
  method GetObject(s: ObjectStorage, b: string, o: string) returns (r: Result<Response>)
    ensures s.IsObject(b, o).None? ==> r == Ok(Refuse(404))
    ensures s.IsObject(b, o).Some? && s.StatObject(b, o).Err? ==> r == Err(s.StatObject(b, o).error)
    ensures s.IsObject(b, o).Some? && s.StatObject(b, o).Ok? ==>
      r == (if s.ReadObject(b, o).Err? then Err(s.ReadObject(b, o).error)
            else Ok(Response(200, Data(s.ReadObject(b, o).value))))
    ensures r.Ok? && r.value.status == 200 ==>
      var rec := s.Lookup(b, o).value;
      s.Lookup(b, o).Some? && rec.ObjectRecord? && r.value.body == Data(s.blobs[rec.path])
  {
    if s.IsObject(b, o).None? {
      return Ok(Refuse(404));
    }
    var st := s.StatObject(b, o);
    if st.Err? {
      return Err(st.error);
    }
    var data := s.ReadObject(b, o);
    if data.Err? {
      return Err(data.error);
    }
    return Ok(Response(200, Data(data.value)));
  }

  /** `ObjectHandler.put`: 404 for a missing bucket, 403 when `is_bucket(b, o)` holds (the key
      `"b/o"` exists), else the write is fired and the request answered. */
  method PutObject(s: ObjectStorage, b: string, o: string, body: seq<byte>, location: string, now: int, size: int)
    returns (r: Result<Response>)
    modifies s
    ensures !old(s.IsBucket(b, None)) ==> r == Ok(Refuse(404)) && s.meta == old(s.meta) && s.blobs == old(s.blobs)
    ensures old(s.IsBucket(b, None)) && old(s.IsBucket(b, Some(o))) ==>
      r == Ok(Refuse(403)) && s.meta == old(s.meta) && s.blobs == old(s.blobs)
    ensures old(s.IsBucket(b, None)) && !old(s.IsBucket(b, Some(o))) ==> r == Ok(Response(200, NoBody))
    ensures var prev := old(s.Lookup(b, o));
      old(s.IsBucket(b, None)) && !old(s.IsBucket(b, Some(o))) &&
      (prev.None? || (prev.value.ObjectRecord? && location != prev.value.path &&
                      !(b == Graveyard && o == Text.LastSegment(prev.value.path)))) ==>
        s.ReadObject(b, o) == Ok(body)
  {
    if !s.IsBucket(b, None) {
      return Ok(Refuse(404));
    }
    if s.IsBucket(b, Some(o)) {
      return Ok(Refuse(403));
    }
    var _ := s.WriteObject(b, o, body, location, now, size);
    return Ok(Response(200, NoBody));
  }

  /** `ObjectHandler.delete`: 404 unless the key exists, else the delete is fired and 204. */
  method DeleteObject(s: ObjectStorage, b: string, o: string) returns (r: Result<Response>)
    modifies s
    ensures old(s.IsObject(b, o)).None? ==> r == Ok(Refuse(404)) && s.meta == old(s.meta) && s.blobs == old(s.blobs)
    ensures old(s.IsObject(b, o)).Some? ==> r == Ok(Response(204, NoBody))
    ensures old(s.IsObject(b, o)).Some? && !(Text.Contains(o, "ObjectPath") && old(s.Lookup(b, o)).value.CreationMarker?) ==>
      s.Lookup(b, o).None?
  {
    if s.IsObject(b, o).None? {
      return Ok(Refuse(404));
    }
    var _ := s.DeleteObject(b, o);
    return Ok(Response(204, NoBody));
  }
}
