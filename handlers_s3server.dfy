/** The request handlers of the synchronous s3server over the older filesystem backend. That
    backend's mutators do nothing, its `is_bucket` takes one argument and it has neither
    `stat_object` nor `read_object`; the handlers call all of these, so several requests end
    in an exception (a 500) and none ever changes the filesystem. */
module S3ServerHandlers {

  import opened Base
  import opened Text
  import opened Listing
  import opened Http
  import Render
  import FsStorage
  import opened StubFsStorage

  /** `_object_path(bucket, object_name)`: the object's file below the application directory
      (`abspath`'s normalisation is not modelled). */
  function ObjectFile(directory: string, bucket: string, objectName: string): string {
    PathJoin(PathJoin(directory, bucket), objectName)
  }

  /** For plain names (relative, one segment) the file is `directory/bucket/object`: it lies
      below the directory and its last segment is the object name. */
  lemma ObjectFileOfPlainNames(directory: string, bucket: string, objectName: string)
    requires directory != [] && directory[|directory| - 1] != '/'
    requires bucket != [] && '/' !in bucket && objectName != [] && '/' !in objectName
    ensures ObjectFile(directory, bucket, objectName) == directory + "/" + bucket + "/" + objectName
    ensures StartsWith(ObjectFile(directory, bucket, objectName), directory + "/")
    ensures LastSegment(ObjectFile(directory, bucket, objectName)) == objectName
  {
    assert bucket[0] != '/' && objectName[0] != '/';
    var d := directory + "/" + bucket;
    assert d[|d| - 1] == bucket[|bucket| - 1];
    assert ObjectFile(directory, bucket, objectName) == d + "/" + objectName;
    assert d + "/" + objectName == directory + "/" + (bucket + "/" + objectName);
    LastSegmentOfJoin(d, objectName);
  }

  /** An object name that starts with `/` discards the directory and the bucket: the path is
      the name itself. */
  lemma AbsoluteNameEscapes(directory: string, bucket: string, objectName: string)
    requires objectName != [] && objectName[0] == '/'
    ensures ObjectFile(directory, bucket, objectName) == objectName
  {
  }

  /** `BucketHandler.get`: read the query, 404 for a missing bucket, else render the backend's
      listing, which raises for a non-terse listing with any key to show. */
  method GetBucket(s: ObjectStorage, b: string, query: map<string, string>, keys: seq<string>,
                   time: int -> Render.DateTime, esc: string -> string, utf8: string -> string)
    returns (r: Result<Response>)
    requires FsStorage.WalkedFiles(s.fs, b, keys)
    ensures ReadListingQuery(query).Err? ==> r == Err(ReadListingQuery(query).error)
    ensures ReadListingQuery(query).Ok? && !s.IsBucket(b) ==> r == Ok(Refuse(404))
    ensures ReadListingQuery(query).Ok? && s.IsBucket(b) ==>
      var q := ReadListingQuery(query).value;
      r == ListingResponse(ListSpec(b, keys, Some(q.marker), Some(q.prefix), q.maxKeys, q.terse, false,
                                    UnboundStat()), time, esc, utf8)
    ensures ReadListingQuery(query).Ok? && s.IsBucket(b) ==>
      var q := ReadListingQuery(query).value;
      !q.terse && Walk(keys, StartPos(keys, Some(q.marker), Some(q.prefix)), q.prefix, q.maxKeys, false).keys != [] ==>
        r == Err(NameError)
  {
    var q := ReadListingQuery(query);
    if q.Err? {
      return Err(q.error);
    }
    if !s.IsBucket(b) {
      return Ok(Refuse(404));
    }
    var listing := s.ListObjects(b, keys, Some(q.value.marker), Some(q.value.prefix), q.value.maxKeys, q.value.terse);
    r := ListingResponse(listing, time, esc, utf8);
  }

  /** `BucketHandler.put`: 403 when the bucket exists, else the (empty) `create_bucket` and 200,
      after which the bucket still does not exist. */
  method PutBucket(s: ObjectStorage, b: string) returns (r: Result<Response>)
    ensures s.IsBucket(b) ==> r == Ok(Refuse(403))
    ensures !s.IsBucket(b) ==> r == Ok(Response(200, NoBody))
    ensures r == Ok(Response(200, NoBody)) ==> !s.IsBucket(b)
  {
    if s.IsBucket(b) {
      return Ok(Refuse(403));
    }
    s.CreateBucket(b);
    return Ok(Response(200, NoBody));
  }

  /** `BucketHandler.delete`: 404 for a missing bucket; the listing without a prefix raises on
      any file, so a bucket with files is a 500 and an empty one a 204, never a 403. */
  method DeleteBucket(s: ObjectStorage, b: string, keys: seq<string>) returns (r: Result<Response>)
    requires FsStorage.WalkedFiles(s.fs, b, keys)
    ensures !s.IsBucket(b) ==> r == Ok(Refuse(404))
    ensures s.IsBucket(b) && keys != [] ==> r == Err(TypeError)
    ensures s.IsBucket(b) && FsStorage.HoldsFile(s.fs, b) ==> r == Err(TypeError)
    ensures s.IsBucket(b) && keys == [] ==> r == Ok(Response(204, NoBody))
  {
    if !s.IsBucket(b) {
      return Ok(Refuse(404));
    }
    var listing := s.ListObjects(b, keys, None, None, ListDefaultMaxKeys, false);
    FsStorage.WalkedFilesNonEmpty(s.fs, b, keys);
    NoPrefixListsNothingFrom(b, keys, false, UnboundStat());
    assert keys != [] ==> ReachesKey(keys, 0, false) by {
      if keys != [] {
        assert !Skipped(keys[0], false);
      }
    }
    if listing.Err? {
      return Err(listing.error);
    }
    if |listing.value.contents| > 0 {
      // the 403 of the source: never reached, a listing without a prefix is empty or raises
      assert false;
    }
    s.DeleteBucket(b);
    return Ok(Response(204, NoBody));
  }

  /** `ObjectHandler.get`: 404 unless the path is a regular file; for a file the call to the
      missing `stat_object` raises `AttributeError`. */
  method GetObject(s: ObjectStorage, b: string, o: string) returns (r: Result<Response>)
    ensures r == (if s.IsObject(b, o).None? then Ok(Refuse(404)) else Err(AttributeError))
    ensures r.Ok? <==> !FsStorage.IsFile(s.fs, FsStorage.ObjectPath(b, Some(o)))
  {
    if s.IsObject(b, o).None? {
      return Ok(Refuse(404));
    }
    return Err(AttributeError);
  }

  /** `ObjectHandler.put`: 404 for a missing bucket; otherwise `is_bucket(b, o)` passes one
      argument too many and raises `TypeError` (as would the two-argument `write_object` it
      guards, were it reached). */
  method PutObject(s: ObjectStorage, b: string, o: string, body: seq<byte>) returns (r: Result<Response>)
    ensures !s.IsBucket(b) ==> r == Ok(Refuse(404))
    ensures s.IsBucket(b) ==> r == Err(TypeError)
    ensures r.Ok? ==> r.value.status == 404
  {
    if !s.IsBucket(b) {
      return Ok(Refuse(404));
    }
    return Err(TypeError);
  }

  /** `ObjectHandler.delete`: 404 unless the path is a regular file, else the (empty)
      `delete_object` and 204, after which the file is still there. */
  method DeleteObject(s: ObjectStorage, b: string, o: string) returns (r: Result<Response>)
    ensures s.IsObject(b, o).None? ==> r == Ok(Refuse(404))
    ensures s.IsObject(b, o).Some? ==> r == Ok(Response(204, NoBody)) && FsStorage.IsFile(s.fs, FsStorage.ObjectPath(b, Some(o)))
  {
    if s.IsObject(b, o).None? {
      return Ok(Refuse(404));
    }
    s.DeleteObject(b, o);
    return Ok(Response(204, NoBody));
  }
}
