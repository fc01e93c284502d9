/** What the request handlers of all three servers share: the response they end with, the
    query defaults of a bucket listing, and the value a listing hands to the renderer. */
module Http {

  import opened Base
  import opened Text
  import opened Listing
  import opened Render
  import opened ListingOrder

  /** A response body: none, rendered XML, or an object's bytes. */
  datatype Body = NoBody | Xml(doc: string) | Data(bytes: seq<byte>)

  datatype Response = Response(status: nat, body: Body)

  /** cyclone answers an exception that escapes a handler with status 500. */
  function StatusOf(r: Result<Response>): nat {
    if r.Err? then 500 else r.value.status
  }

  /** `raise web.HTTPError(code)`. */
  function Refuse(code: nat): Response {
    Response(code, NoBody)
  }

  const DefaultMaxKeys := 50000

  /** The query of a bucket listing, once read. */
  datatype ListingQuery = ListingQuery(prefix: string, marker: string, maxKeys: int, terse: bool)

  /** `int(self.get_argument(name, default))`. `query` maps each argument to the value
      `get_argument` returns for it: the last one given, with surrounding whitespace stripped. */
  function IntArgument(query: map<string, string>, name: string, default: int): (r: Result<int>)
    ensures name !in query ==> r == Ok(default)
    ensures name in query ==> (r.Ok? <==> ParseInt(query[name]).Some?)
  {
    if name !in query then Ok(default)
    else
      var n := ParseInt(query[name]);
      if n.None? then Err(ValueError) else Ok(n.value)
  }

  /** The four `get_argument` calls of a bucket `GET`: `prefix` and `marker` default to the
      empty string, `max-keys` to 50000, `terse` to 0 (not terse). */
  function ReadListingQuery(query: map<string, string>): (r: Result<ListingQuery>)
    ensures r.Ok? <==> IntArgument(query, "max-keys", DefaultMaxKeys).Ok? && IntArgument(query, "terse", 0).Ok?
    ensures r.Ok? ==> r.value.prefix == (if "prefix" in query then query["prefix"] else "")
    ensures r.Ok? ==> r.value.marker == (if "marker" in query then query["marker"] else "")
    ensures r.Ok? && "max-keys" !in query ==> r.value.maxKeys == 50000
    ensures r.Ok? && "terse" !in query ==> !r.value.terse
  {
    var prefix := if "prefix" in query then query["prefix"] else "";
    var marker := if "marker" in query then query["marker"] else "";
    var maxKeys := IntArgument(query, "max-keys", DefaultMaxKeys);
    var terse := IntArgument(query, "terse", 0);
    if maxKeys.Err? then Err(maxKeys.error)
    else if terse.Err? then Err(terse.error)
    else Ok(ListingQuery(prefix, marker, maxKeys.value, terse.value != 0))
  }

  /** `?max-keys=+5` asks for five keys: `int()` takes a leading plus sign. */
  lemma PlusSignedMaxKeys()
    ensures ReadListingQuery(map["max-keys" := "+5"]) == Ok(ListingQuery("", "", 5, false))
  {
    assert AllDigits("5") by { assert IsDigit("5"[0]); }
    PlusSignIgnored("5");
    assert DigitsValue("5") == 5 by { assert "5"[..0] == []; }
  }

  function OptionalText(s: Option<string>): Value {
    if s.Some? then Str(s.value) else Null
  }

  /** One `{'Key': …}` dict, with `LastModified` and `Size` unless terse. `time` turns a
      stored timestamp into the `datetime` the backend builds from it. */
  function ContentValue(c: Content, time: int -> DateTime): Value {
    if c.info.None? then Dict([("Key", Str(c.key))])
    else Dict([("Key", Str(c.key)), ("LastModified", Time(time(c.info.value.modified))),
               ("Size", Int(c.info.value.size))])
  }

  /** The dict `list_objects` returns, as the renderer receives it. */
  function ListingValue(l: ListResult, time: int -> DateTime): Value {
    Dict([("Name", Str(l.name)), ("Prefix", OptionalText(l.prefix)), ("Marker", OptionalText(l.marker)),
          ("MaxKeys", Int(l.maxKeys)), ("IsTruncated", Bool(l.truncated)),
          ("Contents", List(seq(|l.contents|, j requires 0 <= j < |l.contents| => ContentValue(l.contents[j], time))))])
  }

  lemma ContentRenderable(c: Content, time: int -> DateTime)
    ensures Renderable(ContentValue(c, time)) <==> (c.info.Some? ==> time(c.info.value.modified).year >= 1900)
  {
    var es := ContentValue(c, time).entries;
    assert MemberRenderable(es[0].1);
    if c.info.Some? {
      assert MemberRenderable(es[1].1) <==> time(c.info.value.modified).year >= 1900;
      assert MemberRenderable(es[2].1);
    }
  }

  /** A listing renders unless its prefix or marker is `None` or one of its timestamps falls
      before 1900. */
  lemma ListingRenderable(l: ListResult, time: int -> DateTime)
    ensures Renderable(ListingValue(l, time)) <==>
      l.prefix.Some? && l.marker.Some? &&
      forall j :: 0 <= j < |l.contents| ==> (l.contents[j].info.Some? ==> time(l.contents[j].info.value.modified).year >= 1900)
  {
    var es := ListingValue(l, time).entries;
    var items := es[5].1.items;
    assert MemberRenderable(es[0].1) && MemberRenderable(es[3].1) && MemberRenderable(es[4].1);
    assert MemberRenderable(es[1].1) <==> l.prefix.Some?;
    assert MemberRenderable(es[2].1) <==> l.marker.Some?;
    forall j | 0 <= j < |l.contents|
      ensures Renderable(items[j]) <==>
              (l.contents[j].info.Some? ==> time(l.contents[j].info.value.modified).year >= 1900)
    {
      assert items[j] == ContentValue(l.contents[j], time);
      ContentRenderable(l.contents[j], time);
    }
    assert MemberRenderable(es[5].1) <==> forall j :: 0 <= j < |items| ==> Renderable(items[j]);
  }

  /** The body of a bucket listing: `render_xml({"ListBucketResult": listing})`. */
  function ListingResponse(listing: Result<ListResult>, time: int -> DateTime,
                           esc: string -> string, utf8: string -> string): (r: Result<Response>)
    ensures listing.Err? ==> r == Err(listing.error)
    ensures r.Ok? ==> r.value.status == 200 && r.value.body.Xml?
    ensures listing.Ok? ==> (r.Ok? <==> Renderable(ListingValue(listing.value, time)))
  {
    if listing.Err? then Err(listing.error)
    else
      var doc := RenderXml(Dict([("ListBucketResult", ListingValue(listing.value, time))]), esc, utf8);
      if doc.Err? then Err(doc.error) else Ok(Response(200, Xml(doc.value)))
  }

  /** `max_keys` when a handler calls `list_objects` with its defaults. */
  const ListDefaultMaxKeys := 5000

  /** Without a prefix the deleting listing raises as soon as it reaches a key that is not the
      bucket marker, and is empty otherwise; so it never reports contents. */
  lemma NoPrefixListsNothingFrom(b: string, keys: seq<string>, skip: bool, stat: string -> Result<ObjectInfo>)
    ensures var l := ListSpec(b, keys, None, None, ListDefaultMaxKeys, false, skip, stat);
      && (ReachesKey(keys, 0, skip) ==> l == Err(TypeError))
      && (!ReachesKey(keys, 0, skip) ==> l.Ok? && l.value.contents == [])
  {
    assert StartPos(keys, None, None) == 0;
    if !ReachesKey(keys, 0, skip) {
      OnlySkipped(keys, 0, "", ListDefaultMaxKeys, skip);
    }
  }

  /** A concrete bucket holding its marker and one object `a`: the handler as written raises
      (500) where the intended one answers 403. */
  lemma NonEmptyBucketDelete(stat: string -> Result<ObjectInfo>)
    requires stat("a").Ok?
    ensures ListSpec("b", [Reserved, "a"], None, None, ListDefaultMaxKeys, false, true, stat) == Err(TypeError)
    ensures var l := ListSpec("b", [Reserved, "a"], None, Some(""), ListDefaultMaxKeys, false, true, stat);
      l.Ok? && |l.value.contents| == 1
  {
    var keys := [Reserved, "a"];
    assert !Skipped(keys[1], true) by {
      assert keys[1] != Reserved by { assert keys[1][0] == 'a' != Reserved[0]; }
    }
    assert ReachesKey(keys, 0, true) by {
      assert ReachesKey(keys, 1, true);
    }
    NoPrefixListsNothingFrom("b", keys, true, stat);
    assert Skipped(keys[0], true);
    assert Text.StartsWith(keys[1], "");
    assert Walk(keys, 2, "", ListDefaultMaxKeys - 1, true) == Page([], false);
    assert Walk(keys, 1, "", ListDefaultMaxKeys, true) == Page(["a"], false);
    assert StartPos(keys, None, Some("")) == 0;
    assert ["a"][1..] == [];
    assert Describe(["a"], false, stat) == Ok([Content("a", Some(stat("a").value))] + []);
  }
}
