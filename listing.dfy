/** The pagination loop that every backend's `list_objects` repeats: seek past the marker
    with `bisect_right`, seek to the prefix with `bisect_left`, then walk forward collecting
    keys until one does not start with the prefix or the page is full. */
module Listing {

  import opened Base
  import opened Text
  import opened Bisect

  /** The key that marks a bucket as existing in the distributed backend. */
  const Reserved := "__CreationDate__"

  /** `LastModified` and `Size` of a non-terse listing entry. */
  datatype ObjectInfo = ObjectInfo(modified: int, size: int)

  /** One element of `Contents`: the key and, unless terse, its metadata. */
  datatype Content = Content(key: string, info: Option<ObjectInfo>)

  /** The dict every `list_objects` returns. */
  datatype ListResult = ListResult(
    name: string,
    prefix: Option<string>,
    marker: Option<string>,
    maxKeys: int,
    truncated: bool,
    contents: seq<Content>)

  /** A key the walk passes over without looking at it (the distributed backend only). */
  predicate Skipped(k: string, skipReserved: bool) {
    skipReserved && k == Reserved
  }

  /** Where the walk starts: `bisect_right` past a truthy marker, then `bisect_left` to a
      truthy prefix, searching only from the marker position on. */
  function StartPos(keys: seq<string>, marker: Option<string>, prefix: Option<string>): (s: nat)
    ensures s <= |keys|
  {
    var pos := if Truthy(marker) then BisectRight(keys, marker.value, 0, |keys|) else 0;
    if Truthy(prefix) then BisectLeft(keys, prefix.value, pos, |keys|) else pos
  }

  /** The prefix text the walk compares against (`None` is handled before the walk). */
  function PrefixText(prefix: Option<string>): string {
    if prefix.Some? then prefix.value else ""
  }

  /** The keys a walk accepts and whether it stopped because the page was full. */
  datatype Page = Page(keys: seq<string>, truncated: bool)

  /** The walk over `keys` from index `i`, with `room` = `max_keys` minus the keys
      accepted so far. */
  function Walk(keys: seq<string>, i: nat, prefix: string, room: int, skipReserved: bool): Page
    requires i <= |keys|
    decreases |keys| - i
  {
    if i == |keys| then Page([], false)
    else if Skipped(keys[i], skipReserved) then Walk(keys, i + 1, prefix, room, skipReserved)
    else if !StartsWith(keys[i], prefix) then Page([], false)
    else if room <= 0 then Page([], true)
    else
      var rest := Walk(keys, i + 1, prefix, room - 1, skipReserved);
      Page([keys[i]] + rest.keys, rest.truncated)
  }

  /** Some key from index `i` on is not skipped, so a walk with prefix None reaches
      `startswith(None)` and raises. */
  predicate ReachesKey(keys: seq<string>, i: nat, skipReserved: bool) {
    exists j :: i <= j < |keys| && !Skipped(keys[j], skipReserved)
  }

  /** The `Contents` entry for one accepted key: a non-terse listing stats it. */
  function DescribeKey(k: string, terse: bool, stat: string -> Result<ObjectInfo>): Result<seq<Content>> {
    if terse then Ok([Content(k, None)])
    else match stat(k)
         case Ok(info) => Ok([Content(k, Some(info))])
         case Err(e) => Err(e)
  }

  /** Two steps run one after the other: the first error wins. */
  function Then(a: Result<seq<Content>>, b: Result<seq<Content>>): Result<seq<Content>> {
    match a
    case Err(e) => Err(e)
    case Ok(x) =>
      match b
      case Err(e) => Err(e)
      case Ok(y) => Ok(x + y)
  }

  /** The `Contents` entries for the accepted keys: the first stat that raises ends the listing. */
  function Describe(keys: seq<string>, terse: bool, stat: string -> Result<ObjectInfo>): Result<seq<Content>>
    decreases |keys|
  {
    if keys == [] then Ok([])
    else Then(DescribeKey(keys[0], terse, stat), Describe(keys[1..], terse, stat))
  }

  /** The last key of `s`, or `d` when `s` is empty: the `Marker` a listing returns. */
  function LastOr(s: seq<string>, d: Option<string>): Option<string> {
    if s == [] then d else Some(s[|s| - 1])
  }

  /** The result of `list_objects` over the enumerated `keys`: the reference the loop in
      `ListObjects` is proved against. */
  function ListSpec(name: string, keys: seq<string>, marker: Option<string>, prefix: Option<string>,
                    maxKeys: int, terse: bool, skipReserved: bool,
                    stat: string -> Result<ObjectInfo>): Result<ListResult>
  {
    var start := StartPos(keys, marker, prefix);
    if prefix.None? && ReachesKey(keys, start, skipReserved) then Err(TypeError)
    else
      var page := Walk(keys, start, PrefixText(prefix), maxKeys, skipReserved);
      match Describe(page.keys, terse, stat)
      case Err(e) => Err(e)
      case Ok(cs) =>
        Ok(ListResult(name, prefix, LastOr(page.keys, marker), maxKeys, page.truncated, cs))
  }

  lemma {:induction false} DescribeAppend(a: seq<string>, b: seq<string>, terse: bool, stat: string -> Result<ObjectInfo>)
    ensures Describe(a + b, terse, stat) == Then(Describe(a, terse, stat), Describe(b, terse, stat))
    decreases |a|
  {
    if a == [] {
      assert a + b == b;
      assert forall x: Result<seq<Content>> :: Then(Ok([]), x) == x by {
        forall x: Result<seq<Content>> ensures Then(Ok([]), x) == x {
          if x.Ok? { assert [] + x.value == x.value; }
        }
      }
    } else {
      assert (a + b)[0] == a[0] && (a + b)[1..] == a[1..] + b;
      DescribeAppend(a[1..], b, terse, stat);
      var h := DescribeKey(a[0], terse, stat);
      var x := Describe(a[1..], terse, stat);
      var y := Describe(b, terse, stat);
      if h.Ok? && x.Ok? && y.Ok? {
        assert h.value + (x.value + y.value) == (h.value + x.value) + y.value;
      }
    }
  }

  /** The entry of one accepted key: its name alone for a terse listing, else its metadata. */
  method Describe1(k: string, terse: bool, stat: string -> Result<ObjectInfo>) returns (c: Result<Content>)
    ensures c == (if terse then Ok(Content(k, None)) else
                  match stat(k) case Ok(info) => Ok(Content(k, Some(info))) case Err(e) => Err(e))
  {
    if terse {
      return Ok(Content(k, None));
    }
    var info := stat(k);
    if info.Err? {
      return Err(info.error);
    }
    return Ok(Content(k, Some(info.value)));
  }

  /** The loop of `list_objects`, as the backends run it, over the key enumeration `keys`;
      `stat` gives the metadata of a key for a non-terse listing. */
  method ListObjects(name: string, keys: seq<string>, marker: Option<string>, prefix: Option<string>,
                     maxKeys: int, terse: bool, skipReserved: bool,
                     stat: string -> Result<ObjectInfo>) returns (r: Result<ListResult>)
    ensures r == ListSpec(name, keys, marker, prefix, maxKeys, terse, skipReserved, stat)
  {
    var startPos := StartPos(keys, marker, prefix);
    ghost var p := PrefixText(prefix);
    ghost var whole := Walk(keys, startPos, p, maxKeys, skipReserved);
    var contents: seq<Content> := [];
    ghost var accepted: seq<string> := [];
    ghost var room := maxKeys;
    var truncated := false;
    var last := marker;
    var i := startPos;
    while i < |keys|
      invariant startPos <= i <= |keys|
      invariant prefix.None? ==> forall j :: startPos <= j < i ==> Skipped(keys[j], skipReserved)
      invariant prefix.None? ==> accepted == []
      invariant !truncated
      invariant room == maxKeys - |accepted|
      invariant Resumes(whole, accepted, Walk(keys, i, p, room, skipReserved))
      invariant Describe(accepted, terse, stat) == Ok(contents)
      invariant |contents| == |accepted|
      invariant last == LastOr(accepted, marker)
    {
      var k := keys[i];
      if Skipped(k, skipReserved) {
        WalkSkips(keys, i, p, room, skipReserved, whole, accepted);
        i := i + 1;
        continue;
      }
      if prefix.None? {
        SpecTypeError(name, keys, marker, prefix, maxKeys, terse, skipReserved, stat);
        return Err(TypeError);  // str.startswith(None)
      }
      if !StartsWith(k, prefix.value) {
        WalkStops(keys, i, p, room, skipReserved, whole, accepted);
        break;
      }
      if |contents| >= maxKeys {
        WalkStops(keys, i, p, room, skipReserved, whole, accepted);
        truncated := true;
        break;
      }
      WalkAccepts(keys, i, p, room, skipReserved, whole, accepted);
      var c := Describe1(k, terse, stat);
      if c.Err? {
        StatFailure(accepted, k, Walk(keys, i + 1, p, room - 1, skipReserved).keys, terse, stat);
        SpecStatError(name, keys, marker, prefix, maxKeys, terse, skipReserved, stat);
        return Err(c.error);
      }
      DescribeSnoc(accepted, k, c.value, terse, stat);
      assert LastOr(accepted + [k], marker) == Some(k);
      contents := contents + [c.value];
      accepted := accepted + [k];
      room := room - 1;
      last := Some(k);
      i := i + 1;
    }
    assert Resumes(whole, accepted, Page([], truncated));
    assert accepted + [] == accepted;
    SpecOk(name, keys, marker, prefix, maxKeys, terse, skipReserved, stat, contents, last);
    r := Ok(ListResult(name, prefix, last, maxKeys, truncated, contents));
  }

  lemma SpecOk(name: string, keys: seq<string>, marker: Option<string>, prefix: Option<string>,
               maxKeys: int, terse: bool, skipReserved: bool, stat: string -> Result<ObjectInfo>,
               contents: seq<Content>, last: Option<string>)
    requires prefix.None? ==> !ReachesKey(keys, StartPos(keys, marker, prefix), skipReserved)
    requires var page := Walk(keys, StartPos(keys, marker, prefix), PrefixText(prefix), maxKeys, skipReserved);
      && Describe(page.keys, terse, stat) == Ok(contents)
      && last == LastOr(page.keys, marker)
    ensures ListSpec(name, keys, marker, prefix, maxKeys, terse, skipReserved, stat) ==
      Ok(ListResult(name, prefix, last, maxKeys,
                    Walk(keys, StartPos(keys, marker, prefix), PrefixText(prefix), maxKeys, skipReserved).truncated,
                    contents))
  {
  }

  lemma SpecTypeError(name: string, keys: seq<string>, marker: Option<string>, prefix: Option<string>,
                      maxKeys: int, terse: bool, skipReserved: bool, stat: string -> Result<ObjectInfo>)
    requires prefix.None? && ReachesKey(keys, StartPos(keys, marker, prefix), skipReserved)
    ensures ListSpec(name, keys, marker, prefix, maxKeys, terse, skipReserved, stat) == Err(TypeError)
  {
  }

  lemma SpecStatError(name: string, keys: seq<string>, marker: Option<string>, prefix: Option<string>,
                      maxKeys: int, terse: bool, skipReserved: bool, stat: string -> Result<ObjectInfo>)
    requires prefix.Some?
    requires Describe(Walk(keys, StartPos(keys, marker, prefix), PrefixText(prefix), maxKeys, skipReserved).keys, terse, stat).Err?
    ensures ListSpec(name, keys, marker, prefix, maxKeys, terse, skipReserved, stat) ==
      Err(Describe(Walk(keys, StartPos(keys, marker, prefix), PrefixText(prefix), maxKeys, skipReserved).keys, terse, stat).error)
  {
  }

  /** `whole` is what a walk that has accepted `accepted` and still has `tail` to go returns. */
  predicate Resumes(whole: Page, accepted: seq<string>, tail: Page) {
    whole == Page(accepted + tail.keys, tail.truncated)
  }

  lemma WalkSkips(keys: seq<string>, i: nat, p: string, room: int, skipReserved: bool, whole: Page, accepted: seq<string>)
    requires i < |keys| && Skipped(keys[i], skipReserved)
    requires Resumes(whole, accepted, Walk(keys, i, p, room, skipReserved))
    ensures Resumes(whole, accepted, Walk(keys, i + 1, p, room, skipReserved))
  {
  }

  lemma WalkStops(keys: seq<string>, i: nat, p: string, room: int, skipReserved: bool, whole: Page, accepted: seq<string>)
    requires i < |keys| && !Skipped(keys[i], skipReserved) && (!StartsWith(keys[i], p) || room <= 0)
    requires Resumes(whole, accepted, Walk(keys, i, p, room, skipReserved))
    ensures Resumes(whole, accepted, Page([], StartsWith(keys[i], p)))
  {
  }

  lemma WalkAccepts(keys: seq<string>, i: nat, p: string, room: int, skipReserved: bool, whole: Page, accepted: seq<string>)
    requires i < |keys| && !Skipped(keys[i], skipReserved) && StartsWith(keys[i], p) && room > 0
    requires Resumes(whole, accepted, Walk(keys, i, p, room, skipReserved))
    ensures Resumes(whole, accepted + [keys[i]], Walk(keys, i + 1, p, room - 1, skipReserved))
    ensures whole.keys == accepted + ([keys[i]] + Walk(keys, i + 1, p, room - 1, skipReserved).keys)
  {
    var rest := Walk(keys, i + 1, p, room - 1, skipReserved);
    assert accepted + ([keys[i]] + rest.keys) == (accepted + [keys[i]]) + rest.keys;
  }

  lemma DescribeSnoc(accepted: seq<string>, k: string, c: Content, terse: bool, stat: string -> Result<ObjectInfo>)
    requires Describe(accepted, terse, stat).Ok?
    requires if terse then c == Content(k, None) else stat(k).Ok? && c == Content(k, Some(stat(k).value))
    ensures Describe(accepted + [k], terse, stat) == Ok(Describe(accepted, terse, stat).value + [c])
  {
    DescribeAppend(accepted, [k], terse, stat);
    assert [k][0] == k && [k][1..] == [];
    assert [c] + [] == [c];
  }

  /** A stat that raises on an accepted key makes the whole listing raise. */
  lemma StatFailure(accepted: seq<string>, k: string, rest: seq<string>, terse: bool, stat: string -> Result<ObjectInfo>)
    requires Describe(accepted, terse, stat).Ok? && !terse && stat(k).Err?
    ensures Describe(accepted + ([k] + rest), terse, stat) == Err(stat(k).error)
  {
    DescribeAppend(accepted, [k] + rest, terse, stat);
    assert ([k] + rest)[0] == k && ([k] + rest)[1..] == rest;
  }
}
