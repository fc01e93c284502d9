/** What a listing returns, stated independently of the loop: the shape of every page, and
    for sorted key enumerations (what the backends feed it) the exact page. */
module ListingOrder {

  import opened Base
  import opened Text
  import opened Bisect
  import opened Listing

  /** The number of keys a page may hold: `max_keys`, and none when it is not positive. */
  function Budget(maxKeys: int): nat {
    if maxKeys <= 0 then 0 else maxKeys
  }

  /** The keys of a `Contents` list. */
  function KeysOf(cs: seq<Content>): (ks: seq<string>)
    ensures |ks| == |cs| && forall j :: 0 <= j < |cs| ==> ks[j] == cs[j].key
  {
    seq(|cs|, j requires 0 <= j < |cs| => cs[j].key)
  }

  /** The keys of `keys[i..j]` that the walk does not pass over, in order. */
  function Unskipped(keys: seq<string>, i: nat, j: nat, skipReserved: bool): seq<string>
    requires i <= j <= |keys|
    decreases j - i
  {
    if i == j then []
    else (if Skipped(keys[i], skipReserved) then [] else [keys[i]]) + Unskipped(keys, i + 1, j, skipReserved)
  }

  /** A walk from `i` that looked at `keys[i..stop]` and returned `w`: it took every key it did
      not pass over, and it ended at the end of the keys, at a key outside the prefix, or (when
      truncated) at one more key inside the prefix. */
  predicate Stops(keys: seq<string>, i: nat, stop: nat, p: string, skipReserved: bool, w: Page) {
    && i <= stop <= |keys|
    && w.keys == Unskipped(keys, i, stop, skipReserved)
    && (w.truncated ==> stop < |keys| && !Skipped(keys[stop], skipReserved) && StartsWith(keys[stop], p))
    && (!w.truncated ==> stop == |keys| || (!Skipped(keys[stop], skipReserved) && !StartsWith(keys[stop], p)))
  }

  /** Any key enumeration, sorted or not: a walk takes at most `room` keys, a full page is
      exactly `room` keys long, every key it takes is inside the prefix and not reserved, and
      the keys it takes are consecutive in enumeration order. */
  lemma {:induction false} WalkShape(keys: seq<string>, i: nat, p: string, room: int, skipReserved: bool)
    requires i <= |keys|
    ensures var w := Walk(keys, i, p, room, skipReserved);
      && |w.keys| <= Budget(room)
      && (w.truncated ==> |w.keys| == Budget(room))
      && (forall k :: k in w.keys ==> StartsWith(k, p) && !Skipped(k, skipReserved))
      && exists stop :: Stops(keys, i, stop, p, skipReserved, w)
    decreases |keys| - i
  {
    var w := Walk(keys, i, p, room, skipReserved);
    if i == |keys| {
      assert Stops(keys, i, i, p, skipReserved, w);
    } else if Skipped(keys[i], skipReserved) {
      WalkShape(keys, i + 1, p, room, skipReserved);
      var stop :| Stops(keys, i + 1, stop, p, skipReserved, w);
      assert Unskipped(keys, i, stop, skipReserved) == [] + Unskipped(keys, i + 1, stop, skipReserved);
      assert Stops(keys, i, stop, p, skipReserved, w);
    } else if !StartsWith(keys[i], p) || room <= 0 {
      assert Stops(keys, i, i, p, skipReserved, w);
    } else {
      var rest := Walk(keys, i + 1, p, room - 1, skipReserved);
      WalkShape(keys, i + 1, p, room - 1, skipReserved);
      var stop :| Stops(keys, i + 1, stop, p, skipReserved, rest);
      assert Unskipped(keys, i, stop, skipReserved) == [keys[i]] + Unskipped(keys, i + 1, stop, skipReserved);
      assert Stops(keys, i, stop, p, skipReserved, w);
    }
  }

  /** The entry a successful `Describe` gives for key `k`. */
  predicate Entry(c: Content, k: string, terse: bool, stat: string -> Result<ObjectInfo>) {
    c.key == k && c.info == (if terse then None else match stat(k) case Ok(info) => Some(info) case Err(_) => None)
  }

  /** `Describe` succeeds exactly when every stat does (or the listing is terse), then gives one
      entry per key in order, and otherwise fails with the first stat error. */
  lemma {:induction false} DescribeEntries(keys: seq<string>, terse: bool, stat: string -> Result<ObjectInfo>)
    ensures Describe(keys, terse, stat).Ok? <==> terse || forall j :: 0 <= j < |keys| ==> stat(keys[j]).Ok?
    ensures var d := Describe(keys, terse, stat);
      d.Ok? ==> |d.value| == |keys| && forall j :: 0 <= j < |keys| ==> Entry(d.value[j], keys[j], terse, stat)
    ensures var d := Describe(keys, terse, stat);
      d.Err? ==> !terse && (exists j :: 0 <= j < |keys| && stat(keys[j]) == Err(d.error) &&
                              forall i :: 0 <= i < j ==> stat(keys[i]).Ok?)
    decreases |keys|
  {
    if keys != [] {
      var tail := keys[1..];
      DescribeEntries(tail, terse, stat);
      assert forall j :: 1 <= j < |keys| ==> keys[j] == tail[j - 1];
      var d := Describe(keys, terse, stat);
      if d.Err? && stat(keys[0]).Ok? {
        var j :| 0 <= j < |tail| && stat(tail[j]) == Err(d.error) && forall i :: 0 <= i < j ==> stat(tail[i]).Ok?;
        assert stat(keys[j + 1]) == Err(d.error);
      }
    }
  }

  /** `Describe` lists the accepted keys. */
  lemma DescribeKeys(keys: seq<string>, terse: bool, stat: string -> Result<ObjectInfo>)
    requires Describe(keys, terse, stat).Ok?
    ensures KeysOf(Describe(keys, terse, stat).value) == keys
  {
    DescribeEntries(keys, terse, stat);
  }

  /** The shape of every successful listing, over any key enumeration: it echoes the name,
      prefix and `max_keys`; holds at most `max_keys` entries and exactly that many when
      truncated; lists only keys inside the prefix and never the reserved key; describes
      each key as the stat gives it; takes consecutive keys from the start position on, a
      truncated page being followed by one more key inside the prefix; and returns as
      `Marker` the last listed key or else the marker it was given. */
  lemma ListingShape(name: string, keys: seq<string>, marker: Option<string>, prefix: Option<string>,
                     maxKeys: int, terse: bool, skipReserved: bool, stat: string -> Result<ObjectInfo>)
    requires ListSpec(name, keys, marker, prefix, maxKeys, terse, skipReserved, stat).Ok?
    ensures var res := ListSpec(name, keys, marker, prefix, maxKeys, terse, skipReserved, stat).value;
      && res.name == name && res.prefix == prefix && res.maxKeys == maxKeys
      && |res.contents| <= Budget(maxKeys)
      && (res.truncated ==> |res.contents| == Budget(maxKeys))
      && (forall j :: 0 <= j < |res.contents| ==>
            StartsWith(res.contents[j].key, PrefixText(prefix)) && !Skipped(res.contents[j].key, skipReserved)
            && Entry(res.contents[j], res.contents[j].key, terse, stat))
      && res.marker == LastOr(KeysOf(res.contents), marker)
      && exists stop :: Stops(keys, StartPos(keys, marker, prefix), stop, PrefixText(prefix), skipReserved,
                              Page(KeysOf(res.contents), res.truncated))
  {
    var start := StartPos(keys, marker, prefix);
    var w := Walk(keys, start, PrefixText(prefix), maxKeys, skipReserved);
    WalkShape(keys, start, PrefixText(prefix), maxKeys, skipReserved);
    DescribeEntries(w.keys, terse, stat);
    DescribeKeys(w.keys, terse, stat);
    var res := ListSpec(name, keys, marker, prefix, maxKeys, terse, skipReserved, stat).value;
    assert res.contents == Describe(w.keys, terse, stat).value;
    forall j | 0 <= j < |res.contents|
      ensures StartsWith(res.contents[j].key, PrefixText(prefix)) && !Skipped(res.contents[j].key, skipReserved)
    {
      assert res.contents[j].key == w.keys[j] && w.keys[j] in w.keys;
    }
    assert w == Page(KeysOf(res.contents), res.truncated);
  }

  /** With prefix `None` (the deleting handlers') a listing raises `TypeError` as soon as one key
      is reached, and otherwise returns an empty, untruncated page. */
  lemma NoPrefixListsNothing(name: string, keys: seq<string>, marker: Option<string>,
                             maxKeys: int, terse: bool, skipReserved: bool, stat: string -> Result<ObjectInfo>)
    ensures var r := ListSpec(name, keys, marker, None, maxKeys, terse, skipReserved, stat);
      r == Err(TypeError) || (r.Ok? && r.value.contents == [] && !r.value.truncated)
  {
    var start := StartPos(keys, marker, None);
    if !ReachesKey(keys, start, skipReserved) {
      OnlySkipped(keys, start, "", maxKeys, skipReserved);
    }
  }

  lemma {:induction false} OnlySkipped(keys: seq<string>, i: nat, p: string, room: int, skipReserved: bool)
    requires i <= |keys| && !ReachesKey(keys, i, skipReserved)
    ensures Walk(keys, i, p, room, skipReserved) == Page([], false)
    decreases |keys| - i
  {
    if i < |keys| {
      assert Skipped(keys[i], skipReserved);
      OnlySkipped(keys, i + 1, p, room, skipReserved);
    }
  }

  /** A key the listing with this marker and prefix text should return. */
  predicate Matches(k: string, marker: Option<string>, p: string, skipReserved: bool) {
    !Skipped(k, skipReserved) && (Truthy(marker) ==> Lt(marker.value, k)) && StartsWith(k, p)
  }

  /** The keys from index `i` on that match, in enumeration order: the reference a sorted
      listing is compared with. */
  function Matching(keys: seq<string>, i: nat, marker: Option<string>, p: string, skipReserved: bool): seq<string>
    requires i <= |keys|
    decreases |keys| - i
  {
    if i == |keys| then []
    else (if Matches(keys[i], marker, p, skipReserved) then [keys[i]] else []) + Matching(keys, i + 1, marker, p, skipReserved)
  }

  /** The first `n` elements of `s` (all of them when there are fewer). */
  function Take(s: seq<string>, n: nat): (t: seq<string>)
    ensures |t| == if |s| <= n then |s| else n
  {
    if |s| <= n then s else s[..n]
  }

  lemma {:induction false} NoMatchesLeft(keys: seq<string>, i: nat, marker: Option<string>, p: string, skipReserved: bool)
    requires i <= |keys| && forall j :: i <= j < |keys| ==> !Matches(keys[j], marker, p, skipReserved)
    ensures Matching(keys, i, marker, p, skipReserved) == []
    decreases |keys| - i
  {
    if i < |keys| {
      NoMatchesLeft(keys, i + 1, marker, p, skipReserved);
    }
  }

  lemma {:induction false} NoMatchesBetween(keys: seq<string>, lo: nat, hi: nat, marker: Option<string>, p: string,
                                            skipReserved: bool)
    requires lo <= hi <= |keys| && forall j :: lo <= j < hi ==> !Matches(keys[j], marker, p, skipReserved)
    ensures Matching(keys, lo, marker, p, skipReserved) == Matching(keys, hi, marker, p, skipReserved)
    decreases hi - lo
  {
    if lo < hi {
      NoMatchesBetween(keys, lo + 1, hi, marker, p, skipReserved);
    }
  }

  /** The walk never starts before the marker position, and starts at 0 when neither the
      marker nor the prefix is truthy. */
  lemma StartBounds(keys: seq<string>, marker: Option<string>, prefix: Option<string>)
    ensures Truthy(marker) ==> BisectRight(keys, marker.value, 0, |keys|) <= StartPos(keys, marker, prefix)
    ensures !Truthy(marker) && !Truthy(prefix) ==> StartPos(keys, marker, prefix) == 0
  {
  }

  /** On sorted keys the start position splits the enumeration: no key before it belongs in
      the listing, and every key from it on is past a truthy marker and not below the prefix. */
  lemma StartSplits(keys: seq<string>, marker: Option<string>, prefix: string, skipReserved: bool)
    requires Sorted(keys)
    ensures var start := StartPos(keys, marker, Some(prefix));
      && (forall j :: 0 <= j < start ==> !Matches(keys[j], marker, prefix, skipReserved))
      && (forall j :: start <= j < |keys| ==> (Truthy(marker) ==> Lt(marker.value, keys[j])) && Le(prefix, keys[j]))
  {
    var start := StartPos(keys, marker, Some(prefix));
    var pos := if Truthy(marker) then BisectRight(keys, marker.value, 0, |keys|) else 0;
    if Truthy(marker) {
      BisectRightSplits(keys, marker.value, 0, |keys|);
    }
    if prefix != "" {
      BisectLeftSplits(keys, prefix, pos, |keys|);
    }
    forall j | pos <= j < start ensures !StartsWith(keys[j], prefix) {
      if StartsWith(keys[j], prefix) {
        PrefixIsLeast(keys[j], prefix);
      }
    }
  }

  lemma TakeCons(k: string, m: seq<string>, n: nat)
    requires n >= 1
    ensures Take([k] + m, n) == [k] + Take(m, n - 1)
  {
    if |m| + 1 > n {
      assert ([k] + m)[..n] == [k] + m[..n - 1];
    }
  }

  /** On sorted keys, a walk from a point past which every key is beyond the marker and not below
      the prefix takes the first `room` matching keys, and is truncated exactly when more match. */
  lemma {:induction false} WalkTakesMatches(keys: seq<string>, i: nat, marker: Option<string>, p: string, room: int,
                                            skipReserved: bool)
    requires Sorted(keys) && i <= |keys|
    requires forall j :: i <= j < |keys| ==> (Truthy(marker) ==> Lt(marker.value, keys[j])) && Le(p, keys[j])
    ensures var m := Matching(keys, i, marker, p, skipReserved);
      Walk(keys, i, p, room, skipReserved) == Page(Take(m, Budget(room)), |m| > Budget(room))
    decreases |keys| - i
  {
    if i < |keys| {
      var k := keys[i];
      if Skipped(k, skipReserved) {
        WalkTakesMatches(keys, i + 1, marker, p, room, skipReserved);
      } else if !StartsWith(k, p) {
        PrefixRunEnded(keys, i, marker, p, skipReserved);
      } else if room > 0 {
        WalkTakesMatches(keys, i + 1, marker, p, room - 1, skipReserved);
        TakeCons(k, Matching(keys, i + 1, marker, p, skipReserved), Budget(room));
      }
    }
  }

  /** On sorted keys, once a key at or above the prefix falls outside it, no later key matches. */
  lemma PrefixRunEnded(keys: seq<string>, i: nat, marker: Option<string>, p: string, skipReserved: bool)
    requires Sorted(keys) && i < |keys| && Le(p, keys[i]) && !StartsWith(keys[i], p)
    ensures Matching(keys, i, marker, p, skipReserved) == []
  {
    forall j | i <= j < |keys| ensures !Matches(keys[j], marker, p, skipReserved) {
      if j > i && StartsWith(keys[j], p) {
        PastPrefixRun(p, keys[i], keys[j]);
      }
    }
    NoMatchesLeft(keys, i, marker, p, skipReserved);
  }

  /** For sorted keys and a string prefix, the page is exactly the first `max_keys` keys that are
      past a truthy marker, inside the prefix and not reserved, and it is truncated exactly when
      more such keys exist. */
  lemma SortedPage(keys: seq<string>, marker: Option<string>, prefix: string, maxKeys: int, skipReserved: bool)
    requires Sorted(keys)
    ensures var m := Matching(keys, 0, marker, prefix, skipReserved);
      Walk(keys, StartPos(keys, marker, Some(prefix)), prefix, maxKeys, skipReserved) ==
        Page(Take(m, Budget(maxKeys)), |m| > Budget(maxKeys))
  {
    var start := StartPos(keys, marker, Some(prefix));
    StartSplits(keys, marker, prefix, skipReserved);
    NoMatchesBetween(keys, 0, start, marker, prefix, skipReserved);
    WalkTakesMatches(keys, start, marker, prefix, maxKeys, skipReserved);
  }

  lemma {:induction false} MatchingMatches(keys: seq<string>, i: nat, marker: Option<string>, p: string, skipReserved: bool)
    requires i <= |keys|
    ensures forall x :: x in Matching(keys, i, marker, p, skipReserved) ==> Matches(x, marker, p, skipReserved) && x in keys
    decreases |keys| - i
  {
    if i < |keys| {
      MatchingMatches(keys, i + 1, marker, p, skipReserved);
    }
  }

  /** The successful listing of sorted keys with a string prefix: its `Contents` are the first
      `max_keys` matching keys, each strictly past a truthy marker, at least the prefix and
      inside it, and `IsTruncated` says exactly whether more match. */
  lemma SortedListing(name: string, keys: seq<string>, marker: Option<string>, prefix: string,
                      maxKeys: int, terse: bool, skipReserved: bool, stat: string -> Result<ObjectInfo>)
    requires Sorted(keys)
    requires ListSpec(name, keys, marker, Some(prefix), maxKeys, terse, skipReserved, stat).Ok?
    ensures var res := ListSpec(name, keys, marker, Some(prefix), maxKeys, terse, skipReserved, stat).value;
      var m := Matching(keys, 0, marker, prefix, skipReserved);
      && KeysOf(res.contents) == Take(m, Budget(maxKeys))
      && res.truncated == (|m| > Budget(maxKeys))
      && forall j :: 0 <= j < |res.contents| ==>
           var k := res.contents[j].key;
           (Truthy(marker) ==> Lt(marker.value, k)) && Le(prefix, k) && StartsWith(k, prefix) && !Skipped(k, skipReserved)
  {
    var res := ListSpec(name, keys, marker, Some(prefix), maxKeys, terse, skipReserved, stat).value;
    var w := Walk(keys, StartPos(keys, marker, Some(prefix)), prefix, maxKeys, skipReserved);
    var m := Matching(keys, 0, marker, prefix, skipReserved);
    SortedPage(keys, marker, prefix, maxKeys, skipReserved);
    DescribeKeys(w.keys, terse, stat);
    MatchingMatches(keys, 0, marker, prefix, skipReserved);
    forall j | 0 <= j < |res.contents|
      ensures var k := res.contents[j].key;
        (Truthy(marker) ==> Lt(marker.value, k)) && Le(prefix, k) && StartsWith(k, prefix) && !Skipped(k, skipReserved)
    {
      var k := res.contents[j].key;
      assert k == w.keys[j] && w.keys[j] == m[j] && m[j] in m;
      PrefixIsLeast(k, prefix);
    }
  }

  /** Keys in strictly increasing order, as a key store enumerates distinct names sorted. */
  predicate StrictlySorted(a: seq<string>) {
    forall i, j :: 0 <= i < j < |a| ==> Lt(a[i], a[j])
  }

  lemma LtAsymmetric(a: string, b: string)
    requires Lt(a, b)
    ensures !Lt(b, a)
  {
    if Lt(b, a) {
      LtTransitive(a, b, a);
      LtIrreflexive(a);
    }
  }

  lemma StrictlySortedIsSorted(a: seq<string>)
    requires StrictlySorted(a)
    ensures Sorted(a)
  {
    forall i, j | 0 <= i < j < |a| ensures Le(a[i], a[j]) {
      LtAsymmetric(a[i], a[j]);
    }
  }

  /** The elements of `s` strictly above `l`, in order. */
  function Above(s: seq<string>, l: string): seq<string>
    decreases |s|
  {
    if s == [] then [] else (if Lt(l, s[0]) then [s[0]] else []) + Above(s[1..], l)
  }

  /** On strictly sorted keys, a later matching key is above an earlier key. */
  lemma {:induction false} MatchingAbove(keys: seq<string>, i: nat, marker: Option<string>, p: string, skipReserved: bool)
    requires StrictlySorted(keys) && i < |keys|
    ensures forall x :: x in Matching(keys, i + 1, marker, p, skipReserved) ==> Lt(keys[i], x)
    decreases |keys| - i
  {
    if i + 1 < |keys| {
      MatchingAbove(keys, i + 1, marker, p, skipReserved);
      forall x | x in Matching(keys, i + 2, marker, p, skipReserved) ensures Lt(keys[i], x) {
        LtTransitive(keys[i], keys[i + 1], x);
      }
    }
  }

  /** Asking again from a truthy key `l` past a truthy marker keeps exactly the matches above `l`. */
  lemma {:induction false} MatchingFrom(keys: seq<string>, i: nat, marker: Option<string>, l: string, p: string,
                                        skipReserved: bool)
    requires i <= |keys| && l != "" && (Truthy(marker) ==> Lt(marker.value, l))
    ensures Matching(keys, i, Some(l), p, skipReserved) == Above(Matching(keys, i, marker, p, skipReserved), l)
    decreases |keys| - i
  {
    if i < |keys| {
      var k := keys[i];
      MatchingFrom(keys, i + 1, marker, l, p, skipReserved);
      var rest := Matching(keys, i + 1, marker, p, skipReserved);
      if Lt(l, k) && Truthy(marker) {
        LtTransitive(marker.value, l, k);
      }
      if Matches(k, marker, p, skipReserved) {
        assert ([k] + rest)[0] == k && ([k] + rest)[1..] == rest;
      } else {
        assert [] + rest == rest;
      }
    }
  }

  lemma {:induction false} AboveAll(s: seq<string>, l: string)
    requires forall x :: x in s ==> Lt(l, x)
    ensures Above(s, l) == s
    decreases |s|
  {
    if s != [] {
      assert s[0] in s;
      assert forall x :: x in s[1..] ==> x in s;
      AboveAll(s[1..], l);
    }
  }

  /** For a strictly increasing `s`, the elements above its `n`-th are the ones after it. */
  lemma {:induction false} AboveNth(s: seq<string>, n: nat)
    requires 0 < n <= |s| && StrictlySorted(s)
    ensures Above(s, s[n - 1]) == s[n..]
    decreases n
  {
    LtIrreflexive(s[0]);
    if n == 1 {
      forall x | x in s[1..] ensures Lt(s[0], x) {
        var j :| 0 <= j < |s[1..]| && s[1..][j] == x;
        assert x == s[j + 1];
      }
      AboveAll(s[1..], s[0]);
    } else {
      LtAsymmetric(s[0], s[n - 1]);
      AboveNth(s[1..], n - 1);
      assert s[1..][n - 2] == s[n - 1] && s[1..][n - 1..] == s[n..];
    }
  }

  lemma {:induction false} MatchingIncreasing(keys: seq<string>, i: nat, marker: Option<string>, p: string,
                                              skipReserved: bool)
    requires StrictlySorted(keys) && i <= |keys|
    ensures StrictlySorted(Matching(keys, i, marker, p, skipReserved))
    decreases |keys| - i
  {
    if i < |keys| {
      MatchingIncreasing(keys, i + 1, marker, p, skipReserved);
      MatchingAbove(keys, i, marker, p, skipReserved);
      var rest := Matching(keys, i + 1, marker, p, skipReserved);
      if Matches(keys[i], marker, p, skipReserved) {
        var m := [keys[i]] + rest;
        forall a, b | 0 <= a < b < |m| ensures Lt(m[a], m[b]) {
          assert m[b] == rest[b - 1] && rest[b - 1] in rest;
          if a > 0 {
            assert m[a] == rest[a - 1];
          }
        }
      } else {
        assert [] + rest == rest;
      }
    }
  }

  /** On strictly sorted, non-empty keys, the matches above the `n`-th match are the ones after it. */
  lemma ResumeAfter(keys: seq<string>, marker: Option<string>, prefix: string, skipReserved: bool, n: nat)
    requires StrictlySorted(keys) && forall j :: 0 <= j < |keys| ==> keys[j] != ""
    requires 0 < n <= |Matching(keys, 0, marker, prefix, skipReserved)|
    ensures var m := Matching(keys, 0, marker, prefix, skipReserved);
      Matching(keys, 0, Some(m[n - 1]), prefix, skipReserved) == m[n..]
  {
    var m := Matching(keys, 0, marker, prefix, skipReserved);
    MatchingMatches(keys, 0, marker, prefix, skipReserved);
    assert m[n - 1] in m;
    MatchingFrom(keys, 0, marker, m[n - 1], prefix, skipReserved);
    MatchingIncreasing(keys, 0, marker, prefix, skipReserved);
    AboveNth(m, n);
  }

  /** Pagination: on strictly sorted, non-empty keys, listing again from the `Marker` a page
      returned gives exactly the matching keys that page did not reach. */
  lemma NextPage(keys: seq<string>, marker: Option<string>, prefix: string, maxKeys: int, skipReserved: bool)
    requires StrictlySorted(keys) && forall j :: 0 <= j < |keys| ==> keys[j] != ""
    ensures var page := Walk(keys, StartPos(keys, marker, Some(prefix)), prefix, maxKeys, skipReserved);
      var m := Matching(keys, 0, marker, prefix, skipReserved);
      |page.keys| <= |m| && Matching(keys, 0, LastOr(page.keys, marker), prefix, skipReserved) == m[|page.keys|..]
  {
    var page := Walk(keys, StartPos(keys, marker, Some(prefix)), prefix, maxKeys, skipReserved);
    var m := Matching(keys, 0, marker, prefix, skipReserved);
    StrictlySortedIsSorted(keys);
    SortedPage(keys, marker, prefix, maxKeys, skipReserved);
    if page.keys != [] {
      var n := |page.keys|;
      assert page.keys[n - 1] == m[n - 1];
      ResumeAfter(keys, marker, prefix, skipReserved, n);
    }
  }

  /** With prefix `""` every key is inside the prefix, so on the filesystem backends (nothing
      passed over) the walk only stops at the end of the keys or on a full page. */
  lemma {:induction false} EmptyPrefixTakesAll(keys: seq<string>, i: nat, room: int)
    requires i <= |keys|
    ensures Walk(keys, i, "", room, false) == Page(Take(keys[i..], Budget(room)), |keys| - i > Budget(room))
    decreases |keys| - i
  {
    if i < |keys| {
      assert StartsWith(keys[i], "");
      if room > 0 {
        EmptyPrefixTakesAll(keys, i + 1, room - 1);
        assert keys[i..] == [keys[i]] + keys[i + 1..];
        TakeCons(keys[i], keys[i + 1..], Budget(room));
      }
    }
  }

  /** With prefix `""` and room for a key, a walk that reaches a key it does not pass over
      takes at least one key. */
  lemma {:induction false} WalkReachesKey(keys: seq<string>, i: nat, room: int, skipReserved: bool)
    requires i <= |keys| && room > 0 && ReachesKey(keys, i, skipReserved)
    ensures Walk(keys, i, "", room, skipReserved).keys != []
    decreases |keys| - i
  {
    var j :| i <= j < |keys| && !Skipped(keys[j], skipReserved);
    assert StartsWith(keys[i], "");
    if Skipped(keys[i], skipReserved) {
      assert j != i;
      WalkReachesKey(keys, i + 1, room, skipReserved);
    }
  }

  /** Every key a walk takes comes from the enumeration. */
  lemma {:induction false} WalkTakesFromKeys(keys: seq<string>, i: nat, p: string, room: int, skipReserved: bool)
    requires i <= |keys|
    ensures forall x :: x in Walk(keys, i, p, room, skipReserved).keys ==> x in keys
    decreases |keys| - i
  {
    if i < |keys| {
      WalkTakesFromKeys(keys, i + 1, p, room - 1, skipReserved);
      WalkTakesFromKeys(keys, i + 1, p, room, skipReserved);
    }
  }

  /** Listing everything (no marker, prefix `""`, room for a key) of an enumeration that
      holds a key the walk does not pass over: a successful listing shows at least one entry,
      and the listing succeeds when the listing is terse or every such key stats. */
  lemma EverythingListed(name: string, keys: seq<string>, maxKeys: int, terse: bool, skipReserved: bool,
                         stat: string -> Result<ObjectInfo>)
    requires maxKeys >= 1 && ReachesKey(keys, 0, skipReserved)
    ensures var l := ListSpec(name, keys, None, Some(""), maxKeys, terse, skipReserved, stat);
      && (l.Ok? ==> l.value.contents != [])
      && ((terse || forall k :: k in keys && !Skipped(k, skipReserved) ==> stat(k).Ok?) ==> l.Ok?)
  {
    assert StartPos(keys, None, Some("")) == 0;
    var page := Walk(keys, 0, "", maxKeys, skipReserved);
    WalkReachesKey(keys, 0, maxKeys, skipReserved);
    WalkTakesFromKeys(keys, 0, "", maxKeys, skipReserved);
    WalkShape(keys, 0, "", maxKeys, skipReserved);
    DescribeEntries(page.keys, terse, stat);
  }
}
