/** Python's `bisect.bisect_left` / `bisect.bisect_right`, exactly as the binary searches
    run: they are applied to whatever key sequence a backend enumerates, sorted or not. */
module Bisect {

  import opened Text

  /** Keys in non-decreasing Python string order. */
  predicate Sorted(a: seq<string>) {
    forall i, j :: 0 <= i < j < |a| ==> Le(a[i], a[j])
  }

  /** `bisect_right(a, x, lo, hi)`: halve `[lo, hi)`, going left when `x < a[mid]`. */
  function BisectRight(a: seq<string>, x: string, lo: nat, hi: nat): (r: nat)
    requires lo <= hi <= |a|
    ensures lo <= r <= hi
    decreases hi - lo
  {
    if lo < hi then
      var mid := (lo + hi) / 2;
      if Lt(x, a[mid]) then BisectRight(a, x, lo, mid) else BisectRight(a, x, mid + 1, hi)
    else lo
  }

  /** `bisect_left(a, x, lo, hi)`: halve `[lo, hi)`, going right when `a[mid] < x`. */
  function BisectLeft(a: seq<string>, x: string, lo: nat, hi: nat): (r: nat)
    requires lo <= hi <= |a|
    ensures lo <= r <= hi
    decreases hi - lo
  {
    if lo < hi then
      var mid := (lo + hi) / 2;
      if Lt(a[mid], x) then BisectLeft(a, x, mid + 1, hi) else BisectLeft(a, x, lo, mid)
    else lo
  }

  /** On sorted keys, `bisect_right` splits `[lo, hi)` into keys `<= x` and keys `> x`. */
  lemma {:induction false} BisectRightSplits(a: seq<string>, x: string, lo: nat, hi: nat)
    requires lo <= hi <= |a| && Sorted(a)
    ensures var r := BisectRight(a, x, lo, hi);
      (forall i :: lo <= i < r ==> Le(a[i], x)) && (forall i :: r <= i < hi ==> Lt(x, a[i]))
    decreases hi - lo
  {
    if lo < hi {
      var mid := (lo + hi) / 2;
      if Lt(x, a[mid]) {
        BisectRightSplits(a, x, lo, mid);
        AboveFrom(a, x, mid, hi);
      } else {
        BisectRightSplits(a, x, mid + 1, hi);
        AtMostUpTo(a, x, lo, mid);
      }
    }
  }

  /** On sorted keys, `bisect_left` splits `[lo, hi)` into keys `< x` and keys `>= x`. */
  lemma {:induction false} BisectLeftSplits(a: seq<string>, x: string, lo: nat, hi: nat)
    requires lo <= hi <= |a| && Sorted(a)
    ensures var r := BisectLeft(a, x, lo, hi);
      (forall i :: lo <= i < r ==> Lt(a[i], x)) && (forall i :: r <= i < hi ==> Le(x, a[i]))
    decreases hi - lo
  {
    if lo < hi {
      var mid := (lo + hi) / 2;
      if Lt(a[mid], x) {
        BisectLeftSplits(a, x, mid + 1, hi);
        BelowUpTo(a, x, lo, mid);
      } else {
        BisectLeftSplits(a, x, lo, mid);
        AtLeastFrom(a, x, mid, hi);
      }
    }
  }

  lemma AboveFrom(a: seq<string>, x: string, mid: nat, hi: nat)
    requires mid < hi <= |a| && Sorted(a) && Lt(x, a[mid])
    ensures forall i :: mid <= i < hi ==> Lt(x, a[i])
  {
    forall i | mid < i < hi ensures Lt(x, a[i]) {
      LtLeTransitive(x, a[mid], a[i]);
    }
  }

  lemma AtLeastFrom(a: seq<string>, x: string, mid: nat, hi: nat)
    requires mid < hi <= |a| && Sorted(a) && Le(x, a[mid])
    ensures forall i :: mid <= i < hi ==> Le(x, a[i])
  {
    forall i | mid < i < hi ensures Le(x, a[i]) {
      LeTransitive(x, a[mid], a[i]);
    }
  }

  lemma AtMostUpTo(a: seq<string>, x: string, lo: nat, mid: nat)
    requires lo <= mid < |a| && Sorted(a) && Le(a[mid], x)
    ensures forall i :: lo <= i <= mid ==> Le(a[i], x)
  {
    forall i | lo <= i < mid ensures Le(a[i], x) {
      LeTransitive(a[i], a[mid], x);
    }
  }

  lemma BelowUpTo(a: seq<string>, x: string, lo: nat, mid: nat)
    requires lo <= mid < |a| && Sorted(a) && Lt(a[mid], x)
    ensures forall i :: lo <= i <= mid ==> Lt(a[i], x)
  {
    forall i | lo <= i < mid ensures Lt(a[i], x) {
      LeLtTransitive(a[i], a[mid], x);
    }
  }
}
