/** Python 2 string operations the storage and rendering code relies on. */
module Text {

  import opened Base

  /** Python's `a < b` on strings: lexicographic by character, a proper prefix first. */
  predicate Lt(a: string, b: string)
    decreases |a|
  {
    if b == [] then false
    else if a == [] then true
    else if a[0] != b[0] then a[0] < b[0]
    else Lt(a[1..], b[1..])
  }

  /** Python's `a <= b` on strings. */
  predicate Le(a: string, b: string) {
    !Lt(b, a)
  }

  lemma {:induction false} LtIrreflexive(a: string)
    ensures !Lt(a, a)
  {
    if a != [] {
      LtIrreflexive(a[1..]);
    }
  }

  lemma {:induction false} LtTransitive(a: string, b: string, c: string)
    requires Lt(a, b) && Lt(b, c)
    ensures Lt(a, c)
    decreases |a|
  {
    if a != [] && a[0] == b[0] && b[0] == c[0] {
      LtTransitive(a[1..], b[1..], c[1..]);
    }
  }

  lemma {:induction false} LtTotal(a: string, b: string)
    ensures a == b || Lt(a, b) || Lt(b, a)
    decreases |a|
  {
    if a != [] && b != [] && a[0] == b[0] {
      LtTotal(a[1..], b[1..]);
      if a[1..] == b[1..] {
        assert a == [a[0]] + a[1..] && b == [b[0]] + b[1..];
      }
    }
  }

  /** `<=` is `<` or equality, as for any strict total order. */
  lemma LeIsLtOrEqual(a: string, b: string)
    ensures Le(a, b) <==> (Lt(a, b) || a == b)
  {
    LtTotal(a, b);
    LtIrreflexive(a);
    if Lt(a, b) && Lt(b, a) {
      LtTransitive(a, b, a);
    }
  }

  lemma LeLtTransitive(a: string, b: string, c: string)
    requires Le(a, b) && Lt(b, c)
    ensures Lt(a, c)
  {
    LeIsLtOrEqual(a, b);
    if a != b {
      LtTransitive(a, b, c);
    }
  }

  lemma LtLeTransitive(a: string, b: string, c: string)
    requires Lt(a, b) && Le(b, c)
    ensures Lt(a, c)
  {
    LeIsLtOrEqual(b, c);
    if b != c {
      LtTransitive(a, b, c);
    }
  }

  lemma LeTransitive(a: string, b: string, c: string)
    requires Le(a, b) && Le(b, c)
    ensures Le(a, c)
  {
    LeIsLtOrEqual(a, b);
    LeIsLtOrEqual(b, c);
    LeIsLtOrEqual(a, c);
    if a != b && b != c {
      LtTransitive(a, b, c);
    }
  }

  /** Python's `s.startswith(p)`. */
  predicate StartsWith(s: string, p: string) {
    |p| <= |s| && s[..|p|] == p
  }

  /** A string is never smaller than any of its prefixes. */
  lemma {:induction false} PrefixIsLeast(x: string, p: string)
    requires StartsWith(x, p)
    ensures Le(p, x)
    decreases |p|
  {
    if p != [] {
      assert x[0] == p[0];
      assert x[1..][..|p| - 1] == p[1..];
      PrefixIsLeast(x[1..], p[1..]);
    }
  }

  /** Once a string at or after `p` does not start with `p`, every string that
      does start with `p` sorts before it: the strings with prefix `p` form one run. */
  lemma {:induction false} PastPrefixRun(p: string, k: string, x: string)
    requires Le(p, k) && !StartsWith(k, p) && StartsWith(x, p)
    ensures Lt(x, k)
    decreases |p|
  {
    assert p != [];
    assert k != [];
    assert x[0] == p[0];
    if k[0] == p[0] {
      assert x[1..][..|p| - 1] == p[1..];
      PastPrefixRun(p[1..], k[1..], x[1..]);
    }
  }

  /** Strings that start with `p` cannot be separated by one that does not. */
  lemma PrefixRunIsContiguous(p: string, a: string, b: string, c: string)
    requires StartsWith(a, p) && StartsWith(c, p) && Le(a, b) && Le(b, c)
    ensures StartsWith(b, p)
  {
    if !StartsWith(b, p) {
      PrefixIsLeast(a, p);
      LeTransitive(p, a, b);
      PastPrefixRun(p, b, c);
      LtIrreflexive(b);
      LtLeTransitive(c, b, c);
      LtIrreflexive(c);
    }
  }

  /** Python's `t in s` for strings: `t` occurs somewhere in `s`. */
  predicate Contains(s: string, t: string)
    decreases |s|
  {
    StartsWith(s, t) || (s != [] && Contains(s[1..], t))
  }

  /** A string none of whose characters opens `t` does not contain `t`. */
  lemma {:induction false} FirstCharAbsent(s: string, t: string)
    requires t != [] && t[0] !in s
    ensures !Contains(s, t)
    decreases |s|
  {
    if s != [] {
      assert s[1..] == s[1..] && forall c :: c in s[1..] ==> c in s;
      FirstCharAbsent(s[1..], t);
    }
  }

  /** `t` occurs in `s` starting at index `i`. */
  predicate OccursAt(s: string, t: string, i: int) {
    0 <= i <= |s| - |t| && s[i..i + |t|] == t
  }

  lemma {:induction false} ContainsAt(s: string, t: string)
    ensures Contains(s, t) <==> exists i :: OccursAt(s, t, i)
    decreases |s|
  {
    if StartsWith(s, t) {
      assert OccursAt(s, t, 0);
    }
    if s == [] {
      if exists i :: OccursAt(s, t, i) {
        var i :| OccursAt(s, t, i);
        assert s[..|t|] == t;
      }
    } else {
      ContainsAt(s[1..], t);
      if exists i :: OccursAt(s, t, i) {
        var i :| OccursAt(s, t, i);
        if i > 0 {
          assert OccursAt(s[1..], t, i - 1) by {
            assert s[1..][i - 1..i - 1 + |t|] == s[i..i + |t|];
          }
        } else {
          assert s[..|t|] == t;
        }
      }
      if Contains(s[1..], t) {
        var j :| OccursAt(s[1..], t, j);
        assert OccursAt(s, t, j + 1) by {
          assert s[1..][j..j + |t|] == s[j + 1..j + 1 + |t|];
        }
      }
      if StartsWith(s, t) {
        assert OccursAt(s, t, 0);
      }
    }
  }

  /** Python's `s.split('/')[-1]`: what follows the last '/', or all of `s`. */
  function LastSegment(s: string): string
    decreases |s|
  {
    if s == [] then []
    else if s[|s| - 1] == '/' then []
    else LastSegment(s[..|s| - 1]) + [s[|s| - 1]]
  }

  /** `LastSegment(s)` is the suffix of `s` after its last `/` (all of `s` when it has none). */
  lemma LastSegmentIsSuffix(s: string)
    ensures var r := LastSegment(s);
      && '/' !in r
      && |r| <= |s| && r == s[|s| - |r|..]
      && (r == s || s[|s| - |r| - 1] == '/')
  {
    LastSegmentHasNoSlash(s);
    LastSegmentIsTail(s);
    LastSegmentFollowsSlash(s);
  }

  /** `os.path.join(a, c)`: an absolute component restarts the path, otherwise it is appended
      after a `/` unless the path is empty or already ends with one. */
  function PathJoin(a: string, c: string): string {
    if c != [] && c[0] == '/' then c
    else if a == [] || a[|a| - 1] == '/' then a + c
    else a + "/" + c
  }

  /** The segment after a `/` that is followed by no other `/` is what follows it. */
  lemma {:induction false} LastSegmentOfJoin(a: string, o: string)
    requires '/' !in o
    ensures LastSegment(a + "/" + o) == o
    decreases |o|
  {
    var s := a + "/" + o;
    if o != [] {
      var init := o[..|o| - 1];
      assert s[..|s| - 1] == a + "/" + init;
      assert s[|s| - 1] == o[|o| - 1];
      LastSegmentOfJoin(a, init);
      assert o == init + [o[|o| - 1]];
    }
  }

  lemma {:induction false} LastSegmentHasNoSlash(s: string)
    ensures '/' !in LastSegment(s)
    decreases |s|
  {
    if s != [] && s[|s| - 1] != '/' {
      LastSegmentHasNoSlash(s[..|s| - 1]);
    }
  }

  lemma {:induction false} LastSegmentIsTail(s: string)
    ensures |LastSegment(s)| <= |s| && LastSegment(s) == s[|s| - |LastSegment(s)|..]
    decreases |s|
  {
    if s != [] && s[|s| - 1] != '/' {
      var init, c := s[..|s| - 1], s[|s| - 1];
      LastSegmentIsTail(init);
      var rest := LastSegment(init);
      assert LastSegment(s) == rest + [c];
      var n := |init| - |rest|;
      assert s[n..] == init[n..] + [c];
    }
  }

  lemma {:induction false} LastSegmentFollowsSlash(s: string)
    ensures LastSegment(s) == s || (|LastSegment(s)| < |s| && s[|s| - |LastSegment(s)| - 1] == '/')
    decreases |s|
  {
    if s != [] && s[|s| - 1] != '/' {
      var init, c := s[..|s| - 1], s[|s| - 1];
      LastSegmentFollowsSlash(init);
      LastSegmentIsTail(init);
      var rest := LastSegment(init);
      assert LastSegment(s) == rest + [c];
      var n := |init| - |rest|;
      if rest != init {
        assert s[n - 1] == init[n - 1];
      } else {
        assert s == init + [c];
      }
    }
  }

  function DigitChar(d: nat): char
    requires d < 10
  {
    "0123456789"[d]
  }

  predicate IsDigit(c: char) {
    '0' <= c <= '9'
  }

  /** Python's `str(n)` for a natural number: decimal digits, no leading zeros. */
  function NatToString(n: nat): (r: string)
    ensures |r| >= 1
    ensures forall i :: 0 <= i < |r| ==> IsDigit(r[i])
    ensures n > 0 ==> r[0] != '0'
    decreases n
  {
    if n < 10 then [DigitChar(n)] else NatToString(n / 10) + [DigitChar(n % 10)]
  }

  /** Python's `str(i)` for an integer. */
  function IntToString(i: int): string {
    if i < 0 then "-" + NatToString(-i) else NatToString(i)
  }

  function DigitsValue(s: string): nat
    requires forall i :: 0 <= i < |s| ==> IsDigit(s[i])
    decreases |s|
  {
    if s == [] then 0
    else
      assert IsDigit(s[|s| - 1]);
      DigitsValue(s[..|s| - 1]) * 10 + (s[|s| - 1] as int - '0' as int)
  }

  predicate AllDigits(s: string) {
    s != [] && forall i :: 0 <= i < |s| ==> IsDigit(s[i])
  }

  /** Python's `int(s)` on an optionally signed (`-` or `+`) run of ASCII decimal digits. */
  function ParseInt(s: string): Option<int> {
    if s != [] && s[0] == '-' then
      if AllDigits(s[1..]) then Some(-(DigitsValue(s[1..]) as int)) else None
    else if s != [] && s[0] == '+' then
      if AllDigits(s[1..]) then Some(DigitsValue(s[1..]) as int) else None
    else if AllDigits(s) then Some(DigitsValue(s) as int) else None
  }

  /** A leading `+` changes nothing: `int("+" + d) == int(d)` for a digit run `d`. */
  lemma PlusSignIgnored(d: string)
    requires AllDigits(d)
    ensures ParseInt("+" + d) == ParseInt(d)
  {
    assert ("+" + d)[1..] == d;
    assert d[0] != '-' && d[0] != '+' by { assert IsDigit(d[0]); }
  }

  lemma {:induction false} NatToStringValue(n: nat)
    ensures DigitsValue(NatToString(n)) == n
    decreases n
  {
    if n >= 10 {
      NatToStringValue(n / 10);
      var r := NatToString(n);
      assert r[..|r| - 1] == NatToString(n / 10);
    }
  }

  /** `int(str(i)) == i`: the decimal rendering of an integer loses nothing. */
  lemma IntToStringRoundTrip(i: int)
    ensures ParseInt(IntToString(i)) == Some(i)
  {
    var s := IntToString(i);
    if i < 0 {
      var d := NatToString(-i);
      assert s == "-" + d && s[0] == '-' && s[1..] == d;
      assert AllDigits(d);
      NatToStringValue(-i);
    } else {
      assert AllDigits(s);
      assert s[0] != '-' by { assert IsDigit(s[0]); }
      NatToStringValue(i);
    }
  }
}
