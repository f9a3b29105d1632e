/** Python's ordering of `str` values (code point by code point, a proper prefix
    before every longer string) and `sorted(set(xs), reverse=True)` built on it. */
module StringOrder {

  /** `a` and `b` agree on their first `k` characters, and there `a` either ends or has
      the smaller character while `b` goes on. */
  ghost predicate DiffersFirstAt(a: string, b: string, k: int)
  {
    0 <= k <= |a| && k < |b| && a[..k] == b[..k] && (k == |a| || a[k] < b[k])
  }

  /** `a < b` on Python strings: `a` is below `b` exactly when, at the first position
      where they differ, `a` has ended or has the smaller code point. */
  predicate Less(a: string, b: string)
    ensures Less(a, b) <==> exists k :: DiffersFirstAt(a, b, k)
    decreases |a|
  {
    if |b| == 0 then false
    else if |a| == 0 then
      assert DiffersFirstAt(a, b, 0);
      true
    else if a[0] != b[0] then
      assert a[0] < b[0] ==> DiffersFirstAt(a, b, 0);
      assert forall k :: DiffersFirstAt(a, b, k) ==> k == 0;
      a[0] < b[0]
    else
      var r := Less(a[1..], b[1..]);
      assert forall k :: DiffersFirstAt(a, b, k) ==> DiffersFirstAt(a[1..], b[1..], k - 1) by {
        forall k | DiffersFirstAt(a, b, k) ensures DiffersFirstAt(a[1..], b[1..], k - 1) {
          assert a[1..][..k - 1] == a[..k][1..] && b[1..][..k - 1] == b[..k][1..];
        }
      }
      assert forall k :: DiffersFirstAt(a[1..], b[1..], k) ==> DiffersFirstAt(a, b, k + 1) by {
        forall k | DiffersFirstAt(a[1..], b[1..], k) ensures DiffersFirstAt(a, b, k + 1) {
          assert a[..k + 1] == [a[0]] + a[1..][..k] && b[..k + 1] == [b[0]] + b[1..][..k];
        }
      }
      r
  }

  lemma {:induction false} LessIrreflexive(a: string)
    ensures !Less(a, a)
    decreases |a|
  {
    if |a| > 0 {
      LessIrreflexive(a[1..]);
    }
  }

  lemma {:induction false} LessTransitive(a: string, b: string, c: string)
    requires Less(a, b) && Less(b, c)
    ensures Less(a, c)
    decreases |a|
  {
    if |a| > 0 && a[0] == b[0] && b[0] == c[0] {
      LessTransitive(a[1..], b[1..], c[1..]);
    }
  }

  lemma {:induction false} LessTotal(a: string, b: string)
    ensures a == b || Less(a, b) || Less(b, a)
    decreases |a|
  {
    if |a| > 0 && |b| > 0 && a[0] == b[0] {
      LessTotal(a[1..], b[1..]);
      assert a == [a[0]] + a[1..] && b == [b[0]] + b[1..];
    }
  }

  lemma LessAsymmetric(a: string, b: string)
    requires Less(a, b)
    ensures !Less(b, a)
  {
  }

  /** Every element is larger than every later one. */
  ghost predicate StrictlyDescending(s: seq<string>)
  {
    forall i, j :: 0 <= i < j < |s| ==> Less(s[j], s[i])
  }

  ghost predicate Distinct<T>(s: seq<T>)
  {
    forall i, j :: 0 <= i < j < |s| ==> s[i] != s[j]
  }

  function Elements<T>(s: seq<T>): set<T>
  {
    set x | x in s
  }

  /** Inserts `x` into a strictly descending list, leaving it alone if `x` is there. */
  function Insert(x: string, s: seq<string>): (r: seq<string>)
    requires StrictlyDescending(s)
    ensures StrictlyDescending(r)
    ensures forall e :: e in r <==> e == x || e in s
  {
    if s == [] then [x]
    else if x == s[0] then s
    else if Less(s[0], x) then
      forall j | 0 < j < |s| ensures Less(s[j], x) {
        LessTransitive(s[j], s[0], x);
      }
      [x] + s
    else
      LessTotal(x, s[0]);
      var tail := Insert(x, s[1..]);
      assert forall e :: e in tail ==> Less(e, s[0]) by {
        forall e | e in tail ensures Less(e, s[0]) {
          if e != x {
            var j :| 0 <= j < |s[1..]| && s[1..][j] == e;
            assert s[j + 1] == e;
          }
        }
      }
      [s[0]] + tail
  }

  /** `sorted(set(xs), reverse=True)`. */
  function SortedDistinctDesc(xs: seq<string>): (r: seq<string>)
    ensures StrictlyDescending(r)
    ensures forall e :: e in r <==> e in xs
  {
    if xs == [] then []
    else
      var r := Insert(xs[0], SortedDistinctDesc(xs[1..]));
      assert forall e :: e in xs <==> e == xs[0] || e in xs[1..] by {
        assert xs == [xs[0]] + xs[1..];
      }
      r
  }

  lemma DescendingIsDistinct(s: seq<string>)
    requires StrictlyDescending(s)
    ensures Distinct(s)
  {
    forall i, j | 0 <= i < j < |s| ensures s[i] != s[j] {
      if s[i] == s[j] {
        LessIrreflexive(s[i]);
      }
    }
  }

  /** A strictly descending list is determined by its elements: `SortedDistinctDesc`
      is THE descending enumeration of the set it is given. */
  lemma {:induction false} DescendingUnique(s: seq<string>, t: seq<string>)
    requires StrictlyDescending(s) && StrictlyDescending(t)
    requires Elements(s) == Elements(t)
    ensures s == t
  {
    assert s != [] ==> s[0] in Elements(s);
    assert t != [] ==> t[0] in Elements(t);
    if s != [] && t != [] {
      assert s[0] in Elements(t) && t[0] in Elements(s);
      if s[0] != t[0] {
        var i :| 0 <= i < |t| && t[i] == s[0];
        var j :| 0 <= j < |s| && s[j] == t[0];
        assert Less(s[0], t[0]);
        assert Less(t[0], s[0]);
        LessAsymmetric(s[0], t[0]);
      }
      DescendingIsDistinct(s);
      DescendingIsDistinct(t);
      forall e ensures e in Elements(s[1..]) <==> e in Elements(t[1..]) {
        if e in Elements(s[1..]) {
          var i :| 0 <= i < |s| - 1 && s[1..][i] == e;
          assert e in Elements(t) && e != t[0];
          var k :| 0 <= k < |t| && t[k] == e;
          assert t[1..][k - 1] == e;
        }
        if e in Elements(t[1..]) {
          var i :| 0 <= i < |t| - 1 && t[1..][i] == e;
          assert e in Elements(s) && e != s[0];
          var k :| 0 <= k < |s| && s[k] == e;
          assert s[1..][k - 1] == e;
        }
      }
      DescendingUnique(s[1..], t[1..]);
      assert s == [s[0]] + s[1..] && t == [t[0]] + t[1..];
    }
  }

  /** A list without repeats has as many elements as its set. */
  lemma {:induction false} DistinctCard<T>(s: seq<T>)
    requires Distinct(s)
    ensures |Elements(s)| == |s|
  {
    if s != [] {
      DistinctCard(s[1..]);
      assert Elements(s) == {s[0]} + Elements(s[1..]) by {
        assert s == [s[0]] + s[1..];
      }
      assert s[0] !in Elements(s[1..]);
    }
  }
}
