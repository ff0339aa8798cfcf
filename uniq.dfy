/** First occurrences in a sequence: the row indices `np.unique(xs, return_index=True)[1]`
    yields once sorted ascending, and the distinct values in first-occurrence order that
    repeated `new_df[name] = ...` assignments leave behind. */
module Uniq {
  import opened Frame

  /** Row `i` is where the value `s[i]` appears for the first time. */
  predicate IsFirst<T(==)>(s: seq<T>, i: int) {
    0 <= i < |s| && forall k :: 0 <= k < i ==> s[k] != s[i]
  }

  predicate Increasing(s: seq<int>) {
    forall i, j :: 0 <= i < j < |s| ==> s[i] < s[j]
  }

  /** An ascending sequence is fixed by the values it holds. */
  lemma {:induction false} IncreasingUnique(a: seq<int>, b: seq<int>)
    requires Increasing(a) && Increasing(b)
    requires forall x :: x in a <==> x in b
    ensures a == b
    decreases |a|
  {
    assert a != [] ==> a[0] in a;
    assert b != [] ==> b[0] in b;
    if a != [] {
      assert a[0] == b[0] by {
        assert a[0] in b && b[0] in a;
        var i :| 0 <= i < |b| && b[i] == a[0];
        var j :| 0 <= j < |a| && a[j] == b[0];
        assert b[0] <= b[i] && a[0] <= a[j];
      }
      forall x ensures x in a[1..] <==> x in b[1..] {
        if x in a[1..] {
          var i :| 1 <= i < |a| && a[i] == x;
          assert a[0] < x && x in a;
          var j :| 0 <= j < |b| && b[j] == x;
          assert j != 0;
          assert b[1..][j - 1] == x;
        }
        if x in b[1..] {
          var j :| 1 <= j < |b| && b[j] == x;
          assert b[0] < x && x in b;
          var i :| 0 <= i < |a| && a[i] == x;
          assert i != 0;
          assert a[1..][i - 1] == x;
        }
      }
      IncreasingUnique(a[1..], b[1..]);
      assert a == [a[0]] + a[1..] && b == [b[0]] + b[1..];
    }
  }

  /** The set of values occurring in `s`. */
  function Elems<T(==)>(s: seq<T>): set<T> {
    set i | 0 <= i < |s| :: s[i]
  }

  /** The first-occurrence rows of `s`, ascending. */
  function FirstIdx<T(==)>(s: seq<T>): (r: seq<int>)
    ensures Increasing(r)
    ensures forall k :: 0 <= k < |r| ==> 0 <= r[k] < |s|
    ensures forall i :: i in r <==> IsFirst(s, i)
    decreases |s|
  {
    if s == [] then []
    else
      var p := s[..|s| - 1];
      assert forall i :: 0 <= i < |p| ==> (IsFirst(p, i) <==> IsFirst(s, i));
      FirstIdx(p) + (if IsFirst(s, |s| - 1) then [|s| - 1] else [])
  }

  lemma ElemsSnoc<T>(s: seq<T>, x: T)
    ensures Elems(s + [x]) == Elems(s) + {x}
  {
    var t := s + [x];
    forall y | y in Elems(t) ensures y in Elems(s) + {x} {
      var i :| 0 <= i < |t| && t[i] == y;
      if i < |s| { assert s[i] == y; }
    }
    forall y | y in Elems(s) ensures y in Elems(t) {
      var i :| 0 <= i < |s| && s[i] == y;
      assert t[i] == y;
    }
    assert t[|s|] == x;
  }

  /** One first-occurrence row per distinct value. */
  lemma {:induction false} FirstIdxCount<T>(s: seq<T>)
    ensures |FirstIdx(s)| == |Elems(s)|
    decreases |s|
  {
    if s != [] {
      var p := s[..|s| - 1];
      var x := s[|s| - 1];
      assert s == p + [x];
      FirstIdxCount(p);
      ElemsSnoc(p, x);
      if IsFirst(s, |s| - 1) {
        forall i | 0 <= i < |p| ensures p[i] != x {
          assert s[i] == p[i];
        }
        assert x !in Elems(p);
      } else {
        var k :| 0 <= k < |p| && s[k] == x;
        assert p[k] == x;
        assert x in Elems(p);
      }
    }
  }

  /** The distinct values of `s`, in the order they first appear. */
  function Dedup<T(==, !new)>(s: seq<T>): (r: seq<T>)
    ensures Distinct(r)
    ensures forall x :: x in r <==> x in s
    decreases |s|
  {
    if s == [] then []
    else
      var p := s[..|s| - 1];
      var x := s[|s| - 1];
      var d := Dedup(p);
      assert IsFirst(s, |s| - 1) ==> x !in d by {
        if IsFirst(s, |s| - 1) {
          forall j | 0 <= j < |d| ensures d[j] != x {
            assert d[j] in p;
            var k :| 0 <= k < |p| && p[k] == d[j];
            assert s[k] == d[j];
          }
        }
      }
      assert !IsFirst(s, |s| - 1) ==> x in d by {
        if !IsFirst(s, |s| - 1) {
          var k :| 0 <= k < |s| - 1 && s[k] == x;
          assert p[k] == x;
        }
      }
      assert forall i :: 0 <= i < |p| ==> s[i] == p[i];
      d + (if IsFirst(s, |s| - 1) then [x] else [])
  }

  /** `Dedup` reads off the values at the `FirstIdx` rows, one for one. */
  lemma {:induction false} DedupAtFirstIdx<T(!new)>(s: seq<T>)
    ensures |Dedup(s)| == |FirstIdx(s)|
    ensures forall j :: 0 <= j < |Dedup(s)| ==> Dedup(s)[j] == s[FirstIdx(s)[j]]
    decreases |s|
  {
    if s != [] {
      var p := s[..|s| - 1];
      DedupAtFirstIdx(p);
      var f := FirstIdx(p);
      forall j | 0 <= j < |f| ensures s[f[j]] == p[f[j]] { }
    }
  }

  /** Appending one element extends `Dedup` by that element exactly when it is new. */
  lemma DedupSnoc<T(!new)>(s: seq<T>, n: nat)
    requires n < |s|
    ensures Dedup(s[..n + 1]) == Dedup(s[..n]) + (if IsFirst(s, n) then [s[n]] else [])
  {
    assert s[..n + 1][..n] == s[..n];
    assert IsFirst(s[..n + 1], n) <==> IsFirst(s, n);
  }

  /** The element at row `n` was seen before exactly when it is not a first occurrence. */
  lemma InDedupPrefix<T(!new)>(s: seq<T>, n: nat)
    requires n < |s|
    ensures s[n] in Dedup(s[..n]) <==> !IsFirst(s, n)
  {
  }
}
