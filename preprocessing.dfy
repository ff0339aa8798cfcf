/** The feature derivations of `function/preprocessing.py`: the shortest-angle yaw error,
    the waypoint segment boundaries and the projection of a table onto named columns. */
module Preprocessing {
  import opened Frame
  import opened Uniq

  // ---------------------------------------------------------------------------
  // Yaw error (yaw_error_corrected)
  // ---------------------------------------------------------------------------

  function Abs(x: real): real {
    if x < 0.0 then -x else x
  }

  /** A heading of 180 degrees or more loses one full turn; it is one subtraction, not a
      reduction modulo 360. */
  function Normalize(x: real): (r: real)
    ensures r == x || r == x - 360.0
    ensures r == x <==> x < 180.0
    ensures 0.0 <= x < 360.0 ==> -180.0 <= r < 180.0
  {
    if x >= 180.0 then x - 360.0 else x
  }

  /** The other way round the circle: a non-positive difference gains a turn, a positive
      one loses a turn. */
  function Wrapped(raw: real): (alt: real)
    ensures alt == raw + 360.0 || alt == raw - 360.0
    ensures alt == raw + 360.0 <==> raw <= 0.0
  {
    if raw <= 0.0 then raw + 360.0 else raw - 360.0
  }

  /** Of the direct and the wrapped difference, the one of smaller magnitude; on a tie the
      direct one. */
  function Shortest(raw: real): (e: real)
    ensures e == raw || e == Wrapped(raw)
    ensures Abs(e) <= Abs(raw) && Abs(e) <= Abs(Wrapped(raw))
    ensures e == raw <== Abs(raw) <= Abs(Wrapped(raw))
    ensures e == Wrapped(raw) <== Abs(raw) > Abs(Wrapped(raw))
  {
    var alt := Wrapped(raw);
    if Abs(raw) <= Abs(alt) then raw else alt
  }

  /** The yaw error of one row, from its heading `psi` and reference heading `yawReff`:
      of the difference of the normalised headings and that difference taken the other way
      round the circle, the one of smaller magnitude. */
  function YawError(psi: real, yawReff: real): (e: real)
    ensures var direct := Normalize(psi) - Normalize(yawReff);
            && (e == direct || e == Wrapped(direct))
            && Abs(e) <= Abs(direct) && Abs(e) <= Abs(Wrapped(direct))
  {
    Shortest(Normalize(psi) - Normalize(yawReff))
  }

  /** The number of whole turns between the yaw error and the plain difference
      `psi - yawReff`: the yaw error is that difference modulo 360. */
  function Turns(psi: real, yawReff: real): (k: int)
    ensures -2 <= k <= 2
    ensures YawError(psi, yawReff) == psi - yawReff + 360.0 * k as real
  {
    var raw := Normalize(psi) - Normalize(yawReff);
    (if psi >= 180.0 then -1 else 0) - (if yawReff >= 180.0 then -1 else 0)
      + (if Shortest(raw) == raw then 0 else if raw <= 0.0 then 1 else -1)
  }

  /** Headings in [0, 360) give a yaw error within [-180, 180]. */
  lemma YawErrorInRange(psi: real, yawReff: real)
    requires 0.0 <= psi < 360.0 && 0.0 <= yawReff < 360.0
    ensures -180.0 <= YawError(psi, yawReff) <= 180.0
  {
  }

  /** Headings in [0, 360) give a yaw error no larger in magnitude than any other
      representative `psi - yawReff + 360 k` of the same angle. */
  lemma YawErrorShortest(psi: real, yawReff: real, k: int)
    requires 0.0 <= psi < 360.0 && 0.0 <= yawReff < 360.0
    ensures Abs(YawError(psi, yawReff)) <= Abs(psi - yawReff + 360.0 * k as real)
  {
  }

  /** Both ends of the range occur: the tie rule keeps the direct difference. */
  lemma YawErrorBothEnds()
    ensures YawError(180.0, 0.0) == -180.0
    ensures YawError(0.0, 180.0) == 180.0
    ensures YawError(10.0, 350.0) == 20.0
    ensures YawError(190.0, 0.0) == -170.0
  {
  }

  /** The normalisation loops of `yaw_error_corrected`: subtract 360 in place from every
      heading of 180 or more. */
  method NormalizeHeadings(a: array<real>)
    modifies a
    ensures forall i :: 0 <= i < a.Length ==> a[i] == Normalize(old(a[i]))
  {
    for row := 0 to a.Length
      invariant forall i :: 0 <= i < row ==> a[i] == Normalize(old(a[i]))
      invariant forall i :: row <= i < a.Length ==> a[i] == old(a[i])
    {
      if a[row] >= 180.0 {
        a[row] := a[row] - 360.0;
      }
    }
  }

  /** `yaw_error_corrected`: normalise `psi` and `yaw_reff` in place, then compute one
      yaw error per row into a fresh column. */
  method YawErrorCorrected(psi: array<real>, yawReff: array<real>) returns (yawError: array<real>)
    requires psi.Length == yawReff.Length
    requires psi != yawReff
    modifies psi, yawReff
    ensures fresh(yawError) && yawError.Length == psi.Length
    ensures forall i :: 0 <= i < psi.Length ==> psi[i] == Normalize(old(psi[i]))
    ensures forall i :: 0 <= i < yawReff.Length ==> yawReff[i] == Normalize(old(yawReff[i]))
    ensures forall i :: 0 <= i < yawError.Length ==> yawError[i] == YawError(old(psi[i]), old(yawReff[i]))
  {
    NormalizeHeadings(psi);
    NormalizeHeadings(yawReff);
    var n := psi.Length;
    var mye1 := new real[n](i reads psi, yawReff => if 0 <= i < n then psi[i] - yawReff[i] else 0.0);
    var mye2 := new real[n];
    var mye := new real[n];
    for row := 0 to n
      modifies mye2, mye
      invariant forall i :: 0 <= i < row ==> mye2[i] == Wrapped(mye1[i]) && mye[i] == Shortest(mye1[i])
    {
      if mye1[row] <= 0.0 {
        mye2[row] := mye1[row] + 360.0;
      } else {
        mye2[row] := mye1[row] - 360.0;
      }
      if Abs(mye1[row]) <= Abs(mye2[row]) {
        mye[row] := mye1[row];
      } else {
        mye[row] := mye2[row];
      }
    }
    yawError := mye;
  }

  // ---------------------------------------------------------------------------
  // Waypoint boundaries (index_wp)
  // ---------------------------------------------------------------------------

  /** Python's `list.insert(i, x)` for a non-negative position: the element lands at `i`, and past the end it is appended. */
  function ListInsert<T>(s: seq<T>, i: nat, x: T): (r: seq<T>)
    ensures |r| == |s| + 1
    ensures i >= |s| ==> r == s + [x]
    ensures i < |s| ==> r[..i] == s[..i] && r[i] == x && r[i + 1..] == s[i..]
  {
    if i >= |s| then s + [x] else s[..i] + [x] + s[i..]
  }

  /** The rows where every waypoint segment but the first begins, followed by the row
      count; empty for an empty table. */
  function WaypointBoundaries(numWp: seq<real>): (r: seq<int>)
    ensures r == [] <==> numWp == []
    ensures Increasing(r)
    ensures r != [] ==> r[|r| - 1] == |numWp|
    ensures forall k :: 0 <= k < |r| ==> 0 < r[k] <= |numWp|
    ensures forall i :: i in r <==> (0 < i < |numWp| && IsFirst(numWp, i)) || (0 < i == |numWp|)
  {
    if numWp == [] then []
    else
      var f := FirstIdx(numWp);
      assert IsFirst(numWp, 0);
      assert f[0] == 0 by {
        var k :| 0 <= k < |f| && f[k] == 0;
        assert f[0] <= f[k];
      }
      var r := f[1..] + [|numWp|];
      assert forall k :: 0 <= k < |f| - 1 ==> f[1..][k] == f[k + 1];
      assert forall i :: i in f[1..] <==> i in f && i != 0 by {
        forall i ensures i in f[1..] <==> i in f && i != 0 {
          if i in f && i != 0 {
            var k :| 0 <= k < |f| && f[k] == i;
            assert f[1..][k - 1] == i;
          }
        }
      }
      r
  }

  /** One boundary per distinct waypoint id. */
  lemma WaypointBoundariesCount(numWp: seq<real>)
    ensures |WaypointBoundaries(numWp)| == |Elems(numWp)|
  {
    FirstIdxCount(numWp);
    if numWp != [] {
      assert IsFirst(numWp, 0);
      assert 0 in FirstIdx(numWp);
    }
  }

  /** A single waypoint id makes one segment, closed by the row count. */
  lemma SingleWaypoint(numWp: seq<real>)
    requires numWp != []
    requires forall i :: 0 <= i < |numWp| ==> numWp[i] == numWp[0]
    ensures WaypointBoundaries(numWp) == [|numWp|]
  {
    var r := WaypointBoundaries(numWp);
    assert forall i :: 0 < i < |numWp| ==> !IsFirst(numWp, i);
    assert forall k :: 0 <= k < |r| ==> r[k] in r;
    assert forall k :: 0 <= k < |r| ==> r[k] == |numWp|;
  }

  /** Seven rows over waypoints 1, 2, 3: segments begin at rows 2 and 5, then the end. */
  lemma WaypointBoundariesExample(s: seq<real>)
    requires s == [1.0, 1.0, 2.0, 2.0, 2.0, 3.0, 3.0]
    ensures WaypointBoundaries(s) == [2, 5, 7]
  {
    var r := WaypointBoundaries(s);
    forall i | 0 < i < 7 ensures IsFirst(s, i) <==> i == 2 || i == 5 {
      if !(i == 2 || i == 5) {
        assert s[i - 1] == s[i];
      }
    }
    assert forall x :: x in r <==> x in [2, 5, 7];
    IncreasingUnique(r, [2, 5, 7]);
  }

  /** `index_wp`: the first-occurrence rows of `num_wp`, ascending, with the row count
      inserted at the end and the leading row 0 popped. */
  method IndexWp(numWp: seq<real>) returns (indexes: seq<int>)
    ensures indexes == WaypointBoundaries(numWp)
  {
    // np.unique(num_wp, return_index=True)[1] followed by sort()
    var indexesX := FirstIdx(numWp);
    indexesX := ListInsert(indexesX, |indexesX| + 1, |numWp|);
    // pop(0)
    indexesX := indexesX[1..];
    indexes := indexesX;
    if numWp != [] {
      assert IsFirst(numWp, 0);
      var f := FirstIdx(numWp);
      assert f != [];
    }
  }

  // ---------------------------------------------------------------------------
  // Column projection (df_to_array)
  // ---------------------------------------------------------------------------

  /** After the first `n` assignments of `df_to_array`, the new table holds the distinct
      names of `list[..n]` in first-occurrence order, each with its column from `d`. */
  ghost predicate Projected(list: seq<string>, n: nat, d: map<string, seq<Cell>>,
                            names: seq<string>, nd: map<string, seq<Cell>>)
  {
    && n <= |list|
    && (forall k :: 0 <= k < n ==> list[k] in d)
    && names == Dedup(list[..n])
    && (forall c :: c in nd <==> c in names)
    && (forall c :: c in nd ==> c in d && nd[c] == d[c])
  }

  /** `m` has one row per table row (none when `list` is empty) and one column per
      distinct name of `list`, in first-occurrence order, each read from `d`. */
  predicate IsProjection(d: map<string, seq<Cell>>, rows: nat, list: seq<string>, m: seq<seq<Cell>>) {
    var cols := Dedup(list);
    && |m| == (if list == [] then 0 else rows)
    && (forall r :: 0 <= r < |m| ==> |m[r]| == |cols|)
    && (forall r, j :: 0 <= r < |m| && 0 <= j < |cols| ==>
          cols[j] in d && r < |d[cols[j]]| && m[r][j] == d[cols[j]][r])
  }

  /** One more `new_df[name] = df[name]` keeps `Projected`. */
  lemma ProjectStep(list: seq<string>, n: nat, d: map<string, seq<Cell>>,
                    names: seq<string>, nd: map<string, seq<Cell>>)
    requires n < |list| && list[n] in d
    requires Projected(list, n, d, names, nd)
    ensures Projected(list, n + 1, d, if list[n] in names then names else names + [list[n]],
                      nd[list[n] := d[list[n]]])
  {
    DedupSnoc(list, n);
    InDedupPrefix(list, n);
  }

  /** Once every name is assigned, the table read out row by row is the projection. */
  lemma ProjectedValues(list: seq<string>, d: map<string, seq<Cell>>, rows: nat,
                        names: seq<string>, nd: map<string, seq<Cell>>, m: seq<seq<Cell>>)
    requires Projected(list, |list|, d, names, nd)
    requires forall c :: c in d ==> |d[c]| == rows
    requires |m| == (if names == [] then 0 else rows)
    requires forall r :: 0 <= r < |m| ==> |m[r]| == |names|
    requires forall r, j :: 0 <= r < |m| && 0 <= j < |names| ==> m[r][j] == nd[names[j]][r]
    ensures IsProjection(d, rows, list, m)
  {
    assert list[..|list|] == list;
    assert list != [] ==> list[0] in names;
    forall r, j | 0 <= r < |m| && 0 <= j < |names|
      ensures names[j] in d && m[r][j] == d[names[j]][r]
    {
      assert names[j] in nd;
    }
  }

  /** `df_to_array`: assign each named column of `df` to a fresh table in list order, then
      read that table out row by row. A repeated name overwrites its own column, so column
      `j` of the result is the `j`-th distinct name; an absent name raises `KeyError`. */
  method DfToArray(df: DataFrame, list: seq<string>) returns (r: Result<seq<seq<Cell>>>)
    requires df.Valid()
    ensures r.Ok? <==> forall i :: 0 <= i < |list| ==> list[i] in df.data
    ensures r.Err? ==> exists i :: FirstMissing(df.data, list, i) && r.error == KeyError(list[i])
    ensures r.Ok? ==> IsProjection(df.data, df.rows, list, r.value)
  {
    var d, rows := df.data, df.rows;
    var newDf := new DataFrame.Empty();
    var i := 0;
    while i < |list|
      invariant fresh(newDf) && newDf.Valid()
      invariant Projected(list, i, d, newDf.columns, newDf.data)
      invariant newDf.rows == if newDf.columns == [] then 0 else rows
    {
      if list[i] !in d {
        assert FirstMissing(d, list, i);
        return Err(KeyError(list[i]));
      }
      ghost var names, nd := newDf.columns, newDf.data;
      ProjectStep(list, i, d, names, nd);
      newDf.SetColumn(list[i], d[list[i]]);
      i := i + 1;
    }
    var m := newDf.Values();
    ProjectedValues(list, d, rows, newDf.columns, newDf.data, m);
    r := Ok(m);
  }
}
