/** The two table-level steps of file preparation: putting a recording onto a regular
    time grid with `resample_df`, and smoothing selected columns with `low_pass_filter`. */
module FilePrep {
  import opened Frame

  datatype Option<T> = None | Some(value: T)

  lemma MulPos(x: real, y: real)
    requires x > 0.0 && y > 0.0
    ensures x * y > 0.0
  {
  }

  lemma MulNonNeg(x: real, y: real)
    requires x >= 0.0 && y > 0.0
    ensures x * y >= 0.0
  {
  }

  // ---------------------------------------------------------------------------
  // Time bins (resample_df)
  // ---------------------------------------------------------------------------

  /** The bin of timestamp `t` (epoch seconds) on a grid of `freq`-second bins, each
      labelled by its left edge. The grid is anchored at the epoch, so the bin index is the
      floor of `t / freq`; pandas anchors it at midnight of the first day, which gives the
      same bins whenever `freq` divides both a day and the local UTC offset. */
  function Bucket(t: real, freq: real): int
    requires freq > 0.0
  {
    (t / freq).Floor
  }

  /** Bin `k` is the half-open interval `[k * freq, (k + 1) * freq)`. */
  lemma BucketBounds(t: real, freq: real)
    requires freq > 0.0
    ensures Bucket(t, freq) as real * freq <= t < (Bucket(t, freq) as real + 1.0) * freq
  {
    var q := t / freq;
    var k := Bucket(t, freq) as real;
    assert q * freq == t;
    MulNonNeg(q - k, freq);
    MulPos(k + 1.0 - q, freq);
  }

  /** A later timestamp never falls into an earlier bin. */
  lemma BucketMonotone(a: real, b: real, freq: real)
    requires freq > 0.0 && a <= b
    ensures Bucket(a, freq) <= Bucket(b, freq)
  {
    assert a / freq <= b / freq;
  }

  /** Moving a timestamp on by `i` whole bins moves its bin on by `i`. */
  lemma BucketShift(t: real, i: int, freq: real)
    requires freq > 0.0
    ensures Bucket(t + i as real * freq, freq) == Bucket(t, freq) + i
  {
    assert (t + i as real * freq) / freq == t / freq + i as real;
  }

  predicate NonDecreasing(ts: seq<real>) {
    forall i, j :: 0 <= i < j < |ts| ==> ts[i] <= ts[j]
  }

  /** The number of output rows: every bin from the first row's to the last row's. */
  function BucketCount(ts: seq<real>, freq: real): (n: nat)
    requires freq > 0.0 && NonDecreasing(ts)
    ensures n == 0 <==> ts == []
    ensures forall i :: 0 <= i < |ts| ==> 0 <= Bucket(ts[i], freq) - Bucket(ts[0], freq) < n
    ensures ts != [] ==> Bucket(ts[|ts| - 1], freq) - Bucket(ts[0], freq) == n - 1
  {
    if ts == [] then 0
    else
      assert forall i :: 0 <= i < |ts| ==>
          Bucket(ts[0], freq) <= Bucket(ts[i], freq) <= Bucket(ts[|ts| - 1], freq) by {
        forall i | 0 <= i < |ts|
          ensures Bucket(ts[0], freq) <= Bucket(ts[i], freq) <= Bucket(ts[|ts| - 1], freq)
        {
          BucketMonotone(ts[0], ts[i], freq);
          BucketMonotone(ts[i], ts[|ts| - 1], freq);
        }
      }
      Bucket(ts[|ts| - 1], freq) - Bucket(ts[0], freq) + 1
  }

  /** The first row at or after `from` that lies in bin `k` and holds a number in `col`. */
  function FirstNonNull(col: seq<Cell>, ts: seq<real>, freq: real, k: int, from: nat): (r: Option<nat>)
    requires freq > 0.0 && |col| == |ts| && from <= |ts|
    ensures r.Some? ==> from <= r.value < |ts| && Bucket(ts[r.value], freq) == k && col[r.value].Num?
    ensures r.Some? ==> forall j :: from <= j < r.value && Bucket(ts[j], freq) == k ==> col[j].NaN?
    ensures r.None? ==> forall j :: from <= j < |ts| && Bucket(ts[j], freq) == k ==> col[j].NaN?
    decreases |ts| - from
  {
    if from == |ts| then None
    else if Bucket(ts[from], freq) == k && col[from].Num? then Some(from)
    else FirstNonNull(col, ts, freq, k, from + 1)
  }

  /** `first()` of one column over bin `k`: the earliest number the column holds in that
      bin, or NaN when the bin is empty or holds only NaN. */
  function BinFirst(col: seq<Cell>, ts: seq<real>, freq: real, k: int): (c: Cell)
    requires freq > 0.0 && |col| == |ts|
    ensures c.NaN? <==> forall j :: 0 <= j < |ts| && Bucket(ts[j], freq) == k ==> col[j].NaN?
    ensures c.Num? ==> exists i :: 0 <= i < |ts| && Bucket(ts[i], freq) == k && col[i] == c
                                   && forall j :: 0 <= j < i && Bucket(ts[j], freq) == k ==> col[j].NaN?
  {
    match FirstNonNull(col, ts, freq, k, 0)
    case None => NaN
    case Some(i) => col[i]
  }

  /** One column after `resample(freq).first()`: output row `b` is bin `Bucket(ts[0]) + b`. */
  function ResampleColumn(col: seq<Cell>, ts: seq<real>, freq: real): (r: seq<Cell>)
    requires freq > 0.0 && |col| == |ts| && NonDecreasing(ts)
    ensures |r| == BucketCount(ts, freq)
  {
    var n := BucketCount(ts, freq);
    if n == 0 then []
    else seq(n, b requires 0 <= b < n => BinFirst(col, ts, freq, Bucket(ts[0], freq) + b))
  }

  /** In a column without missing values, the output row of an occupied bin is the bin's
      first input row. */
  lemma ResampleFirstRow(col: seq<Cell>, ts: seq<real>, freq: real, i: nat)
    requires freq > 0.0 && |col| == |ts| && NonDecreasing(ts)
    requires forall j :: 0 <= j < |col| ==> col[j].Num?
    requires i < |ts| && forall j :: 0 <= j < i ==> Bucket(ts[j], freq) != Bucket(ts[i], freq)
    ensures 0 <= Bucket(ts[i], freq) - Bucket(ts[0], freq) < BucketCount(ts, freq)
    ensures ResampleColumn(col, ts, freq)[Bucket(ts[i], freq) - Bucket(ts[0], freq)] == col[i]
  {
    var n := BucketCount(ts, freq);
    assert 0 <= Bucket(ts[i], freq) - Bucket(ts[0], freq) < n;
    var k := Bucket(ts[i], freq);
    var first := FirstNonNull(col, ts, freq, k, 0);
    assert first == Some(i);
    assert BinFirst(col, ts, freq, k) == col[i];
    assert ResampleColumn(col, ts, freq)[k - Bucket(ts[0], freq)] == BinFirst(col, ts, freq, k);
  }

  /** The output has at most `ceil((last - first) / freq) + 1` rows. */
  lemma {:induction false} ResampleRowBound(ts: seq<real>, freq: real)
    requires freq > 0.0 && NonDecreasing(ts) && ts != []
    ensures BucketCount(ts, freq) <= -((-(ts[|ts| - 1] - ts[0]) / freq).Floor) + 1
  {
    var a, b := ts[0], ts[|ts| - 1];
    var x, y := a / freq, b / freq;
    var z := (b - a) / freq;
    assert y - x == z;
    var c := -((-z).Floor);
    assert -(b - a) / freq == -z;
    assert c as real >= z;
    assert y.Floor as real <= y && x < x.Floor as real + 1.0;
    assert (c + 1) as real == c as real + 1.0;
    assert Bucket(b, freq) - Bucket(a, freq) < c + 1;
  }

  /** Timestamps `t0 + i * freq` ascend, and row `i` lies `i` bins after row 0's. */
  lemma SpacedBuckets(ts: seq<real>, freq: real, t0: real)
    requires freq > 0.0
    requires forall i :: 0 <= i < |ts| ==> ts[i] == t0 + i as real * freq
    ensures NonDecreasing(ts)
    ensures forall i :: 0 <= i < |ts| ==> Bucket(ts[i], freq) == Bucket(t0, freq) + i
  {
    forall i, j | 0 <= i < j < |ts| ensures ts[i] <= ts[j] {
      MulNonNeg((j - i) as real, freq);
      assert ts[j] - ts[i] == (j - i) as real * freq;
    }
    forall i | 0 <= i < |ts| ensures Bucket(ts[i], freq) == Bucket(t0, freq) + i {
      BucketShift(t0, i, freq);
      assert ts[i] == t0 + i as real * freq;
      assert Bucket(ts[i], freq) == Bucket(t0 + i as real * freq, freq);
    }
  }

  /** Samples exactly `freq` apart, at any phase, fall one per bin and come back
      unchanged. */
  lemma {:induction false} ResampleUniformGrid(col: seq<Cell>, ts: seq<real>, freq: real, t0: real)
    requires freq > 0.0 && |col| == |ts|
    requires forall i :: 0 <= i < |ts| ==> ts[i] == t0 + i as real * freq
    ensures NonDecreasing(ts)
    ensures ResampleColumn(col, ts, freq) == col
  {
    SpacedBuckets(ts, freq, t0);
    var k0 := Bucket(t0, freq);
    var r := ResampleColumn(col, ts, freq);
    forall b | 0 <= b < |ts| ensures r[b] == col[b] {
      assert Bucket(ts[0], freq) == k0;
      assert r[b] == BinFirst(col, ts, freq, k0 + b);
      var first := FirstNonNull(col, ts, freq, k0 + b, 0);
      if col[b].Num? {
        assert first == Some(b);
      } else {
        assert first.None?;
      }
    }
  }

  /** The timestamps of a column of numbers. */
  function Times(col: seq<Cell>): (ts: seq<real>)
    requires forall i :: 0 <= i < |col| ==> col[i].Num?
    ensures |ts| == |col| && forall i :: 0 <= i < |col| ==> col[i] == Num(ts[i])
  {
    seq(|col|, i requires 0 <= i < |col| => col[i].value)
  }

  /** `col[i]` is the first missing value of `col`. */
  predicate FirstNaN(col: seq<Cell>, i: int) {
    0 <= i < |col| && col[i].NaN? && forall j :: 0 <= j < i ==> col[j].Num?
  }

  predicate AllNum(col: seq<Cell>) {
    forall i :: 0 <= i < |col| ==> col[i].Num?
  }

  /** The numbers of `col` appear in ascending order. */
  predicate SortedTimes(col: seq<Cell>) {
    forall i, j :: 0 <= i < j < |col| && col[i].Num? && col[j].Num? ==> col[i].value <= col[j].value
  }

  /** `(outColumns, outData, outRows)` is what `resample_df` returns for the table
      `(columns, data)` with timestamps `ts`: the same columns except `date_time`, which
      becomes the index and is dropped, one row per bin, each column resampled. */
  ghost predicate IsResampleOf(columns: seq<string>, data: map<string, seq<Cell>>, ts: seq<real>,
                               freq: real, outColumns: seq<string>,
                               outData: map<string, seq<Cell>>, outRows: nat)
    requires freq > 0.0
  {
    && NonDecreasing(ts)
    && outColumns == Without(columns, "date_time")
    && outRows == BucketCount(ts, freq)
    && (forall c :: c in outData <==> c in outColumns)
    && forall c :: c in outData ==>
         c in data && |data[c]| == |ts| && outData[c] == ResampleColumn(data[c], ts, freq)
  }

  /** Every column of `data` but `date_time`, resampled onto the bins of `ts`. */
  function ResampleAll(columns: seq<string>, data: map<string, seq<Cell>>, ts: seq<real>,
                       freq: real): (out: map<string, seq<Cell>>)
    requires freq > 0.0 && NonDecreasing(ts) && WellFormed(columns, data, |ts|)
    ensures WellFormed(Without(columns, "date_time"), out, BucketCount(ts, freq))
    ensures IsResampleOf(columns, data, ts, freq, Without(columns, "date_time"), out, BucketCount(ts, freq))
  {
    var names := Without(columns, "date_time");
    map c | c in names :: ResampleColumn(data[c], ts, freq)
  }

  /** `resample_df(df, freq)`: reads the `index` column of epoch seconds, converts each one
      to a timestamp and stores the list as a new `date_time` column of `df` itself, then
      returns a new table with `date_time` as the grid key: one row per `freq`-second bin
      from the first to the last occupied bin, each column taking its first non-missing
      entry in the bin. A recording without rows stores an empty `date_time` column and
      then fails in `resample`. */
  method ResampleDf(df: DataFrame, freq: real) returns (res: Result<DataFrame>)
    requires df.Valid() && freq > 0.0
    requires "index" in df.data ==> SortedTimes(df.data["index"])
    modifies df
    ensures df.Valid()
    ensures "index" !in old(df.data) ==> res == Err(KeyError("index"))
    ensures "index" in old(df.data) ==>
      && (res.Err? && res.error.ValueError? <==> exists i :: FirstNaN(old(df.data)["index"], i))
      && (res.Err? && res.error.ValueError? ==> FirstNaN(old(df.data)["index"], res.error.row))
      && (res == Err(TypeError) <==> old(df.data)["index"] == [])
      && (res.Err? ==> res.error.ValueError? || res.error == TypeError)
    ensures res.Err? && res.error != TypeError ==>
      df.columns == old(df.columns) && df.data == old(df.data) && df.rows == old(df.rows)
    ensures res.Ok? || res == Err(TypeError) ==>
      && "index" in old(df.data) && AllNum(old(df.data)["index"])
      && df.columns == (if "date_time" in old(df.columns) then old(df.columns) else old(df.columns) + ["date_time"])
      && df.data == old(df.data)["date_time" := old(df.data)["index"]]
      && df.rows == old(df.rows)
    ensures res.Ok? ==>
      && fresh(res.value) && res.value.Valid()
      && IsResampleOf(old(df.columns), old(df.data), Times(old(df.data)["index"]), freq,
                      res.value.columns, res.value.data, res.value.rows)
  {
    if "index" !in df.data {
      return Err(KeyError("index"));
    }
    var columns, data := df.columns, df.data;
    var timeS := data["index"];
    var dateTime: seq<Cell> := [];
    var ts: seq<real> := [];
    var i := 0;
    while i < |timeS|
      invariant 0 <= i <= |timeS|
      invariant |ts| == i && forall j :: 0 <= j < i ==> timeS[j] == Num(ts[j])
      invariant dateTime == timeS[..i]
    {
      if timeS[i].NaN? {
        assert FirstNaN(timeS, i);
        return Err(ValueError(i));
      }
      dateTime := dateTime + [timeS[i]];
      ts := ts + [timeS[i].value];
      i := i + 1;
    }
    assert dateTime == timeS;
    assert AllNum(timeS) && ts == Times(timeS);
    assert forall j :: !FirstNaN(timeS, j);
    assert NonDecreasing(ts);
    var out := ResampleAll(columns, data, ts, freq);
    df.SetColumn("date_time", dateTime);
    if |timeS| == 0 {
      // an empty `date_time` column is not a datetime index, which `resample` requires
      return Err(TypeError);
    }
    var grid := new DataFrame.FromColumns(Without(columns, "date_time"), out, BucketCount(ts, freq));
    res := Ok(grid);
  }

  // ---------------------------------------------------------------------------
  // Low-pass filtering (low_pass_filter)
  // ---------------------------------------------------------------------------

  /** The arguments of `butter_lowpass`: filter order, sample rate and cutoff, in Hz. */
  datatype ButterParams = ButterParams(order: nat, fs: real, cutoff: real)

  /** The filter `low_pass_filter` applies: order 5, 30 Hz sampling, 3.667 Hz cutoff. */
  const Standard := ButterParams(5, 30.0, 3.667)

  /** A ratio lies strictly inside (0, 1) exactly when its numerator lies strictly between
      zero and its positive denominator. */
  lemma RatioInUnit(c: real, h: real)
    requires h > 0.0
    ensures 0.0 < c < h <==> 0.0 < c / h < 1.0
  {
    var w := c / h;
    assert w * h == c;
    if 0.0 < w {
      MulPos(w, h);
    } else {
      MulNonNeg(-w, h);
      assert -w * h == -c;
    }
    if w < 1.0 {
      MulPos(1.0 - w, h);
      assert (1.0 - w) * h == h - c;
    } else {
      MulNonNeg(w - 1.0, h);
      assert (w - 1.0) * h == c - h;
    }
  }

  /** The cutoff as a fraction of the Nyquist frequency `fs / 2`, as `butter` expects it. */
  function NormalCutoff(p: ButterParams): (wn: real)
    requires p.fs > 0.0
    ensures wn * p.fs == 2.0 * p.cutoff
    ensures 0.0 < p.cutoff < p.fs / 2.0 <==> 0.0 < wn < 1.0
  {
    var nyq := 0.5 * p.fs;
    RatioInUnit(p.cutoff, nyq);
    p.cutoff / nyq
  }

  /** The standard filter's cutoff lies strictly between zero and Nyquist, the range
      `butter` accepts for a digital filter. */
  lemma StandardCutoffValid()
    ensures 0.0 < NormalCutoff(Standard) < 1.0
  {
  }

  /** Each named column replaced by its filtered version; every other column kept. */
  function Filtered(data: map<string, seq<Cell>>, names: seq<string>,
                    lowpass: (ButterParams, seq<Cell>) -> seq<Cell>): (r: map<string, seq<Cell>>)
    ensures r.Keys == data.Keys
    ensures forall c :: c in data ==> r[c] == if c in names then lowpass(Standard, data[c]) else data[c]
  {
    map c | c in data :: if c in names then lowpass(Standard, data[c]) else data[c]
  }

  /** Only the set of names matters: order and repetitions of `filter_column` do not. */
  lemma FilteredSameNames(data: map<string, seq<Cell>>, a: seq<string>, b: seq<string>,
                          lowpass: (ButterParams, seq<Cell>) -> seq<Cell>)
    requires forall x :: x in a <==> x in b
    ensures Filtered(data, a, lowpass) == Filtered(data, b, lowpass)
  {
  }

  /** Filtering and writing back one column at a time, reading the table as it is being
      changed. */
  function FilterInPlace(data: map<string, seq<Cell>>, names: seq<string>,
                         lowpass: (ButterParams, seq<Cell>) -> seq<Cell>): map<string, seq<Cell>>
    decreases |names|
  {
    if names == [] then data
    else
      var c := names[0];
      var d := if c in data then data[c := lowpass(Standard, data[c])] else data;
      FilterInPlace(d, names[1..], lowpass)
  }

  /** With distinct names, the two-phase loops agree with filtering one column at a time;
      a repeated name is filtered once by the two-phase loops but twice in place. */
  lemma {:induction false} TwoPhaseMatchesInPlace(data: map<string, seq<Cell>>, names: seq<string>,
                                                  lowpass: (ButterParams, seq<Cell>) -> seq<Cell>)
    requires Distinct(names)
    ensures FilterInPlace(data, names, lowpass) == Filtered(data, names, lowpass)
    decreases |names|
  {
    if names != [] {
      var c := names[0];
      var rest := names[1..];
      assert c !in rest by {
        forall k | 0 <= k < |rest| ensures rest[k] != c { assert rest[k] == names[k + 1]; }
      }
      assert Distinct(rest) by {
        forall i, j | 0 <= i < j < |rest| ensures rest[i] != rest[j] {
          assert rest[i] == names[i + 1] && rest[j] == names[j + 1];
        }
      }
      var d := if c in data then data[c := lowpass(Standard, data[c])] else data;
      TwoPhaseMatchesInPlace(d, rest, lowpass);
      assert forall x :: x in names <==> x == c || x in rest by {
        assert names == [c] + rest;
      }
      assert Filtered(d, rest, lowpass) == Filtered(data, names, lowpass);
    }
  }

  /** After `j` write-backs: the first `j` named columns filtered, every other column kept. */
  ghost predicate WrittenBack(orig: map<string, seq<Cell>>, names: seq<string>, j: nat,
                              lowpass: (ButterParams, seq<Cell>) -> seq<Cell>,
                              data: map<string, seq<Cell>>)
    requires j <= |names|
  {
    && data.Keys == orig.Keys
    && forall c :: c in orig ==>
         data[c] == if c in names[..j] then lowpass(Standard, orig[c]) else orig[c]
  }

  lemma WrittenBackStep(orig: map<string, seq<Cell>>, names: seq<string>, j: nat,
                        lowpass: (ButterParams, seq<Cell>) -> seq<Cell>,
                        data: map<string, seq<Cell>>)
    requires j < |names| && names[j] in orig
    requires WrittenBack(orig, names, j, lowpass, data)
    ensures WrittenBack(orig, names, j + 1, lowpass, data[names[j] := lowpass(Standard, orig[names[j]])])
  {
  }

  /** `low_pass_filter(df, filter_column)`: filters every named column with the standard
      Butterworth filter, keeping all results aside, then stores them back into `df`.
      `lowpass` stands for `butter_lowpass_filter`, that is `lfilter` applied with the
      coefficients `butter` designs; it keeps a column's length. */
  method LowPassFilter(df: DataFrame, filterColumn: seq<string>,
                       lowpass: (ButterParams, seq<Cell>) -> seq<Cell>) returns (res: Result<DataFrame>)
    requires df.Valid()
    requires forall col :: |lowpass(Standard, col)| == |col|
    modifies df
    ensures df.Valid()
    ensures df.columns == old(df.columns) && df.rows == old(df.rows)
    ensures res.Ok? <==> forall i :: 0 <= i < |filterColumn| ==> filterColumn[i] in old(df.data)
    ensures res.Err? ==> df.data == old(df.data)
    ensures res.Err? ==> exists i :: FirstMissing(old(df.data), filterColumn, i) && res.error == KeyError(filterColumn[i])
    ensures res.Ok? ==> res.value == df && df.data == Filtered(old(df.data), filterColumn, lowpass)
  {
    var orig := df.data;
    var storage: seq<seq<Cell>> := [];
    var i := 0;
    while i < |filterColumn|
      invariant 0 <= i <= |filterColumn| && |storage| == i
      invariant forall k :: 0 <= k < i ==> filterColumn[k] in orig
      invariant forall k :: 0 <= k < i ==> storage[k] == lowpass(Standard, orig[filterColumn[k]])
    {
      if filterColumn[i] !in orig {
        assert FirstMissing(orig, filterColumn, i);
        return Err(KeyError(filterColumn[i]));
      }
      storage := storage + [lowpass(Standard, orig[filterColumn[i]])];
      i := i + 1;
    }
    for j := 0 to |filterColumn|
      invariant df.Valid() && df.columns == old(df.columns) && df.rows == old(df.rows)
      invariant WrittenBack(orig, filterColumn, j, lowpass, df.data)
    {
      WrittenBackStep(orig, filterColumn, j, lowpass, df.data);
      df.SetColumn(filterColumn[j], storage[j]);
    }
    assert filterColumn[..|filterColumn|] == filterColumn;
    res := Ok(df);
  }
}
