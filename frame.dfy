/** A small model of the pandas DataFrame the pipeline works on: an ordered list of
    distinct column names, one vector of cells per name, and a row count shared by
    every column. Rows are addressed positionally (0..rows-1). */
module Frame {

  /** A float cell: either a number or the missing value pandas writes as NaN. */
  datatype Cell = NaN | Num(value: real)

  /** The exceptions the modelled code can raise. */
  datatype Error =
    | KeyError(column: string)      // df[name] with no such column
    | ValueError(row: nat)          // datetime.fromtimestamp of a missing timestamp
    | TypeError                     // resample over an index that holds no datetimes

  datatype Result<T> = Ok(value: T) | Err(error: Error)

  /** No element occurs twice. */
  predicate Distinct<T(==)>(s: seq<T>) {
    forall i, j :: 0 <= i < j < |s| ==> s[i] != s[j]
  }

  /** `s` with every occurrence of `x` taken out, order kept. */
  function Without(s: seq<string>, x: string): (r: seq<string>)
    ensures forall y :: y in r <==> y in s && y != x
    ensures Distinct(s) ==> Distinct(r)
    ensures x !in s ==> r == s
  {
    if s == [] then []
    else if s[0] == x then Without(s[1..], x)
    else
      assert Distinct(s) ==> Distinct(s[1..]) && s[0] !in s[1..] by {
        if Distinct(s) {
          forall k | 0 <= k < |s| - 1 ensures s[1..][k] != s[0] { assert s[1..][k] == s[k + 1]; }
        }
      }
      [s[0]] + Without(s[1..], x)
  }

  /** In a list of distinct names, taking out the name at position `k` closes the gap and
      leaves the others in their order. */
  lemma {:induction false} WithoutAt(s: seq<string>, x: string, k: nat)
    requires Distinct(s) && k < |s| && s[k] == x
    ensures Without(s, x) == s[..k] + s[k + 1..]
    decreases |s|
  {
    var t := s[1..];
    assert Distinct(t) by {
      forall i, j | 0 <= i < j < |t| ensures t[i] != t[j] { assert t[i] == s[i + 1] && t[j] == s[j + 1]; }
    }
    if k == 0 {
      assert x !in t by {
        forall i | 0 <= i < |t| ensures t[i] != x { assert t[i] == s[i + 1]; }
      }
    } else {
      assert s[0] != x;
      assert t[k - 1] == x;
      WithoutAt(t, x, k - 1);
      assert s[..k] == [s[0]] + t[..k - 1];
      assert s[k + 1..] == t[k..];
    }
  }

  /** `list[i]` is the first name of `list` that `data` lacks: the name a `KeyError` reports when the names are
      looked up in order. */
  predicate FirstMissing(data: map<string, seq<Cell>>, list: seq<string>, i: int) {
    && 0 <= i < |list|
    && list[i] !in data
    && forall k :: 0 <= k < i ==> list[k] in data
  }

  /** A well-formed table: names distinct, one column per name, all of equal length. */
  ghost predicate WellFormed(columns: seq<string>, data: map<string, seq<Cell>>, rows: nat) {
    && Distinct(columns)
    && (forall c :: c in data <==> c in columns)
    && (forall c :: c in data ==> |data[c]| == rows)
  }

  class DataFrame {
    var columns: seq<string>
    var data: map<string, seq<Cell>>
    var rows: nat

    ghost predicate Valid()
      reads this
    {
      WellFormed(columns, data, rows)
    }

    /** `pd.DataFrame()`: no columns, no rows. */
    constructor Empty()
      ensures Valid() && columns == [] && data == map[] && rows == 0
    {
      columns, data, rows := [], map[], 0;
    }

    /** A table built from columns already known to fit together. */
    constructor FromColumns(columns: seq<string>, data: map<string, seq<Cell>>, rows: nat)
      requires WellFormed(columns, data, rows)
      ensures Valid()
      ensures this.columns == columns && this.data == data && this.rows == rows
    {
      this.columns, this.data, this.rows := columns, data, rows;
    }

    /** `df[name] = col`: an existing column is overwritten where it stands, a new one is
        appended at the right; the first column given to an empty table fixes its row count. */
    method SetColumn(name: string, col: seq<Cell>)
      requires Valid()
      requires columns == [] || |col| == rows
      modifies this
      ensures Valid()
      ensures columns == if name in old(columns) then old(columns) else old(columns) + [name]
      ensures data == old(data)[name := col]
      ensures rows == if old(columns) == [] then |col| else old(rows)
    {
      if columns == [] {
        rows := |col|;
      }
      if name !in columns {
        columns := columns + [name];
      }
      data := data[name := col];
    }

    /** `df.iloc[:, 0:].values`: the table as a row-major matrix, columns in table order. */
    function Values(): (m: seq<seq<Cell>>)
      requires Valid()
      reads this
      ensures |m| == rows
      ensures forall r :: 0 <= r < rows ==> |m[r]| == |columns|
      ensures forall r, j :: 0 <= r < rows && 0 <= j < |columns| ==> m[r][j] == data[columns[j]][r]
    {
      var cols, d, n := columns, data, rows;
      seq(n, r requires 0 <= r < n =>
        seq(|cols|, j requires 0 <= j < |cols| => d[cols[j]][r]))
    }
  }
}
