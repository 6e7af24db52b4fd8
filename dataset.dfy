/**
 * The reference dataset the handler reads: a data frame loaded once and only
 * read afterwards. Each row carries its `District` cell and its numeric cells,
 * which line up with the frame's header of numeric column names.
 */
module Dataset {
  import opened Text

  datatype Row = Row(district: string, cells: seq<real>)

  datatype Frame = Frame(columns: seq<string>, rows: seq<Row>)

  /** Number of months in a year of rainfall values, and the width of one row's block of normals. */
  const Months := 12

  /** The twelve historical-normal columns, in the order the handler selects them. */
  const NormalColumns: seq<string> := [
    "JAN_normal", "FEB_normal", "MAR_normal", "APR_normal", "MAY_normal", "JUN_normal",
    "JUL_normal", "AUG_normal", "SEP_normal", "OCT_normal", "NOV_normal", "DEC_normal"
  ]

  predicate DistinctColumns(columns: seq<string>) {
    forall i, j :: 0 <= i < j < |columns| ==> columns[i] != columns[j]
  }

  /** What every data frame guarantees: unique column names and one cell per column in every row. */
  predicate WellFormed(frame: Frame) {
    && DistinctColumns(frame.columns)
    && forall row <- frame.rows :: |row.cells| == |frame.columns|
  }

  predicate HasColumns(columns: seq<string>, names: seq<string>) {
    forall name <- names :: name in columns
  }

  /** The position of the column called `name`: the first, and in a well-formed frame the only one. */
  function IndexOf(columns: seq<string>, name: string): (i: nat)
    requires name in columns
    ensures i < |columns| && columns[i] == name
    ensures forall j :: 0 <= j < i ==> columns[j] != name
  {
    if columns[0] == name then 0 else 1 + IndexOf(columns[1..], name)
  }

  /** The cell of `row` under the column called `name`. */
  function Cell(columns: seq<string>, row: Row, name: string): real
    requires name in columns && |row.cells| == |columns|
  {
    row.cells[IndexOf(columns, name)]
  }

  /** `row[names]`: the cells under the named columns, in the order of `names`. */
  function Project(columns: seq<string>, row: Row, names: seq<string>): (r: seq<real>)
    requires HasColumns(columns, names) && |row.cells| == |columns|
    ensures |r| == |names|
    ensures forall i :: 0 <= i < |names| ==> r[i] == Cell(columns, row, names[i])
  {
    if names == [] then [] else [Cell(columns, row, names[0])] + Project(columns, row, names[1..])
  }

  /**
   * Whatever the order of the columns in the file, the twelve normals of a
   * row come out month by month; when the file lists them first, in month
   * order, they are the row's first twelve cells.
   */
  lemma NormalsOfCanonicalLayout(columns: seq<string>, row: Row)
    requires |row.cells| == |columns|
    requires |columns| >= Months && columns[..Months] == NormalColumns
    ensures HasColumns(columns, NormalColumns)
    ensures Project(columns, row, NormalColumns) == row.cells[..Months]
  {
    assert DistinctColumns(NormalColumns);
    forall m | 0 <= m < Months ensures columns[m] == NormalColumns[m] {
      assert columns[..Months][m] == columns[m];
    }
    var r := Project(columns, row, NormalColumns);
    forall m | 0 <= m < Months ensures r[m] == row.cells[m] {
      var k := IndexOf(columns, NormalColumns[m]);
      assert k <= m;
      assert columns[k] == NormalColumns[m];
    }
  }

  /** `df['District'].str.lower() == district.lower()` for one row. */
  predicate Matches(row: Row, district: string) {
    Lower(row.district) == Lower(district)
  }

  /** `df[df['District'].str.lower() == district.lower()]`: the matching rows, in table order. */
  function Lookup(rows: seq<Row>, district: string): (r: seq<Row>)
    ensures |r| <= |rows|
    ensures forall row <- r :: row in rows && Matches(row, district)
    ensures forall row <- rows :: Matches(row, district) ==> row in r
  {
    if rows == [] then []
    else if Matches(rows[0], district) then [rows[0]] + Lookup(rows[1..], district)
    else Lookup(rows[1..], district)
  }

  /** Filtering keeps table order: the matches of a concatenation are the matches of each part, in turn. */
  lemma {:induction false} LookupAppend(a: seq<Row>, b: seq<Row>, district: string)
    ensures Lookup(a + b, district) == Lookup(a, district) + Lookup(b, district)
  {
    if a == [] {
      assert a + b == b;
    } else {
      assert (a + b)[1..] == a[1..] + b;
      LookupAppend(a[1..], b, district);
    }
  }

  /** Re-casing the requested name selects exactly the same rows. */
  lemma {:induction false} LookupRecased(rows: seq<Row>, d1: string, d2: string)
    requires Recased(d1, d2)
    ensures Lookup(rows, d1) == Lookup(rows, d2)
  {
    RecasedIffSameLower(d1, d2);
    if rows != [] {
      LookupRecased(rows[1..], d1, d2);
    }
  }

  /** No two rows whose district names lower-case alike. */
  predicate UniqueDistricts(rows: seq<Row>) {
    forall i, j :: 0 <= i < j < |rows| ==> Lower(rows[i].district) != Lower(rows[j].district)
  }

  /** With unique lower-cased names, the lookup of a present district is exactly its own row. */
  lemma {:induction false} LookupUnique(rows: seq<Row>, i: nat, district: string)
    requires UniqueDistricts(rows)
    requires i < |rows| && Matches(rows[i], district)
    ensures Lookup(rows, district) == [rows[i]]
  {
    assert rows == rows[..i] + [rows[i]] + rows[i + 1..];
    LookupAppend(rows[..i] + [rows[i]], rows[i + 1..], district);
    LookupAppend(rows[..i], [rows[i]], district);
    LookupNone(rows[..i], district);
    LookupNone(rows[i + 1..], district);
  }

  /** A table none of whose rows matches yields no rows. */
  lemma LookupNone(rows: seq<Row>, district: string)
    requires forall row <- rows :: !Matches(row, district)
    ensures Lookup(rows, district) == []
  {}

  /** `row[NormalColumns].values.flatten()`: the matched rows' normals, one row after another. */
  function PastRainfall(columns: seq<string>, matched: seq<Row>): (r: seq<real>)
    requires HasColumns(columns, NormalColumns)
    requires forall row <- matched :: |row.cells| == |columns|
    ensures |r| == Months * |matched|
    ensures forall k :: 0 <= k < |matched| ==> r[Months * k..Months * k + Months] == Project(columns, matched[k], NormalColumns)
  {
    if matched == [] then []
    else
      var head := Project(columns, matched[0], NormalColumns);
      var tail := PastRainfall(columns, matched[1..]);
      assert forall k :: 1 <= k < |matched| ==> (head + tail)[Months * k..Months * k + Months] == tail[Months * (k - 1)..Months * (k - 1) + Months];
      head + tail
  }
}
