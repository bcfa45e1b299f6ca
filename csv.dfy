/** CSV files as the scripts see them through Python's csv module: a file
    is a sequence of rows of fields (quoting and the text encoding are below
    this level), read back as csv.DictReader does. */
module Csv {
  import opened Text

  type Row = seq<string>
  type Table = seq<Row>

  /** csv.DictReader's field names: the first row of the file. */
  function Header(t: Table): Row {
    if t == [] then [] else t[0]
  }

  /** The non-blank rows, in order (csv.DictReader skips blank lines). */
  function NonBlank(rows: seq<Row>): (r: seq<Row>)
    ensures |r| <= |rows|
    ensures forall i :: 0 <= i < |r| ==> r[i] != [] && r[i] in rows
    ensures (forall i :: 0 <= i < |rows| ==> rows[i] != []) ==> r == rows
  {
    if rows == [] then []
    else (if rows[0] == [] then [] else [rows[0]]) + NonBlank(rows[1..])
  }

  lemma {:induction false} NonBlankAppend(a: seq<Row>, b: seq<Row>)
    ensures NonBlank(a + b) == NonBlank(a) + NonBlank(b)
    decreases |a|
  {
    if a != [] {
      assert (a + b)[1..] == a[1..] + b;
      NonBlankAppend(a[1..], b);
    } else {
      assert a + b == b;
    }
  }

  /** The records csv.DictReader yields: every non-blank row after the
      header. */
  function Records(t: Table): seq<Row> {
    if t == [] then [] else NonBlank(t[1..])
  }

  /** Index of the last occurrence of `name` in `header`. */
  function LastIndex(header: Row, name: string): (r: Option<nat>)
    ensures r.Some? ==> r.value < |header| && header[r.value] == name
    ensures r.Some? ==> forall i :: r.value < i < |header| ==> header[i] != name
    ensures r.None? ==> name !in header
  {
    if header == [] then None
    else if header[|header| - 1] == name then Some(|header| - 1)
    else LastIndex(header[..|header| - 1], name)
  }

  /** `record.get(name)` on a csv.DictReader record: the record is
      `dict(zip(header, row))`, so a repeated column name gives the last
      such column, and a row too short for that column gives None. */
  function Field(header: Row, row: Row, name: string): Option<string> {
    match LastIndex(header, name)
    case None => None
    case Some(j) => if j < |row| then Some(row[j]) else None
  }

  /** A record's value for `name` is the cell under the last column of that
      name; there is none when the header lacks the name or the row is too
      short. */
  lemma FieldLastColumn(header: Row, row: Row, name: string)
    ensures Field(header, row, name).None? <==>
      name !in header || exists j :: 0 <= j < |header| && header[j] == name && j >= |row|
    ensures Field(header, row, name).Some? ==>
      exists j :: 0 <= j < |header| && j < |row| && header[j] == name && Field(header, row, name).value == row[j] &&
        forall i :: j < i < |header| ==> header[i] != name
  {
    match LastIndex(header, name)
    case None =>
    case Some(j) =>
      if j < |row| {
        forall i | 0 <= i < |header| && header[i] == name ensures i < |row| {
          assert i <= j;
        }
      }
  }

  /** A CSV file on disk: whether it exists, and its rows. */
  class CsvFile {
    var present: bool
    var rows: Table

    ghost predicate Valid()
      reads this
    {
      present || rows == []
    }

    constructor (present: bool, rows: Table)
      requires present || rows == []
      ensures Valid() && this.present == present && this.rows == rows
    {
      this.present := present;
      this.rows := rows;
    }

    /** What `os.path.exists` and then reading the file give. */
    function Snapshot(): Option<Table>
      reads this
    {
      if present then Some(rows) else None
    }

    /** `csv_file.tell() == 0` right after opening in append mode. */
    function IsEmpty(): bool
      reads this
    {
      rows == []
    }

    /** `writer.writerow(row)` on the file opened with mode "a" (which
        creates a missing file). */
    method Append(row: Row)
      modifies this
      ensures Valid() && present
      ensures rows == old(rows) + [row]
    {
      present := true;
      rows := rows + [row];
    }

    /** Opening with mode "w" and writing `table`: the old content is
        replaced. */
    method Overwrite(table: Table)
      modifies this
      ensures Valid() && present
      ensures rows == table
    {
      present := true;
      rows := table;
    }
  }
}
