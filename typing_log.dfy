/** The CSV log `save_log` appends to: a header row when the file is new,
    then one row per finished session. */
module TypingLog {

  /** One CSV row of the log, cell by cell. */
  datatype Row = Row(date: string, missCount: string, seconds: string)

  /** The header written when the log file does not exist yet. */
  const HeaderRow: Row := Row("Date", "MissCount", "Time(sec)")

  predicate IsDigit(c: char)
  {
    '0' <= c <= '9'
  }

  function DigitChar(d: nat): char
    requires d < 10
  {
    ('0' as int + d) as char
  }

  /** The decimal text `csv.writer` writes for a miss count (`str(n)`):
      digits only, no leading zero except for 0 itself. */
  function Decimal(n: nat): (s: string)
    ensures s != [] && forall k :: 0 <= k < |s| ==> IsDigit(s[k])
    ensures s[0] == '0' ==> s == "0"
  {
    if n < 10 then [DigitChar(n)] else Decimal(n / 10) + [DigitChar(n % 10)]
  }

  function DigitValue(c: char): nat
    requires IsDigit(c)
  {
    c as int - '0' as int
  }

  /** Reading a miss count back from its cell. */
  function ParseDecimal(s: string): nat
    requires forall k :: 0 <= k < |s| ==> IsDigit(s[k])
  {
    if s == [] then 0 else ParseDecimal(s[..|s| - 1]) * 10 + DigitValue(s[|s| - 1])
  }

  /** The miss count written to the log reads back as the same number. */
  lemma {:induction false} ParseDecimalInverts(n: nat)
    ensures ParseDecimal(Decimal(n)) == n
  {
    if n >= 10 {
      var s := Decimal(n);
      assert s[..|s| - 1] == Decimal(n / 10);
      ParseDecimalInverts(n / 10);
    }
  }

  /** The row `save_log` writes for one session: the date, the miss count
      and the seconds as already formatted text. */
  function DataRow(date: string, misses: nat, seconds: string): Row
  {
    Row(date, Decimal(misses), seconds)
  }

  /** A data row is never mistaken for the header: its miss-count cell is
      all digits. */
  lemma DataRowIsNotHeader(date: string, misses: nat, seconds: string)
    ensures DataRow(date, misses, seconds) != HeaderRow
  {
    assert HeaderRow.missCount[0] == 'M';
  }

  /** The rows in the log after one successful `save_log`: the old rows (or
      the header, when the file did not exist), then the new row. */
  function Saved(present: bool, rows: seq<Row>, row: Row): seq<Row>
  {
    (if present then rows else [HeaderRow]) + [row]
  }

  /** Number of data rows, that is rows other than the header. */
  function DataRowCount(rows: seq<Row>): nat
  {
    if rows == [] then 0
    else DataRowCount(rows[..|rows| - 1]) + (if rows[|rows| - 1] == HeaderRow then 0 else 1)
  }

  /** `save_log` only appends: the previous rows stay as they were, exactly
      one data row is added, and a new file gets the header first. */
  lemma SaveAppendsOneRow(present: bool, rows: seq<Row>, date: string, misses: nat, seconds: string)
    requires !present ==> rows == []
    ensures var after := Saved(present, rows, DataRow(date, misses, seconds));
      && after[..|rows|] == rows
      && |after| == |rows| + (if present then 1 else 2)
      && (!present ==> after == [HeaderRow, DataRow(date, misses, seconds)])
      && DataRowCount(after) == DataRowCount(rows) + 1
      && after[|after| - 1] == DataRow(date, misses, seconds)
      && ParseDecimal(after[|after| - 1].missCount) == misses
  {
    var row := DataRow(date, misses, seconds);
    var after := Saved(present, rows, row);
    DataRowIsNotHeader(date, misses, seconds);
    ParseDecimalInverts(misses);
    if present {
      assert after[..|rows|] == rows;
    } else {
      assert after[..1] == [HeaderRow];
      assert DataRowCount([HeaderRow]) == 0;
    }
  }

  /** The log file: whether it exists, and its rows. */
  class LogFile {
    var present: bool
    var rows: seq<Row>

    ghost predicate Valid()
      reads this
    {
      !present ==> rows == []
    }

    constructor (present: bool, rows: seq<Row>)
      requires !present ==> rows == []
      ensures Valid() && this.present == present && this.rows == rows
    {
      this.present := present;
      this.rows := rows;
    }

    /** `save_log`: open the file for appending (which creates it), write the
        header if the file did not exist before, then the data row. When the
        file cannot be opened the error is reported and nothing changes. */
    method SaveLog(misses: nat, date: string, seconds: string, openFails: bool)
      requires Valid()
      modifies this
      ensures Valid()
      ensures openFails ==> present == old(present) && rows == old(rows)
      ensures !openFails ==> present && rows == Saved(old(present), old(rows), DataRow(date, misses, seconds))
    {
      var fileExists := present;
      if openFails {
        return;
      }
      present := true;
      if !fileExists {
        rows := rows + [HeaderRow];
      }
      rows := rows + [DataRow(date, misses, seconds)];
    }
  }
}
