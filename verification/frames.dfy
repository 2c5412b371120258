/**
  The data model shared by every stage: cells, rows, hourly series and frames with named columns.
  A row maps a column name to the value of its cell; a column that is not a key of the row is a
  missing cell (pandas NaN, NA, None or NaT alike).
 */
module Frames {
  import opened Wrappers
  import opened Seqs

  /** One hour in seconds, the unit of every timestamp. */
  const HOUR: int := 3600

  /** The value of a cell that is present: a number, a text label, or a timestamp in seconds. */
  datatype Value = Num(x: real) | Text(s: string) | Time(t: int)

  /** One row, without its DATETIME key. */
  type Row = map<string, Value>

  /** One row of a series keyed by DATETIME (seconds). */
  datatype Entry = Entry(time: int, row: Row)

  /** The rows of a frame in frame order. */
  type Series = seq<Entry>

  /** A frame: its column names in order (DATETIME among them) and its rows. */
  datatype Frame = Frame(columns: seq<string>, entries: Series)

  /** The DATETIME values of a series. */
  function Times(s: Series): set<int> {
    set i | 0 <= i < |s| :: s[i].time
  }

  /** No DATETIME value occurs twice. */
  predicate UniqueTimes(s: Series) {
    forall i, j :: 0 <= i < j < |s| ==> s[i].time != s[j].time
  }

  /** DATETIME values never decrease along the series. */
  predicate SortedByTime(s: Series) {
    forall i, j :: 0 <= i < j < |s| ==> s[i].time <= s[j].time
  }

  /** The row of the first entry at time `t`; the all-missing row when there is none. */
  function RowAt(s: Series, t: int): Row
    decreases |s|
  {
    if |s| == 0 then map[]
    else if s[0].time == t then s[0].row
    else RowAt(s[1..], t)
  }

  /** The numeric value of a cell, or None when it is missing (or holds no number). */
  function NumAt(row: Row, key: string): Option<real> {
    if key in row && row[key].Num? then Some(row[key].x) else None
  }

  /** The cell at `key`, or None when it is missing. */
  function CellAt(row: Row, key: string): Option<Value> {
    if key in row then Some(row[key]) else None
  }

  /** Assigning one cell of a column: a missing result clears the cell. */
  function SetCell(row: Row, key: string, v: Option<Value>): (r: Row)
    ensures CellAt(r, key) == v
    ensures forall k :: k != key ==> CellAt(r, k) == CellAt(row, k)
  {
    match v
    case Some(x) => row[key := x]
    case None => row - {key}
  }

  /** Lifts an optional number to an optional cell. */
  function NumCell(x: Option<real>): Option<Value> {
    match x
    case Some(v) => Some(Num(v))
    case None => None
  }

  /** Lifts an optional label to an optional cell. */
  function TextCell(x: Option<string>): Option<Value> {
    match x
    case Some(v) => Some(Text(v))
    case None => None
  }

  /** `df[col] = ...` for a new column appends it; an existing column keeps its place. */
  function AddColumn(columns: seq<string>, name: string): (r: seq<string>)
    ensures name in r
    ensures forall c :: c in columns ==> c in r
    ensures forall c :: c in r ==> c in columns || c == name
    ensures columns <= r
    ensures NoDup(columns) ==> NoDup(r)
  {
    if name in columns then columns else columns + [name]
  }

  lemma {:induction false} RowAtOfUnique(s: Series, i: int)
    requires UniqueTimes(s)
    requires 0 <= i < |s|
    ensures RowAt(s, s[i].time) == s[i].row
    decreases i
  {
    if i > 0 {
      assert s[0].time != s[i].time;
      RowAtOfUnique(s[1..], i - 1);
    }
  }

  lemma {:induction false} RowAtMissing(s: Series, t: int)
    requires t !in Times(s)
    ensures RowAt(s, t) == map[]
    decreases |s|
  {
    if |s| > 0 {
      assert s[0].time in Times(s);
      assert Times(s[1..]) <= Times(s) by {
        forall u | u in Times(s[1..]) ensures u in Times(s) {
          var j :| 0 <= j < |s[1..]| && s[1..][j].time == u;
          assert s[j + 1].time == u;
        }
      }
      RowAtMissing(s[1..], t);
    }
  }

  lemma {:induction false} RowAtAppend(s: Series, x: Entry, t: int)
    ensures RowAt(s + [x], t) == if t in Times(s) then RowAt(s, t) else if t == x.time then x.row else map[]
    decreases |s|
  {
    if |s| == 0 {
      assert s + [x] == [x];
      assert [x][1..] == [];
    } else {
      assert (s + [x])[0] == s[0];
      assert (s + [x])[1..] == s[1..] + [x];
      RowAtAppend(s[1..], x, t);
      TimesCons(s);
    }
  }

  lemma TimesCons(s: Series)
    requires |s| > 0
    ensures Times(s) == {s[0].time} + Times(s[1..])
  {
    forall u | u in Times(s) ensures u in {s[0].time} + Times(s[1..]) {
      var j :| 0 <= j < |s| && s[j].time == u;
      if j > 0 {
        assert s[1..][j - 1].time == u;
      }
    }
    forall u | u in Times(s[1..]) ensures u in Times(s) {
      var j :| 0 <= j < |s[1..]| && s[1..][j].time == u;
      assert s[j + 1].time == u;
    }
  }

  lemma TimesSingleton(x: Entry)
    ensures Times([x]) == {x.time}
  {
    assert [x][0].time == x.time;
  }

  lemma TimesAppend(a: Series, b: Series)
    ensures Times(a + b) == Times(a) + Times(b)
  {
    forall u | u in Times(a + b) ensures u in Times(a) + Times(b) {
      var j :| 0 <= j < |a + b| && (a + b)[j].time == u;
      if j < |a| {
        assert a[j].time == u;
      } else {
        assert b[j - |a|].time == u;
      }
    }
    forall u | u in Times(a) + Times(b) ensures u in Times(a + b) {
      if u in Times(a) {
        var j :| 0 <= j < |a| && a[j].time == u;
        assert (a + b)[j].time == u;
      } else {
        var j :| 0 <= j < |b| && b[j].time == u;
        assert (a + b)[|a| + j].time == u;
      }
    }
  }
}
