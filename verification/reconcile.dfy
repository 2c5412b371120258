/**
  Hourly series reconciliation of excel_handler2.py: both sheets are floored to the hour and padded
  to one gap-free hourly range (`fill_missing_hours`), then the new batch is upserted into the
  stored one (`update_existing_data`); `update_all_sheets` does this for the four sheets.
  Timestamps are seconds; an hour-aligned timestamp is a multiple of HOUR.
 */
module Reconcile {
  import opened Wrappers
  import opened Seqs
  import opened Frames

  // ---------------------------------------------------------------------------------------------
  // Flooring and the upsert of one row

  /** `dt.floor('H')`: the hour-aligned instant at or just before `t`. */
  function FloorHour(t: int): (r: int)
    ensures r % HOUR == 0
    ensures r <= t < r + HOUR
  {
    t - t % HOUR
  }

  /** Every DATETIME of `s` floored to the hour, rows untouched. */
  function FloorTimes(s: Series): (r: Series)
    ensures |r| == |s|
    ensures forall i :: 0 <= i < |s| ==> r[i].time == FloorHour(s[i].time) && r[i].row == s[i].row
  {
    seq(|s|, i requires 0 <= i < |s| => Entry(FloorHour(s[i].time), s[i].row))
  }

  /**
    The per-cell update at one shared timestamp: a present new value replaces the stored one,
    a missing new value leaves the stored cell as it was.
   */
  function Upsert(stored: Row, incoming: Row): (r: Row)
    ensures r.Keys == stored.Keys + incoming.Keys
    ensures forall k :: k in incoming ==> r[k] == incoming[k]
    ensures forall k :: k in stored && k !in incoming ==> r[k] == stored[k]
  {
    stored + incoming
  }

  // ---------------------------------------------------------------------------------------------
  // update_existing_data

  /** `existing_data.at[t, column] = value` for each present value of `x`, at every row stamped `x.time`. */
  function UpsertAt(acc: Series, x: Entry): (r: Series)
    ensures |r| == |acc|
  {
    seq(|acc|, i requires 0 <= i < |acc| =>
      if acc[i].time == x.time then Entry(x.time, Upsert(acc[i].row, x.row)) else acc[i])
  }

  /** One iteration of the loop over the new rows: upsert when the timestamp is known, else append. */
  function Step(acc: Series, x: Entry): Series {
    if x.time in Times(acc) then UpsertAt(acc, x) else acc + [x]
  }

  lemma UpsertAtKeepsTimes(acc: Series, x: Entry)
    ensures forall i :: 0 <= i < |acc| ==> UpsertAt(acc, x)[i].time == acc[i].time
    ensures Times(UpsertAt(acc, x)) == Times(acc)
  {
    var r := UpsertAt(acc, x);
    forall t | t in Times(r) ensures t in Times(acc) {
      var j :| 0 <= j < |r| && r[j].time == t;
      assert acc[j].time == t;
    }
    forall t | t in Times(acc) ensures t in Times(r) {
      var j :| 0 <= j < |acc| && acc[j].time == t;
      assert r[j].time == t;
    }
  }

  /**
    `update_existing_data(existing, new)`: the new rows are visited in order, each either upserted
    into the rows already carrying its timestamp or appended at the end.
   */
  function UpdateExisting(existing: Series, newData: Series): (r: Series)
    ensures Times(r) == Times(existing) + Times(newData)
    ensures |existing| <= |r|
    ensures forall i :: 0 <= i < |existing| ==> r[i].time == existing[i].time
    decreases |newData|
  {
    if |newData| == 0 then existing
    else
      var prefix := newData[..|newData| - 1];
      var x := newData[|newData| - 1];
      var acc := UpdateExisting(existing, prefix);
      UpsertAtKeepsTimes(acc, x);
      TimesAppend(acc, [x]);
      TimesAppend(prefix, [x]);
      assert newData == prefix + [x];
      TimesSingleton(x);
      Step(acc, x)
  }

  // ---------------------------------------------------------------------------------------------
  // A closed form of update_existing_data for series without repeated timestamps

  /** The stored rows, each upserted with the new row at its timestamp when there is one. */
  function Merged(existing: Series, newData: Series): (r: Series)
    ensures |r| == |existing|
  {
    seq(|existing|, i requires 0 <= i < |existing| =>
      if existing[i].time in Times(newData)
      then Entry(existing[i].time, Upsert(existing[i].row, RowAt(newData, existing[i].time)))
      else existing[i])
  }

  /** The new rows whose timestamp the stored series does not have, in their order. */
  function NewOnly(existing: Series, newData: Series): Series {
    Filter(newData, (x: Entry) => x.time !in Times(existing))
  }

  /** The stored rows keep their timestamps, one by one. */
  lemma MergedTimes(existing: Series, newData: Series)
    ensures forall i :: 0 <= i < |existing| ==> Merged(existing, newData)[i].time == existing[i].time
    ensures Times(Merged(existing, newData)) == Times(existing)
  {
    var m := Merged(existing, newData);
    forall t | t in Times(m) ensures t in Times(existing) {
      var j :| 0 <= j < |m| && m[j].time == t;
      assert existing[j].time == t;
    }
    forall t | t in Times(existing) ensures t in Times(m) {
      var j :| 0 <= j < |existing| && existing[j].time == t;
      assert m[j].time == t;
    }
  }

  /** A timestamp that no row carries leaves the upsert without effect. */
  lemma UpsertAtNoop(acc: Series, x: Entry)
    requires x.time !in Times(acc)
    ensures UpsertAt(acc, x) == acc
  {
    forall i | 0 <= i < |acc| ensures UpsertAt(acc, x)[i] == acc[i] {
      assert acc[i].time in Times(acc);
    }
  }

  lemma UpsertAtAppend(a: Series, b: Series, x: Entry)
    requires x.time !in Times(b)
    ensures UpsertAt(a + b, x) == UpsertAt(a, x) + b
  {
    forall i | 0 <= i < |a + b| ensures UpsertAt(a + b, x)[i] == (UpsertAt(a, x) + b)[i] {
      if i >= |a| {
        assert b[i - |a|].time in Times(b);
      }
    }
  }

  /** Adding a new row with a fresh timestamp to the batch upserts the one stored row it matches. */
  lemma MergedStep(existing: Series, prefix: Series, x: Entry)
    requires x.time !in Times(prefix)
    ensures Merged(existing, prefix + [x]) == UpsertAt(Merged(existing, prefix), x)
  {
    var m0 := Merged(existing, prefix);
    MergedTimes(existing, prefix);
    TimesAppend(prefix, [x]);
    TimesSingleton(x);
    forall i | 0 <= i < |existing|
      ensures Merged(existing, prefix + [x])[i] == UpsertAt(m0, x)[i]
    {
      RowAtAppend(prefix, x, existing[i].time);
    }
  }

  lemma NewOnlyTimes(existing: Series, newData: Series)
    ensures Times(NewOnly(existing, newData)) !! Times(existing)
  {
    var o := NewOnly(existing, newData);
    forall t | t in Times(o) ensures t !in Times(existing) {
      var j :| 0 <= j < |o| && o[j].time == t;
    }
  }

  lemma LastTimeIsFresh(s: Series)
    requires UniqueTimes(s) && |s| > 0
    ensures s[|s| - 1].time !in Times(s[..|s| - 1])
  {
  }

  /** One batch row whose timestamp is stored already: the closed form absorbs it into the stored rows. */
  lemma ClosedFormStepStored(existing: Series, prefix: Series, x: Entry)
    requires x.time !in Times(prefix) && x.time in Times(existing)
    ensures UpsertAt(Merged(existing, prefix) + NewOnly(existing, prefix), x) ==
      Merged(existing, prefix + [x]) + NewOnly(existing, prefix + [x])
  {
    var p := (e: Entry) => e.time !in Times(existing);
    var m0, o0 := Merged(existing, prefix), NewOnly(existing, prefix);
    MergedStep(existing, prefix, x);
    FilterAppend(prefix, [x], p);
    assert Filter([x], p) == [];
    assert NewOnly(existing, prefix + [x]) == o0;
    NewOnlyTimes(existing, prefix);
    UpsertAtAppend(m0, o0, x);
  }

  /** One batch row with a new timestamp: the closed form appends it after the new-only rows. */
  lemma ClosedFormStepNew(existing: Series, prefix: Series, x: Entry)
    requires x.time !in Times(prefix) && x.time !in Times(existing)
    ensures Merged(existing, prefix) + NewOnly(existing, prefix) + [x] ==
      Merged(existing, prefix + [x]) + NewOnly(existing, prefix + [x])
  {
    var p := (e: Entry) => e.time !in Times(existing);
    var m0 := Merged(existing, prefix);
    MergedStep(existing, prefix, x);
    UpsertAtNoop(m0, x);
    FilterAppend(prefix, [x], p);
    assert Filter([x], p) == [x];
  }

  /**
    With no repeated timestamp on either side, `update_existing_data` keeps every stored row in
    place (upserting it where the new batch has its timestamp) and appends the new-only rows after
    them in batch order.
   */
  lemma {:induction false} UpdateExistingClosedForm(existing: Series, newData: Series)
    requires UniqueTimes(existing) && UniqueTimes(newData)
    ensures UpdateExisting(existing, newData) == Merged(existing, newData) + NewOnly(existing, newData)
    decreases |newData|
  {
    if |newData| == 0 {
      assert Merged(existing, newData) == existing;
    } else {
      var prefix := newData[..|newData| - 1];
      var x := newData[|newData| - 1];
      assert newData == prefix + [x];
      assert UniqueTimes(prefix);
      UpdateExistingClosedForm(existing, prefix);
      LastTimeIsFresh(newData);
      var acc := UpdateExisting(existing, prefix);
      assert UpdateExisting(existing, newData) == Step(acc, x);
      if x.time in Times(existing) {
        assert x.time in Times(acc);
        ClosedFormStepStored(existing, prefix, x);
      } else {
        assert x.time !in Times(acc);
        ClosedFormStepNew(existing, prefix, x);
      }
    }
  }

  /** Updating a series with itself returns it unchanged. */
  lemma UpdateExistingIdempotent(s: Series)
    requires UniqueTimes(s)
    ensures UpdateExisting(s, s) == s
  {
    UpdateExistingClosedForm(s, s);
    forall i | 0 <= i < |s| ensures Merged(s, s)[i] == s[i] {
      assert s[i].time in Times(s);
      RowAtOfUnique(s, i);
      assert Upsert(s[i].row, s[i].row) == s[i].row;
    }
    assert Merged(s, s) == s;
    FilterNone(s, (x: Entry) => x.time !in Times(s));
    assert NewOnly(s, s) == [];
  }

  /**
    The promises of `update_existing_data` at the level of single cells: at a shared timestamp a
    present new value wins and a missing one keeps the stored cell; stored rows whose timestamp the
    batch lacks are untouched; new-only rows follow all stored rows in batch order.
   */
  lemma UpdateExistingCells(existing: Series, newData: Series)
    requires UniqueTimes(existing) && UniqueTimes(newData)
    ensures var r := UpdateExisting(existing, newData);
      && |r| == |existing| + |NewOnly(existing, newData)|
      && (forall i :: 0 <= i < |existing| ==> r[i].time == existing[i].time)
      && (forall i :: 0 <= i < |existing| && existing[i].time !in Times(newData) ==> r[i] == existing[i])
      && (forall i, j, k :: 0 <= i < |existing| && 0 <= j < |newData| && existing[i].time == newData[j].time ==>
            (k in newData[j].row ==> k in r[i].row && r[i].row[k] == newData[j].row[k]) &&
            (k !in newData[j].row && k in existing[i].row ==> k in r[i].row && r[i].row[k] == existing[i].row[k]))
      && r[|existing|..] == NewOnly(existing, newData)
  {
    UpdateExistingClosedForm(existing, newData);
    var r := UpdateExisting(existing, newData);
    forall i, j | 0 <= i < |existing| && 0 <= j < |newData| && existing[i].time == newData[j].time
      ensures r[i].row == Upsert(existing[i].row, newData[j].row)
    {
      RowAtOfUnique(newData, j);
    }
  }

  // ---------------------------------------------------------------------------------------------
  // fill_missing_hours

  /** `t` is one of the `n` hour-aligned instants lo, lo + 1h, ... */
  predicate InHourRange(t: int, lo: int, n: nat) {
    lo <= t < lo + n * HOUR && (t - lo) % HOUR == 0
  }

  /** The rows of `s` stamped `t`, in their order. */
  function EntriesAt(s: Series, t: int): Series {
    Filter(s, (e: Entry) => e.time == t)
  }

  /**
    The concatenation of `s` with one all-missing row per absent hour of the range, sorted by
    DATETIME: hour by hour, the rows of `s` stamped with that hour, or an all-missing row.
   */
  function Pad(s: Series, lo: int, n: nat): (r: Series)
    ensures |r| >= n
    ensures forall i :: 0 <= i < |r| ==> lo <= r[i].time < lo + n * HOUR
    ensures forall i :: 0 <= i < |s| && InHourRange(s[i].time, lo, n) ==> s[i] in r
    decreases n
  {
    if n == 0 then []
    else
      HourRangeStep(lo, n);
      PadHead(s, lo) + Pad(s, lo + HOUR, n - 1)
  }

  /** The rows padding puts at hour `lo`: the rows of `s` stamped `lo`, or one all-missing row. */
  function PadHead(s: Series, lo: int): (r: Series)
    ensures |r| > 0 && forall i :: 0 <= i < |r| ==> r[i].time == lo
  {
    if lo in Times(s) then
      assert |EntriesAt(s, lo)| > 0 by {
        var j :| 0 <= j < |s| && s[j].time == lo;
        assert s[j] in EntriesAt(s, lo);
      }
      EntriesAt(s, lo)
    else [Entry(lo, map[])]
  }

  /** The hourly grid over the range: hour by hour, the row of `s` there or an all-missing row. */
  function Grid(s: Series, lo: int, n: nat): (r: Series)
    ensures |r| == n
  {
    seq(n, k requires 0 <= k < n => Entry(lo + k * HOUR, RowAt(s, lo + k * HOUR)))
  }

  lemma {:induction false} EntriesAtUnique(s: Series, i: int)
    requires UniqueTimes(s) && 0 <= i < |s|
    ensures EntriesAt(s, s[i].time) == [s[i]]
    decreases |s|
  {
    var p := (e: Entry) => e.time == s[i].time;
    if i == 0 {
      FilterNone(s[1..], p);
    } else {
      assert !p(s[0]);
      EntriesAtUnique(s[1..], i - 1);
    }
  }

  /** Every timestamp of `s` carries one row, so padding yields exactly the hourly grid. */
  lemma {:induction false} PadIsGrid(s: Series, lo: int, n: nat)
    requires UniqueTimes(s)
    ensures Pad(s, lo, n) == Grid(s, lo, n)
    decreases n
  {
    if n > 0 {
      PadIsGrid(s, lo + HOUR, n - 1);
      var g := Grid(s, lo, n);
      var g' := Grid(s, lo + HOUR, n - 1);
      assert g == [g[0]] + g';
      if lo in Times(s) {
        var j :| 0 <= j < |s| && s[j].time == lo;
        EntriesAtUnique(s, j);
        RowAtOfUnique(s, j);
      } else {
        RowAtMissing(s, lo);
      }
    }
  }

  lemma GridProperties(s: Series, lo: int, n: nat)
    ensures UniqueTimes(Grid(s, lo, n))
    ensures forall t :: t in Times(Grid(s, lo, n)) <==> InHourRange(t, lo, n)
  {
    var g := Grid(s, lo, n);
    forall t | InHourRange(t, lo, n) ensures t in Times(g) {
      var k := (t - lo) / HOUR;
      assert g[k].time == t;
    }
  }

  /** The smallest DATETIME of a non-empty series. */
  function MinTime(s: Series): (m: int)
    requires |s| > 0
    ensures m in Times(s)
    ensures forall i :: 0 <= i < |s| ==> m <= s[i].time
    decreases |s|
  {
    if |s| == 1 then s[0].time
    else
      var m := MinTime(s[1..]);
      TimesCons(s);
      if s[0].time <= m then s[0].time else m
  }

  /** The largest DATETIME of a non-empty series. */
  function MaxTime(s: Series): (m: int)
    requires |s| > 0
    ensures m in Times(s)
    ensures forall i :: 0 <= i < |s| ==> s[i].time <= m
    decreases |s|
  {
    if |s| == 1 then s[0].time
    else
      var m := MaxTime(s[1..]);
      TimesCons(s);
      if s[0].time >= m then s[0].time else m
  }

  /**
    Python's `min(existing_min, new_min)`: the first argument unless the second is smaller. An empty
    batch has minimum NaT, which is never smaller, so the range then comes from the stored sheet.
   */
  function SpanStart(existing: Series, newData: Series): (lo: int)
    requires |existing| > 0
    ensures lo in Times(existing) + Times(newData)
    ensures forall i :: 0 <= i < |existing| ==> lo <= existing[i].time
    ensures forall i :: 0 <= i < |newData| ==> lo <= newData[i].time
  {
    if |newData| > 0 && MinTime(newData) < MinTime(existing) then MinTime(newData) else MinTime(existing)
  }

  /** Python's `max(existing_max, new_max)`, with the same treatment of an empty batch. */
  function SpanEnd(existing: Series, newData: Series): (hi: int)
    requires |existing| > 0
    ensures hi in Times(existing) + Times(newData)
    ensures forall i :: 0 <= i < |existing| ==> existing[i].time <= hi
    ensures forall i :: 0 <= i < |newData| ==> newData[i].time <= hi
  {
    if |newData| > 0 && MaxTime(newData) > MaxTime(existing) then MaxTime(newData) else MaxTime(existing)
  }

  /** Why reconciliation can stop: the stored sheet has no rows, so the range would start at NaT. */
  datatype ReconcileError = EmptyExistingSheet

  /** The number of hours from `lo` through `hi`, both hour-aligned. */
  function HourCount(lo: int, hi: int): nat
    requires lo <= hi
  {
    (hi - lo) / HOUR + 1
  }

  /** `fill_missing_hours(existing, new)`: floor, then pad both to the common hourly range. */
  function FillMissingHours(existing: Series, newData: Series): (r: Result<(Series, Series), ReconcileError>)
    ensures r.Failure? <==> |existing| == 0
  {
    if |existing| == 0 then Failure(EmptyExistingSheet)
    else
      var fe := FloorTimes(existing);
      var fn := FloorTimes(newData);
      var lo := SpanStart(fe, fn);
      var hi := SpanEnd(fe, fn);
      assert lo <= hi by {
        assert lo <= fe[0].time <= hi;
      }
      var n := HourCount(lo, hi);
      Success((Pad(fe, lo, n), Pad(fn, lo, n)))
  }

  lemma FloorTimesAligned(s: Series)
    ensures forall t :: t in Times(FloorTimes(s)) ==> t % HOUR == 0
  {
    var f := FloorTimes(s);
    forall t | t in Times(f) ensures t % HOUR == 0 {
      var j :| 0 <= j < |f| && f[j].time == t;
    }
  }

  lemma AlignedSpan(lo: int, hi: int)
    requires lo % HOUR == 0 && hi % HOUR == 0 && lo <= hi
    ensures lo + (HourCount(lo, hi) - 1) * HOUR == hi
  {
    var a, b := lo / HOUR, hi / HOUR;
    assert lo == a * HOUR;
    assert hi == b * HOUR;
    assert hi - lo == (b - a) * HOUR;
    assert (hi - lo) / HOUR == b - a;
  }

  /** The floored span of a reconciliation is a whole number of hours. */
  lemma SpanIsHourly(existing: Series, newData: Series)
    requires |existing| > 0
    ensures var fe, fn := FloorTimes(existing), FloorTimes(newData);
      var lo, hi := SpanStart(fe, fn), SpanEnd(fe, fn);
      && lo % HOUR == 0 && hi % HOUR == 0 && lo <= hi
      && lo + (HourCount(lo, hi) - 1) * HOUR == hi
  {
    var fe, fn := FloorTimes(existing), FloorTimes(newData);
    var lo, hi := SpanStart(fe, fn), SpanEnd(fe, fn);
    FloorTimesAligned(existing);
    FloorTimesAligned(newData);
    assert lo <= fe[0].time <= hi;
    AlignedSpan(lo, hi);
  }

  lemma HourRangeIsSpan(lo: int, hi: int)
    requires lo % HOUR == 0 && hi % HOUR == 0 && lo <= hi
    ensures forall t :: InHourRange(t, lo, HourCount(lo, hi)) <==> t % HOUR == 0 && lo <= t <= hi
  {
    AlignedSpan(lo, hi);
    forall t ensures InHourRange(t, lo, HourCount(lo, hi)) <==> t % HOUR == 0 && lo <= t <= hi {
      if t % HOUR == 0 && lo <= t <= hi {
        AlignedDifference(lo, t);
      }
      if InHourRange(t, lo, HourCount(lo, hi)) {
        AlignedSum(lo, t - lo);
      }
    }
  }

  lemma AlignedDifference(a: int, b: int)
    requires a % HOUR == 0 && b % HOUR == 0
    ensures (b - a) % HOUR == 0
  {
    var p, q := a / HOUR, b / HOUR;
    assert b - a == (q - p) * HOUR;
  }

  lemma AlignedSum(a: int, d: int)
    requires a % HOUR == 0 && d % HOUR == 0
    ensures (a + d) % HOUR == 0
  {
    var p, q := a / HOUR, d / HOUR;
    assert a + d == (p + q) * HOUR;
  }

  /**
    Both padded frames range over exactly the hours from the earliest to the latest floored
    timestamp of either input, every such hour present, and both are sorted by DATETIME.
   */
  lemma FillMissingHoursRange(existing: Series, newData: Series)
    requires |existing| > 0
    ensures var fe, fn := FloorTimes(existing), FloorTimes(newData);
      var lo, hi := SpanStart(fe, fn), SpanEnd(fe, fn);
      var r := FillMissingHours(existing, newData);
      && r.Success?
      && (forall t :: t in Times(r.value.0) <==> t % HOUR == 0 && lo <= t <= hi)
      && (forall t :: t in Times(r.value.1) <==> t % HOUR == 0 && lo <= t <= hi)
      && SortedByTime(r.value.0) && SortedByTime(r.value.1)
  {
    var fe, fn := FloorTimes(existing), FloorTimes(newData);
    var lo, hi := SpanStart(fe, fn), SpanEnd(fe, fn);
    SpanIsHourly(existing, newData);
    var n := HourCount(lo, hi);
    PadRange(fe, lo, n);
    PadRange(fn, lo, n);
    PadSorted(fe, lo, n);
    PadSorted(fn, lo, n);
    HourRangeIsSpan(lo, hi);
  }

  /** The hours of a range are its first hour and the hours of the range one hour later. */
  lemma HourRangeStep(lo: int, n: nat)
    requires n > 0
    ensures forall t :: InHourRange(t, lo, n) <==> t == lo || InHourRange(t, lo + HOUR, n - 1)
  {
    forall t | InHourRange(t, lo + HOUR, n - 1) ensures InHourRange(t, lo, n) {
      assert t - lo == (t - (lo + HOUR)) + HOUR;
    }
    forall t | InHourRange(t, lo, n) && t != lo ensures InHourRange(t, lo + HOUR, n - 1) {
      assert t - (lo + HOUR) == (t - lo) - HOUR;
    }
  }

  lemma PadHeadTimes(s: Series, lo: int)
    ensures Times(PadHead(s, lo)) == {lo}
  {
    assert PadHead(s, lo)[0].time == lo;
  }

  /** The whole hours `lo`, `lo + HOUR`, ..., `n` of them. */
  function HourSet(lo: int, n: nat): set<int>
    decreases n
  {
    if n == 0 then {} else {lo} + HourSet(lo + HOUR, n - 1)
  }

  lemma {:induction false} HourSetRange(lo: int, n: nat)
    ensures forall t :: t in HourSet(lo, n) <==> InHourRange(t, lo, n)
    decreases n
  {
    if n > 0 {
      HourSetRange(lo + HOUR, n - 1);
      HourRangeStep(lo, n);
    }
  }

  lemma {:induction false} PadHours(s: Series, lo: int, n: nat)
    ensures Times(Pad(s, lo, n)) == HourSet(lo, n)
    decreases n
  {
    if n > 0 {
      PadHours(s, lo + HOUR, n - 1);
      var head, rest := PadHead(s, lo), Pad(s, lo + HOUR, n - 1);
      TimesAppend(head, rest);
      PadHeadTimes(s, lo);
    }
  }

  lemma PadRange(s: Series, lo: int, n: nat)
    ensures forall t :: t in Times(Pad(s, lo, n)) <==> InHourRange(t, lo, n)
  {
    PadHours(s, lo, n);
    HourSetRange(lo, n);
  }

  lemma {:induction false} PadSorted(s: Series, lo: int, n: nat)
    ensures SortedByTime(Pad(s, lo, n))
    decreases n
  {
    if n > 0 {
      PadSorted(s, lo + HOUR, n - 1);
      var head, rest := PadHead(s, lo), Pad(s, lo + HOUR, n - 1);
      assert forall i :: 0 <= i < |rest| ==> lo < rest[i].time;
    }
  }

  /**
    With no repeated floored timestamp, each padded frame is the hourly grid over the span: the
    original rows unchanged at their hour, an all-missing row at every other hour.
   */
  lemma FillMissingHoursGrid(existing: Series, newData: Series)
    requires |existing| > 0
    requires UniqueTimes(FloorTimes(existing)) && UniqueTimes(FloorTimes(newData))
    ensures var fe, fn := FloorTimes(existing), FloorTimes(newData);
      var lo, hi := SpanStart(fe, fn), SpanEnd(fe, fn);
      FillMissingHours(existing, newData) == Success((Grid(fe, lo, HourCount(lo, hi)), Grid(fn, lo, HourCount(lo, hi))))
  {
    var fe, fn := FloorTimes(existing), FloorTimes(newData);
    var lo, hi := SpanStart(fe, fn), SpanEnd(fe, fn);
    PadIsGrid(fe, lo, HourCount(lo, hi));
    PadIsGrid(fn, lo, HourCount(lo, hi));
  }

  /** The grid carries every row of `s` that falls on one of its hours, and an empty row elsewhere. */
  lemma GridRows(s: Series, lo: int, n: nat)
    requires UniqueTimes(s)
    ensures forall i :: 0 <= i < |s| && InHourRange(s[i].time, lo, n) ==> s[i] in Grid(s, lo, n)
    ensures forall e :: e in Grid(s, lo, n) && e.time !in Times(s) ==> e.row == map[]
  {
    var g := Grid(s, lo, n);
    forall i | 0 <= i < |s| && InHourRange(s[i].time, lo, n) ensures s[i] in g {
      var k := (s[i].time - lo) / HOUR;
      assert lo + k * HOUR == s[i].time;
      RowAtOfUnique(s, i);
      assert g[k] == s[i];
    }
    forall e | e in g && e.time !in Times(s) ensures e.row == map[] {
      var k :| 0 <= k < |g| && g[k] == e;
      RowAtMissing(s, e.time);
    }
  }

  /**
    `fill_missing_hours` keeps every row of each side, with its timestamp floored, and the rows it
    inserts hold no value besides DATETIME.
   */
  lemma FillMissingHoursKeepsRows(existing: Series, newData: Series)
    requires |existing| > 0
    requires UniqueTimes(FloorTimes(existing)) && UniqueTimes(FloorTimes(newData))
    ensures var fe, fn := FloorTimes(existing), FloorTimes(newData);
      var r := FillMissingHours(existing, newData);
      && r.Success?
      && (forall i :: 0 <= i < |fe| ==> fe[i] in r.value.0)
      && (forall i :: 0 <= i < |fn| ==> fn[i] in r.value.1)
      && (forall e :: e in r.value.0 && e.time !in Times(fe) ==> e.row == map[])
      && (forall e :: e in r.value.1 && e.time !in Times(fn) ==> e.row == map[])
  {
    var fe, fn := FloorTimes(existing), FloorTimes(newData);
    var lo, hi := SpanStart(fe, fn), SpanEnd(fe, fn);
    FillMissingHoursGrid(existing, newData);
    SpanIsHourly(existing, newData);
    SpanKeepsRows(fe, lo, hi);
    SpanKeepsRows(fn, lo, hi);
  }

  /** The grid over an aligned span carries every row of a side whose times are aligned and within it. */
  lemma SpanKeepsRows(s: Series, lo: int, hi: int)
    requires UniqueTimes(s) && lo % HOUR == 0 && hi % HOUR == 0 && lo <= hi
    requires forall i :: 0 <= i < |s| ==> s[i].time % HOUR == 0 && lo <= s[i].time <= hi
    ensures forall i :: 0 <= i < |s| ==> s[i] in Grid(s, lo, HourCount(lo, hi))
    ensures forall e :: e in Grid(s, lo, HourCount(lo, hi)) && e.time !in Times(s) ==> e.row == map[]
  {
    HourRangeIsSpan(lo, hi);
    GridRows(s, lo, HourCount(lo, hi));
  }


  // ---------------------------------------------------------------------------------------------
  // update_all_sheets

  /** The four sheets of a site's workbook. */
  datatype Sheets = Sheets(combined: Series, hrrr: Series, nam: Series, gfs: Series)

  /** `fill_missing_hours` followed by `update_existing_data`, as done for each sheet. */
  function FillThenUpdate(existing: Series, newData: Series): (r: Result<Series, ReconcileError>)
    ensures r.Failure? <==> |existing| == 0
  {
    var padded :- FillMissingHours(existing, newData);
    Success(UpdateExisting(padded.0, padded.1))
  }

  /**
    `update_all_sheets`: with a stored workbook each sheet is reconciled with its new batch; without
    one the new combined data and the three model sheets are returned as given.
   */
  function UpdateAllSheets(stored: Option<Sheets>, batch: Sheets): (r: Result<Sheets, ReconcileError>)
    ensures stored.None? ==> r == Success(batch)
    ensures stored.Some? ==> (r.Failure? <==>
      |stored.value.combined| == 0 || |stored.value.hrrr| == 0 || |stored.value.nam| == 0 || |stored.value.gfs| == 0)
    ensures stored.Some? && r.Success? ==>
      && FillThenUpdate(stored.value.combined, batch.combined) == Success(r.value.combined)
      && FillThenUpdate(stored.value.hrrr, batch.hrrr) == Success(r.value.hrrr)
      && FillThenUpdate(stored.value.nam, batch.nam) == Success(r.value.nam)
      && FillThenUpdate(stored.value.gfs, batch.gfs) == Success(r.value.gfs)
  {
    match stored
    case None => Success(batch)
    case Some(prev) =>
      var combined :- FillThenUpdate(prev.combined, batch.combined);
      var hrrr :- FillThenUpdate(prev.hrrr, batch.hrrr);
      var nam :- FillThenUpdate(prev.nam, batch.nam);
      var gfs :- FillThenUpdate(prev.gfs, batch.gfs);
      Success(Sheets(combined, hrrr, nam, gfs))
  }

  /** The sheet reconciled from a stored sheet and its batch: the hourly upsert over their span. */
  function HourlyMerge(existing: Series, newData: Series): Series
    requires |existing| > 0
  {
    var fe, fn := FloorTimes(existing), FloorTimes(newData);
    var lo, hi := SpanStart(fe, fn), SpanEnd(fe, fn);
    HourlyUpsert(fe, fn, lo, HourCount(lo, hi))
  }

  /** Each sheet's floored timestamps are unique. */
  predicate UniqueFloored(s: Sheets) {
    && UniqueTimes(FloorTimes(s.combined)) && UniqueTimes(FloorTimes(s.hrrr))
    && UniqueTimes(FloorTimes(s.nam)) && UniqueTimes(FloorTimes(s.gfs))
  }

  /**
    With a stored workbook whose sheets are not empty, every sheet of the result is the hour-by-hour
    upsert of its own stored sheet and batch, so each is gap-free over its span.
   */
  lemma UpdateAllSheetsHourly(stored: Sheets, batch: Sheets)
    requires |stored.combined| > 0 && |stored.hrrr| > 0 && |stored.nam| > 0 && |stored.gfs| > 0
    requires UniqueFloored(stored) && UniqueFloored(batch)
    ensures UpdateAllSheets(Some(stored), batch) == Success(Sheets(
      HourlyMerge(stored.combined, batch.combined), HourlyMerge(stored.hrrr, batch.hrrr),
      HourlyMerge(stored.nam, batch.nam), HourlyMerge(stored.gfs, batch.gfs)))
  {
    FillThenUpdateIsHourlyUpsert(stored.combined, batch.combined);
    FillThenUpdateIsHourlyUpsert(stored.hrrr, batch.hrrr);
    FillThenUpdateIsHourlyUpsert(stored.nam, batch.nam);
    FillThenUpdateIsHourlyUpsert(stored.gfs, batch.gfs);
  }

  /** Hour by hour over the span, the stored row there upserted with the new row there. */
  function HourlyUpsert(fe: Series, fn: Series, lo: int, n: nat): (r: Series)
    ensures |r| == n
  {
    seq(n, k requires 0 <= k < n =>
      Entry(lo + k * HOUR, Upsert(RowAt(fe, lo + k * HOUR), RowAt(fn, lo + k * HOUR))))
  }

  /** Two grids over the same hours share every timestamp, so the update appends nothing. */
  lemma UpdateGrids(fe: Series, fn: Series, lo: int, n: nat)
    ensures UpdateExisting(Grid(fe, lo, n), Grid(fn, lo, n)) == HourlyUpsert(fe, fn, lo, n)
  {
    var ge, gn := Grid(fe, lo, n), Grid(fn, lo, n);
    GridProperties(fe, lo, n);
    GridProperties(fn, lo, n);
    UpdateExistingClosedForm(ge, gn);
    GridsShareHours(fe, fn, lo, n);
    MergedGrids(fe, fn, lo, n);
  }

  lemma GridsShareHours(fe: Series, fn: Series, lo: int, n: nat)
    ensures NewOnly(Grid(fe, lo, n), Grid(fn, lo, n)) == []
  {
    var ge, gn := Grid(fe, lo, n), Grid(fn, lo, n);
    forall i | 0 <= i < |gn| ensures gn[i].time in Times(ge) {
      assert ge[i].time == gn[i].time;
    }
    FilterNone(gn, (x: Entry) => x.time !in Times(ge));
  }

  lemma MergedGrids(fe: Series, fn: Series, lo: int, n: nat)
    ensures Merged(Grid(fe, lo, n), Grid(fn, lo, n)) == HourlyUpsert(fe, fn, lo, n)
  {
    var ge, gn := Grid(fe, lo, n), Grid(fn, lo, n);
    GridProperties(fn, lo, n);
    forall k | 0 <= k < n ensures Merged(ge, gn)[k] == HourlyUpsert(fe, fn, lo, n)[k] {
      assert gn[k].time == ge[k].time;
      assert ge[k].time in Times(gn);
      RowAtOfUnique(gn, k);
    }
  }

  /**
    Filling then updating is an hour-by-hour upsert over the common span: no row is appended
    beyond the padded range, and hour k carries the stored row there upserted with the new one.
   */
  lemma FillThenUpdateIsHourlyUpsert(existing: Series, newData: Series)
    requires |existing| > 0
    requires UniqueTimes(FloorTimes(existing)) && UniqueTimes(FloorTimes(newData))
    ensures var fe, fn := FloorTimes(existing), FloorTimes(newData);
      var lo, hi := SpanStart(fe, fn), SpanEnd(fe, fn);
      FillThenUpdate(existing, newData) == Success(HourlyUpsert(fe, fn, lo, HourCount(lo, hi)))
  {
    var fe, fn := FloorTimes(existing), FloorTimes(newData);
    var lo, hi := SpanStart(fe, fn), SpanEnd(fe, fn);
    FillMissingHoursGrid(existing, newData);
    UpdateGrids(fe, fn, lo, HourCount(lo, hi));
  }

  /**
    The reconciled sheet is gap-free: it runs hour by hour from the earliest to the latest floored
    timestamp of either input, one row per hour, strictly increasing.
   */
  lemma FillThenUpdateGapFree(existing: Series, newData: Series)
    requires |existing| > 0
    requires UniqueTimes(FloorTimes(existing)) && UniqueTimes(FloorTimes(newData))
    ensures var fe, fn := FloorTimes(existing), FloorTimes(newData);
      var lo, hi := SpanStart(fe, fn), SpanEnd(fe, fn);
      var r := FillThenUpdate(existing, newData);
      && r.Success?
      && |r.value| == HourCount(lo, hi)
      && r.value[0].time == lo && r.value[|r.value| - 1].time == hi
      && (forall i :: 0 <= i < |r.value| - 1 ==> r.value[i + 1].time == r.value[i].time + HOUR)
      && UniqueTimes(r.value) && SortedByTime(r.value)
  {
    var fe, fn := FloorTimes(existing), FloorTimes(newData);
    var lo, hi := SpanStart(fe, fn), SpanEnd(fe, fn);
    SpanIsHourly(existing, newData);
    FillThenUpdateIsHourlyUpsert(existing, newData);
    HourlyUpsertShape(fe, fn, lo, HourCount(lo, hi));
  }

  /** The hourly upsert has one row per hour from `lo`, in strictly increasing order. */
  lemma HourlyUpsertShape(fe: Series, fn: Series, lo: int, n: nat)
    requires n > 0
    ensures var r := HourlyUpsert(fe, fn, lo, n);
      && r[0].time == lo && r[n - 1].time == lo + (n - 1) * HOUR
      && (forall i :: 0 <= i < n - 1 ==> r[i + 1].time == r[i].time + HOUR)
      && UniqueTimes(r) && SortedByTime(r)
  {
    var r := HourlyUpsert(fe, fn, lo, n);
    forall i, j | 0 <= i < j < n ensures r[i].time < r[j].time {
      assert r[j].time - r[i].time == (j - i) * HOUR;
    }
  }

  /**
    At an hour where the batch has a row, each value the batch supplies wins, and each stored
    value the batch lacks is kept: present data is never regressed to missing.
   */
  lemma HourlyUpsertCells(fe: Series, fn: Series, lo: int, n: nat, k: int)
    requires UniqueTimes(fe) && UniqueTimes(fn) && 0 <= k < n
    ensures var r := HourlyUpsert(fe, fn, lo, n);
      && (forall i, c :: 0 <= i < |fn| && r[k].time == fn[i].time && c in fn[i].row ==>
            c in r[k].row && r[k].row[c] == fn[i].row[c])
      && (forall i, c :: 0 <= i < |fe| && r[k].time == fe[i].time && c in fe[i].row && c !in RowAt(fn, fe[i].time) ==>
            c in r[k].row && r[k].row[c] == fe[i].row[c])
  {
    var r := HourlyUpsert(fe, fn, lo, n);
    forall i | 0 <= i < |fn| && r[k].time == fn[i].time ensures RowAt(fn, r[k].time) == fn[i].row {
      RowAtOfUnique(fn, i);
    }
    forall i | 0 <= i < |fe| && r[k].time == fe[i].time ensures RowAt(fe, r[k].time) == fe[i].row {
      RowAtOfUnique(fe, i);
    }
  }

  lemma HourlyUpsertKeeps(fe: Series, fn: Series, lo: int, n: nat, i: int)
    requires UniqueTimes(fe) && 0 <= i < |fe|
    requires InHourRange(fe[i].time, lo, n) && fe[i].time !in Times(fn)
    ensures fe[i] in HourlyUpsert(fe, fn, lo, n)
  {
    var t := fe[i].time;
    var k := (t - lo) / HOUR;
    assert lo + k * HOUR == t;
    RowAtOfUnique(fe, i);
    RowAtMissing(fn, t);
    assert Upsert(fe[i].row, map[]) == fe[i].row;
    assert HourlyUpsert(fe, fn, lo, n)[k] == fe[i];
  }

  /** A stored hour that the batch does not mention keeps its row exactly. */
  lemma FillThenUpdateKeepsUntouchedHours(existing: Series, newData: Series, i: int)
    requires |existing| > 0
    requires UniqueTimes(FloorTimes(existing)) && UniqueTimes(FloorTimes(newData))
    requires 0 <= i < |existing|
    requires FloorHour(existing[i].time) !in Times(FloorTimes(newData))
    ensures var r := FillThenUpdate(existing, newData);
      r.Success? && Entry(FloorHour(existing[i].time), existing[i].row) in r.value
  {
    var fe, fn := FloorTimes(existing), FloorTimes(newData);
    var lo, hi := SpanStart(fe, fn), SpanEnd(fe, fn);
    SpanIsHourly(existing, newData);
    FillThenUpdateIsHourlyUpsert(existing, newData);
    FloorTimesAligned(existing);
    assert fe[i].time in Times(fe);
    AlignedDifference(lo, fe[i].time);
    HourRangeIsSpan(lo, hi);
    HourlyUpsertKeeps(fe, fn, lo, HourCount(lo, hi), i);
  }
}
