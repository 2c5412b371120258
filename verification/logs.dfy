/**
  Log pruning of log_cleanup.py. Each line of the process log starts with Python logging's `asctime`
  followed by " - " (the format main.py configures); `delete_old_logs` rewrites the file keeping
  the lines stamped at or after a cutoff some days before now, and every line whose stamp does not
  parse. Times are microseconds since 0001-01-01 00:00, the instant `datetime` counts from; the
  clock reading is a parameter, and a file is its list of lines (`None` when it does not exist).
  Each line keeps the "\n" that `readlines()` leaves at its end, so a line holding only a stamp
  has no " - " and its whole text, newline included, is what the parser sees: it does not parse,
  and the line is kept.
 */
module Logs {
  import opened Wrappers
  import opened Seqs

  /** What separates the stamp from the rest of a log line. */
  const Separator: string := " - "

  /** `days_to_keep` when the caller gives none. */
  const DefaultDays: int := 3

  const MicrosPerSecond: int := 1000000
  const MicrosPerDay: int := 86400 * MicrosPerSecond

  // ---------------------------------------------------------------------------------------------
  // line.split(' - ')[0]

  /** The separator starts at position `k` of the line. */
  predicate SepAt(line: string, k: int) {
    0 <= k && k + |Separator| <= |line| && line[k..k + |Separator|] == Separator
  }

  /** The position of the first separator at or after `j`, or the length of the line. */
  function FindFrom(line: string, j: nat): (r: nat)
    requires j <= |line|
    ensures j <= r <= |line|
    ensures r < |line| ==> SepAt(line, r)
    ensures forall k :: j <= k < r ==> !SepAt(line, k)
    decreases |line| - j
  {
    if j + |Separator| > |line| then |line|
    else if line[j..j + |Separator|] == Separator then j
    else FindFrom(line, j + 1)
  }

  /** The text before the first separator, or the whole line when it has none. */
  function Prefix(line: string): (r: string)
    ensures StartsWith(line, r)
    ensures |r| < |line| ==> SepAt(line, |r|)
    ensures forall k :: 0 <= k < |r| ==> !SepAt(line, k)
  {
    line[..FindFrom(line, 0)]
  }

  // ---------------------------------------------------------------------------------------------
  // Digits

  predicate IsDigit(c: char) {
    '0' <= c <= '9'
  }

  predicate AllDigits(s: string) {
    forall i :: 0 <= i < |s| ==> IsDigit(s[i])
  }

  function Pow10(n: nat): (r: nat)
    ensures r >= 1
  {
    if n == 0 then 1 else 10 * Pow10(n - 1)
  }

  /** The number a run of decimal digits spells. */
  function Number(s: string): (n: nat)
    requires AllDigits(s)
    ensures n < Pow10(|s|)
    decreases |s|
  {
    if |s| == 0 then 0 else Number(s[..|s| - 1]) * 10 + (s[|s| - 1] as int - '0' as int)
  }

  function DigitChar(d: nat): (c: char)
    requires d < 10
    ensures IsDigit(c) && c as int - '0' as int == d
  {
    ('0' as int + d) as char
  }

  /** `n` written with exactly `width` digits, zero-padded on the left. */
  function Padded(n: nat, width: nat): (s: string)
    requires n < Pow10(width)
    ensures |s| == width && AllDigits(s)
    decreases width
  {
    if width == 0 then [] else Padded(n / 10, width - 1) + [DigitChar(n % 10)]
  }

  /** Reading back a padded number gives the number. */
  lemma {:induction false} PaddedValue(n: nat, width: nat)
    requires n < Pow10(width)
    ensures Number(Padded(n, width)) == n
    decreases width
  {
    if width > 0 {
      var s := Padded(n, width);
      assert s[..|s| - 1] == Padded(n / 10, width - 1);
      PaddedValue(n / 10, width - 1);
    }
  }

  // ---------------------------------------------------------------------------------------------
  // The calendar of `datetime`

  datatype Stamp = Stamp(year: int, month: int, day: int, hour: int, minute: int, second: int, micro: int)

  predicate IsLeap(y: int) {
    y % 4 == 0 && (y % 100 != 0 || y % 400 == 0)
  }

  function DaysInMonth(y: int, m: int): (d: int)
    requires 1 <= m <= 12
    ensures 28 <= d <= 31
  {
    if m == 2 then (if IsLeap(y) then 29 else 28)
    else if m == 4 || m == 6 || m == 9 || m == 11 then 30
    else 31
  }

  /** A date and time `datetime` accepts: years 1 to 9999, real days, no leap seconds. */
  predicate ValidStamp(st: Stamp) {
    && 1 <= st.year <= 9999
    && 1 <= st.month <= 12
    && 1 <= st.day <= DaysInMonth(st.year, st.month)
    && 0 <= st.hour < 24 && 0 <= st.minute < 60 && 0 <= st.second < 60
    && 0 <= st.micro < MicrosPerSecond
  }

  /** Days from 0001-01-01 to January 1 of year `y`, in the proleptic Gregorian calendar. */
  function DaysBeforeYear(y: int): int
    requires y >= 1
  {
    var p := y - 1;
    365 * p + p / 4 - p / 100 + p / 400
  }

  function DaysBeforeMonth(y: int, m: int): (d: int)
    requires 1 <= m <= 12
    ensures 0 <= d <= 31 * (m - 1)
  {
    if m == 1 then 0 else DaysBeforeMonth(y, m - 1) + DaysInMonth(y, m - 1)
  }

  /** The stamp as microseconds since 0001-01-01 00:00. */
  function Micros(st: Stamp): int
    requires ValidStamp(st)
  {
    var days := DaysBeforeYear(st.year) + DaysBeforeMonth(st.year, st.month) + st.day - 1;
    (((days * 24 + st.hour) * 60 + st.minute) * 60 + st.second) * MicrosPerSecond + st.micro
  }

  /** Midnight of the stamp's day. */
  function DayStart(st: Stamp): Stamp {
    st.(hour := 0, minute := 0, second := 0, micro := 0)
  }

  /** A valid stamp falls within its own day: at or after its midnight and less than a day later. */
  lemma MicrosWithinDay(st: Stamp)
    requires ValidStamp(st)
    ensures ValidStamp(DayStart(st))
    ensures Micros(DayStart(st)) <= Micros(st) < Micros(DayStart(st)) + MicrosPerDay
  {
    var d := Micros(DayStart(st));
    var secs := (st.hour * 60 + st.minute) * 60 + st.second;
    assert secs < 86400;
    assert Micros(st) == d + secs * MicrosPerSecond + st.micro;
  }

  /**
    `a < b` on `datetime` values: the fields compared in order, year first, the first field that
    differs deciding.
   */
  predicate Earlier(a: Stamp, b: Stamp) {
    if a.year != b.year then a.year < b.year
    else if a.month != b.month then a.month < b.month
    else if a.day != b.day then a.day < b.day
    else if a.hour != b.hour then a.hour < b.hour
    else if a.minute != b.minute then a.minute < b.minute
    else if a.second != b.second then a.second < b.second
    else a.micro < b.micro
  }

  /** The days a year has. */
  function YearLength(y: int): int {
    if IsLeap(y) then 366 else 365
  }

  /** The days before December are 334, or 335 in a leap year. */
  lemma DaysBeforeDecember(y: int)
    ensures DaysBeforeMonth(y, 12) + DaysInMonth(y, 12) == YearLength(y)
  {
    var feb := DaysInMonth(y, 2);
    assert DaysBeforeMonth(y, 3) == 31 + feb;
    assert DaysBeforeMonth(y, 4) == 62 + feb;
    assert DaysBeforeMonth(y, 5) == 92 + feb;
    assert DaysBeforeMonth(y, 6) == 123 + feb;
    assert DaysBeforeMonth(y, 7) == 153 + feb;
    assert DaysBeforeMonth(y, 8) == 184 + feb;
    assert DaysBeforeMonth(y, 9) == 215 + feb;
    assert DaysBeforeMonth(y, 10) == 245 + feb;
    assert DaysBeforeMonth(y, 11) == 276 + feb;
    assert DaysBeforeMonth(y, 12) == 306 + feb;
  }

  /** A later month starts after every day of an earlier one. */
  lemma {:induction false} DaysBeforeMonthMono(y: int, m: int, n: int)
    requires 1 <= m < n <= 12
    ensures DaysBeforeMonth(y, m) + DaysInMonth(y, m) <= DaysBeforeMonth(y, n)
    decreases n
  {
    if m < n - 1 {
      DaysBeforeMonthMono(y, m, n - 1);
    }
  }

  /** Every day of the year falls before the next January 1. */
  lemma DayOfYearBound(y: int, m: int, d: int)
    requires 1 <= m <= 12 && 1 <= d <= DaysInMonth(y, m)
    ensures DaysBeforeMonth(y, m) + d <= YearLength(y)
  {
    DaysBeforeDecember(y);
    if m < 12 {
      DaysBeforeMonthMono(y, m, 12);
    }
  }

  /** January 1 of the next year comes one year length later. */
  lemma YearStep(y: int)
    requires y >= 1
    ensures DaysBeforeYear(y + 1) == DaysBeforeYear(y) + YearLength(y)
  {
    var p := y - 1;
    assert y / 4 - p / 4 == if y % 4 == 0 then 1 else 0;
    assert y / 100 - p / 100 == if y % 100 == 0 then 1 else 0;
    assert y / 400 - p / 400 == if y % 400 == 0 then 1 else 0;
  }

  /** A later year starts no earlier than the January 1 after an earlier one. */
  lemma {:induction false} DaysBeforeYearMono(y: int, z: int)
    requires 1 <= y < z
    ensures DaysBeforeYear(y) + YearLength(y) <= DaysBeforeYear(z)
    decreases z - y
  {
    YearStep(y);
    if y + 1 < z {
      DaysBeforeYearMono(y + 1, z);
      YearStep(y + 1);
    }
  }

  /** The days from 0001-01-01 to the stamp's date. */
  function DayNumber(st: Stamp): int
    requires ValidStamp(st)
  {
    DaysBeforeYear(st.year) + DaysBeforeMonth(st.year, st.month) + st.day - 1
  }

  /** The microseconds from the stamp's midnight. */
  function TimeOfDay(st: Stamp): int {
    ((st.hour * 60 + st.minute) * 60 + st.second) * MicrosPerSecond + st.micro
  }

  /** An earlier date has a smaller day number. */
  lemma DayNumberEarlier(a: Stamp, b: Stamp)
    requires ValidStamp(a) && ValidStamp(b)
    requires a.year < b.year || (a.year == b.year && (a.month < b.month || (a.month == b.month && a.day < b.day)))
    ensures DayNumber(a) < DayNumber(b)
  {
    if a.year < b.year {
      DayOfYearBound(a.year, a.month, a.day);
      DaysBeforeYearMono(a.year, b.year);
    } else if a.month < b.month {
      DaysBeforeMonthMono(a.year, a.month, b.month);
    }
  }

  /** An earlier time of day has fewer microseconds since midnight, all of them within one day. */
  lemma TimeOfDayEarlier(a: Stamp, b: Stamp)
    requires ValidStamp(a) && ValidStamp(b)
    requires a.year == b.year && a.month == b.month && a.day == b.day && Earlier(a, b)
    ensures TimeOfDay(a) < TimeOfDay(b)
  {
  }

  /** An earlier stamp has fewer microseconds. */
  lemma MicrosEarlier(a: Stamp, b: Stamp)
    requires ValidStamp(a) && ValidStamp(b) && Earlier(a, b)
    ensures Micros(a) < Micros(b)
  {
    assert Micros(a) == DayNumber(a) * MicrosPerDay + TimeOfDay(a);
    assert Micros(b) == DayNumber(b) * MicrosPerDay + TimeOfDay(b);
    assert 0 <= TimeOfDay(a) < MicrosPerDay && 0 <= TimeOfDay(b) < MicrosPerDay;
    if a.year != b.year || a.month != b.month || a.day != b.day {
      DayNumberEarlier(a, b);
    } else {
      TimeOfDayEarlier(a, b);
    }
  }

  /** The time scale orders valid stamps exactly as `datetime` compares them. */
  lemma MicrosOrder(a: Stamp, b: Stamp)
    requires ValidStamp(a) && ValidStamp(b)
    ensures Micros(a) < Micros(b) <==> Earlier(a, b)
    ensures Micros(a) == Micros(b) <==> a == b
  {
    if Earlier(a, b) {
      MicrosEarlier(a, b);
    } else if Earlier(b, a) {
      MicrosEarlier(b, a);
    }
  }

  // ---------------------------------------------------------------------------------------------
  // strptime(s, "%Y-%m-%d %H:%M:%S,%f")

  /** Separators in place and digits elsewhere: four-digit year, two-digit fields, one to six fraction digits. */
  predicate Shape(s: string) {
    && 21 <= |s| <= 26
    && s[4] == '-' && s[7] == '-' && s[10] == ' ' && s[13] == ':' && s[16] == ':' && s[19] == ','
    && AllDigits(s[0..4]) && AllDigits(s[5..7]) && AllDigits(s[8..10])
    && AllDigits(s[11..13]) && AllDigits(s[14..16]) && AllDigits(s[17..19]) && AllDigits(s[20..])
  }

  /**
    `datetime.strptime(s, "%Y-%m-%d %H:%M:%S,%f")`, for fixed-width fields: the fraction is padded
    on the right to microseconds, and a shape or a date `datetime` rejects is a ValueError (None).
   */
  function Parse(s: string): (r: Option<Stamp>)
    ensures r.Some? ==> Shape(s) && ValidStamp(r.value)
    ensures r.Some? ==> && r.value.year == Number(s[0..4]) && r.value.month == Number(s[5..7])
                        && r.value.day == Number(s[8..10]) && r.value.hour == Number(s[11..13])
                        && r.value.minute == Number(s[14..16]) && r.value.second == Number(s[17..19])
                        && r.value.micro == Number(s[20..]) * Pow10(26 - |s|)
    ensures Shape(s) && ValidStamp(Stamp(Number(s[0..4]), Number(s[5..7]), Number(s[8..10]), Number(s[11..13]),
                                         Number(s[14..16]), Number(s[17..19]), Number(s[20..]) * Pow10(26 - |s|)))
            ==> r.Some?
  {
    if !Shape(s) then None
    else
      var st := Stamp(Number(s[0..4]), Number(s[5..7]), Number(s[8..10]), Number(s[11..13]),
                      Number(s[14..16]), Number(s[17..19]), Number(s[20..]) * Pow10(26 - |s|));
      if ValidStamp(st) then Some(st) else None
  }

  // ---------------------------------------------------------------------------------------------
  // asctime as Python logging writes it

  /** `%Y-%m-%d %H:%M:%S,mmm`: the stamp to the millisecond. */
  function Format(st: Stamp): (s: string)
    requires ValidStamp(st) && st.year >= 1000
    ensures |s| == 23 && Shape(s)
  {
    var y, mo, d := Padded(st.year, 4), Padded(st.month, 2), Padded(st.day, 2);
    var h, mi, se, ms := Padded(st.hour, 2), Padded(st.minute, 2), Padded(st.second, 2), Padded(st.micro / 1000, 3);
    LayoutFields(y, mo, d, h, mi, se, ms);
    Layout(y, mo, d, h, mi, se, ms)
  }

  /** The fields of a timestamp laid out as `YYYY-MM-DD HH:MM:SS,mmm`. */
  function Layout(y: string, mo: string, d: string, h: string, mi: string, se: string, ms: string): (s: string)
    requires |y| == 4 && |mo| == 2 && |d| == 2 && |h| == 2 && |mi| == 2 && |se| == 2 && |ms| == 3
    ensures |s| == 23
  {
    [y[0], y[1], y[2], y[3], '-', mo[0], mo[1], '-', d[0], d[1], ' ',
     h[0], h[1], ':', mi[0], mi[1], ':', se[0], se[1], ',', ms[0], ms[1], ms[2]]
  }

  /** The stamp truncated to the millisecond, as the log records it. */
  function ToMillis(st: Stamp): Stamp {
    st.(micro := st.micro / 1000 * 1000)
  }

  /** Where each field of a formatted stamp sits. */
  lemma FormatFields(st: Stamp)
    requires ValidStamp(st) && st.year >= 1000
    ensures var s := Format(st);
      && s[0..4] == Padded(st.year, 4) && s[5..7] == Padded(st.month, 2) && s[8..10] == Padded(st.day, 2)
      && s[11..13] == Padded(st.hour, 2) && s[14..16] == Padded(st.minute, 2) && s[17..19] == Padded(st.second, 2)
      && s[20..] == Padded(st.micro / 1000, 3)
      && s[4] == '-' && s[7] == '-' && s[10] == ' ' && s[13] == ':' && s[16] == ':' && s[19] == ','
  {
    LayoutFields(Padded(st.year, 4), Padded(st.month, 2), Padded(st.day, 2),
                 Padded(st.hour, 2), Padded(st.minute, 2), Padded(st.second, 2), Padded(st.micro / 1000, 3));
  }

  lemma LayoutFields(y: string, mo: string, d: string, h: string, mi: string, se: string, ms: string)
    requires |y| == 4 && |mo| == 2 && |d| == 2 && |h| == 2 && |mi| == 2 && |se| == 2 && |ms| == 3
    ensures var s := Layout(y, mo, d, h, mi, se, ms);
      && s[0..4] == y && s[5..7] == mo && s[8..10] == d && s[11..13] == h && s[14..16] == mi && s[17..19] == se
      && s[20..] == ms
      && s[4] == '-' && s[7] == '-' && s[10] == ' ' && s[13] == ':' && s[16] == ':' && s[19] == ','
  {
    var s := Layout(y, mo, d, h, mi, se, ms);
    Slice4(s, 0, y);
    Slice2(s, 5, mo);
    Slice2(s, 8, d);
    Slice2(s, 11, h);
    Slice2(s, 14, mi);
    Slice2(s, 17, se);
    Slice3(s, 20, ms);
    assert s[20..] == s[20..23];
  }

  lemma Slice2(s: string, i: nat, x: string)
    requires |x| == 2 && i + 2 <= |s| && s[i] == x[0] && s[i + 1] == x[1]
    ensures s[i..i + 2] == x
  {
  }

  lemma Slice3(s: string, i: nat, x: string)
    requires |x| == 3 && i + 3 <= |s| && s[i] == x[0] && s[i + 1] == x[1] && s[i + 2] == x[2]
    ensures s[i..i + 3] == x
  {
  }

  lemma Slice4(s: string, i: nat, x: string)
    requires |x| == 4 && i + 4 <= |s| && s[i] == x[0] && s[i + 1] == x[1] && s[i + 2] == x[2] && s[i + 3] == x[3]
    ensures s[i..i + 4] == x
  {
  }

  /** Reading back a stamp the logger wrote gives the time to the millisecond. */
  lemma ParseFormat(st: Stamp)
    requires ValidStamp(st) && st.year >= 1000
    ensures Parse(Format(st)) == Some(ToMillis(st))
  {
    var s := Format(st);
    FormatFields(st);
    PaddedValue(st.year, 4);
    PaddedValue(st.month, 2);
    PaddedValue(st.day, 2);
    PaddedValue(st.hour, 2);
    PaddedValue(st.minute, 2);
    PaddedValue(st.second, 2);
    PaddedValue(st.micro / 1000, 3);
    assert Shape(s);
    assert Pow10(26 - |s|) == 1000;
  }

  // ---------------------------------------------------------------------------------------------
  // delete_old_logs

  /** `datetime.now() - timedelta(days=days_to_keep)`. */
  function Cutoff(now: int, days: int): (c: int)
    ensures now - c == days * MicrosPerDay
    ensures days >= 0 ==> c <= now
  {
    now - days * MicrosPerDay
  }

  /** A line is written back when its stamp does not parse, or when it is not older than the cutoff. */
  predicate Keep(line: string, cutoff: int) {
    match Parse(Prefix(line))
    case None => true
    case Some(st) => Micros(st) >= cutoff
  }

  function KeepFrom(cutoff: int): string -> bool {
    line => Keep(line, cutoff)
  }

  /**
    `delete_old_logs(log_file_path, days)` on the file's lines: a missing file is left missing;
    otherwise the file becomes the lines kept, in their order.
   */
  function DeleteOldLogs(file: Option<seq<string>>, now: int, days: int): (r: Option<seq<string>>)
    ensures r.None? <==> file.None?
    ensures r.Some? ==> IsSubsequence(r.value, file.value)
    ensures r.Some? ==> forall i :: 0 <= i < |r.value| ==> r.value[i] in file.value && Keep(r.value[i], Cutoff(now, days))
    ensures r.Some? ==> forall i :: 0 <= i < |file.value| && Keep(file.value[i], Cutoff(now, days)) ==> file.value[i] in r.value
    ensures r.Some? ==> forall x :: multiset(r.value)[x] == if Keep(x, Cutoff(now, days)) then multiset(file.value)[x] else 0
  {
    match file
    case None => None
    case Some(lines) =>
      FilterIsSubsequence(lines, KeepFrom(Cutoff(now, days)));
      FilterCounts(lines, KeepFrom(Cutoff(now, days)));
      assert forall i :: 0 <= i < |lines| && Keep(lines[i], Cutoff(now, days)) ==> KeepFrom(Cutoff(now, days))(lines[i]);
      Some(Filter(lines, KeepFrom(Cutoff(now, days))))
  }

  /** `delete_old_logs(log_file_path)`: the retention the caller gets when it names none. */
  function DeleteOldLogsDefault(file: Option<seq<string>>, now: int): (r: Option<seq<string>>)
    ensures r.None? <==> file.None?
    ensures r.Some? ==> forall i :: 0 <= i < |file.value| ==>
      (file.value[i] in r.value <==> Keep(file.value[i], now - 3 * MicrosPerDay))
    ensures r.Some? ==> forall x :: multiset(r.value)[x] == if Keep(x, now - 3 * MicrosPerDay) then multiset(file.value)[x] else 0
  {
    DeleteOldLogs(file, now, DefaultDays)
  }

  /** The loop of `delete_old_logs`, writing the lines one by one. */
  method DeleteOldLogsLoop(file: Option<seq<string>>, now: int, days: int) returns (r: Option<seq<string>>)
    ensures r == DeleteOldLogs(file, now, days)
  {
    if file.None? {
      return None;
    }
    var lines := file.value;
    var cutoff := Cutoff(now, days);
    var written: seq<string> := [];
    var i := 0;
    while i < |lines|
      invariant 0 <= i <= |lines|
      invariant written == Filter(lines[..i], KeepFrom(cutoff))
    {
      var line := lines[i];
      var keep := match Parse(Prefix(line))
        case None => true
        case Some(st) => Micros(st) >= cutoff;
      FilterSnoc(lines, i, KeepFrom(cutoff));
      if keep {
        written := written + [line];
      }
      i := i + 1;
    }
    assert lines[..|lines|] == lines;
    r := Some(written);
  }

  /** One more element through the filter. */
  lemma FilterSnoc(s: seq<string>, i: nat, p: string -> bool)
    requires i < |s|
    ensures Filter(s[..i + 1], p) == Filter(s[..i], p) + if p(s[i]) then [s[i]] else []
  {
    assert s[..i + 1] == s[..i] + [s[i]];
    FilterAppend(s[..i], [s[i]], p);
  }

  /** Pruning twice at the same moment prunes nothing more. */
  lemma DeleteOldLogsIdempotent(file: Option<seq<string>>, now: int, days: int)
    ensures DeleteOldLogs(DeleteOldLogs(file, now, days), now, days) == DeleteOldLogs(file, now, days)
  {
    if file.Some? {
      FilterIdempotent(file.value, KeepFrom(Cutoff(now, days)));
    }
  }

  /** Keeping more days keeps every line a shorter retention keeps, in the same order. */
  lemma LongerRetentionKeepsMore(lines: seq<string>, now: int, days1: int, days2: int)
    requires days1 <= days2
    ensures IsSubsequence(DeleteOldLogs(Some(lines), now, days1).value, DeleteOldLogs(Some(lines), now, days2).value)
  {
    forall i | 0 <= i < |lines| && KeepFrom(Cutoff(now, days1))(lines[i]) ensures KeepFrom(Cutoff(now, days2))(lines[i]) {
      assert Cutoff(now, days2) <= Cutoff(now, days1);
    }
    FilterMono(lines, KeepFrom(Cutoff(now, days1)), KeepFrom(Cutoff(now, days2)));
  }

  /** A line whose start is not a stamp survives every pruning. */
  lemma UnparsableKept(lines: seq<string>, now: int, days: int, i: nat)
    requires i < |lines| && Parse(Prefix(lines[i])).None?
    ensures lines[i] in DeleteOldLogs(Some(lines), now, days).value
  {
  }

  /**
    For a line whose stamp parses, keeping it on the time scale is `log_datetime >= cutoff_date`
    on `datetime` values: the stamp is not earlier than the cutoff.
   */
  lemma KeepIsDatetimeComparison(line: string, st: Stamp, cutoff: Stamp)
    requires Parse(Prefix(line)) == Some(st) && ValidStamp(cutoff)
    ensures Keep(line, Micros(cutoff)) <==> !Earlier(st, cutoff)
  {
    MicrosOrder(st, cutoff);
  }

  /** A line holding only a stamp and its newline does not parse, so it survives every pruning. */
  lemma StampOnlyLineKept(cutoff: int)
    ensures Keep("2020-01-01 00:00:00,000\n", cutoff)
  {
    var line := "2020-01-01 00:00:00,000\n";
    forall k | 0 <= k < |line| ensures !SepAt(line, k) {
      if k + 1 < |line| {
        NotSep(line, k);
      }
    }
    assert Prefix(line) == line;
    assert !Shape(line) by {
      assert !IsDigit(line[23]) && line[20..][3] == line[23];
    }
  }

  /** The logger's stamp contains no separator, so it is exactly what the split keeps. */
  lemma PrefixOfStamped(st: Stamp, rest: string)
    requires ValidStamp(st) && st.year >= 1000
    ensures Prefix(Format(st) + Separator + rest) == Format(st)
  {
    var s := Format(st);
    var line := s + Separator + rest;
    FormatFields(st);
    assert SepAt(line, 23);
    forall k | 0 <= k < 23 ensures !SepAt(line, k) {
      assert line[k] == s[k] && line[k + 1] == (s + Separator)[k + 1];
      if k == 10 {
        assert IsDigit(s[11..13][0]);
      } else if k < 4 {
        assert IsDigit(s[0..4][k]);
      } else if k < 10 {
        assert k != 4 && k != 7 ==> IsDigit(s[5..7][0]) && IsDigit(s[5..7][1]) && IsDigit(s[8..10][0]) && IsDigit(s[8..10][1]);
      } else if k < 20 {
        assert k != 13 && k != 16 && k != 19 ==>
          IsDigit(s[11..13][1]) && IsDigit(s[14..16][0]) && IsDigit(s[14..16][1]) && IsDigit(s[17..19][0]) && IsDigit(s[17..19][1]);
      } else {
        assert IsDigit(s[20..][k - 20]);
      }
      NotSep(line, k);
    }
    FindFromFirst(line, 0, 23);
  }

  /** No separator starts where the line has no space followed by a dash. */
  lemma NotSep(line: string, k: nat)
    requires k + 1 < |line| && (line[k] != ' ' || line[k + 1] != '-')
    ensures !SepAt(line, k)
  {
  }

  /** When `r` holds the first separator at or after `j`, it is what the search finds. */
  lemma {:induction false} FindFromFirst(line: string, j: nat, r: nat)
    requires j <= r && SepAt(line, r)
    requires forall k :: j <= k < r ==> !SepAt(line, k)
    ensures FindFrom(line, j) == r
    decreases r - j
  {
    if j < r {
      FindFromFirst(line, j + 1, r);
    }
  }

  /**
    A line the logger wrote is kept exactly when its stamp, to the millisecond, is not older than
    the cutoff.
   */
  lemma StampedLineKept(st: Stamp, rest: string, cutoff: int)
    requires ValidStamp(st) && st.year >= 1000
    ensures ValidStamp(ToMillis(st))
    ensures Keep(Format(st) + Separator + rest, cutoff) <==> Micros(ToMillis(st)) >= cutoff
  {
    PrefixOfStamped(st, rest);
    ParseFormat(st);
  }
}
