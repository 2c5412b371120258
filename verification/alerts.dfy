/**
  The alert decision of icing_check_email.py. `get_site_current_time` shifts UTC by the site's
  offset; `check_icing_condition` selects the rows of the next twelve hours, looks for three
  adjacent rows whose FCST verdict is an icing type, and sends at most one alert per site every
  six hours. The clock reading, the cooldown file and the email are parameters and results here:
  the caller passes the UTC time and the stored alert times, and gets back the decision and the
  alert times to store.
 */
module Alerts {
  import opened Wrappers
  import opened Seqs
  import opened Frames
  import opened Site

  /** How far ahead the forecast is searched, and how long a site stays quiet after an alert. */
  const WINDOW: int := 12 * HOUR
  const COOLDOWN: int := 6 * HOUR

  /** The verdict column the alert reads, and the icing types that count as a hit. */
  const VerdictColumn: string := "FCST_Icing"
  const IcingLabels: set<string> := {"Glaze", "Hard Rime", "Soft Rime"}

  // ---------------------------------------------------------------------------------------------
  // get_site_current_time

  /** The site's wall-clock time for a UTC time: the zone offset, one hour more under DST. */
  function SiteTime(utc: int, spec: SiteSpec): (r: int)
    ensures !spec.dstObserved ==> r == utc + spec.utcOffset
    ensures spec.dstObserved ==> r == utc + spec.utcOffset + HOUR
    ensures spec.utcOffset % HOUR == 0 ==> (r - utc) % HOUR == 0
  {
    utc + spec.utcOffset + (if spec.dstObserved then HOUR else 0)
  }

  /** The offset is flat: it does not depend on the date, so time differences are kept. */
  lemma SiteTimeIsFlat(utc: int, d: int, spec: SiteSpec)
    ensures SiteTime(utc + d, spec) == SiteTime(utc, spec) + d
    ensures SiteTime(utc, spec) - utc == SiteTime(utc + d, spec) - (utc + d)
  {
  }

  /** Observing DST puts the site one hour later than its standard offset. */
  lemma SiteTimeDst(utc: int, spec: SiteSpec)
    requires spec.dstObserved
    ensures SiteTime(utc, spec) == SiteTime(utc, spec.(dstObserved := false)) + HOUR
    ensures SiteTime(utc, spec.(dstObserved := false)) == utc + spec.utcOffset
  {
  }

  // ---------------------------------------------------------------------------------------------
  // The window and the run of hits

  /** The row is within the inclusive window from `now` to twelve hours later. */
  predicate InWindow(e: Entry, now: int) {
    now <= e.time <= now + WINDOW
  }

  /** `final_data[(DATETIME >= now) & (DATETIME <= now + 12h)]`, in row order. */
  function Window(s: Series, now: int): (w: Series)
    ensures IsSubsequence(w, s)
    ensures forall i :: 0 <= i < |w| ==> now <= w[i].time <= now + WINDOW
    ensures forall i :: 0 <= i < |s| && now <= s[i].time <= now + WINDOW ==> s[i] in w
    ensures forall e :: multiset(w)[e] == if now <= e.time <= now + WINDOW then multiset(s)[e] else 0
  {
    var inWindow := e => InWindow(e, now);
    FilterIsSubsequence(s, inWindow);
    FilterCounts(s, inWindow);
    Filter(s, inWindow)
  }

  /** The verdict is an icing type; a missing verdict is filled with NO ICE, which is no hit. */
  predicate IsHit(e: Entry) {
    VerdictColumn in e.row && e.row[VerdictColumn].Text? && e.row[VerdictColumn].s in IcingLabels
  }

  /** `isin(icing_conditions).astype(int)` for one row. */
  function Flag(e: Entry): (r: int)
    ensures r == 0 || r == 1
    ensures r == 1 <==> IsHit(e)
  {
    if IsHit(e) then 1 else 0
  }

  /** Rows `j`, `j + 1` and `j + 2` are all hits. */
  predicate RunAt(w: Series, j: int)
    requires 0 <= j && j + 2 < |w|
  {
    IsHit(w[j]) && IsHit(w[j + 1]) && IsHit(w[j + 2])
  }

  /** Three adjacent rows of the window are hits. */
  predicate ThreeInARow(w: Series) {
    exists j :: 0 <= j && j + 2 < |w| && RunAt(w, j)
  }

  /**
    `(icing_flag.rolling(window=3).sum() >= 3).any()`: the first two sums are undefined (NaN), and
    each later one adds the flags of a row and the two before it.
   */
  method RollingRun(w: Series) returns (found: bool)
    ensures found <==> ThreeInARow(w)
  {
    found := false;
    var i := 2;
    while i < |w|
      invariant 2 <= i
      invariant found <==> exists j :: 0 <= j && j + 2 < i && j + 2 < |w| && RunAt(w, j)
    {
      var sum := Flag(w[i - 2]) + Flag(w[i - 1]) + Flag(w[i]);
      assert sum >= 3 <==> RunAt(w, i - 2);
      if sum >= 3 {
        found := true;
      }
      i := i + 1;
    }
  }

  /** A window of fewer than three rows never holds a run. */
  lemma ShortWindowNoRun(w: Series)
    requires |w| < 3
    ensures !ThreeInARow(w)
  {
  }

  // ---------------------------------------------------------------------------------------------
  // check_icing_condition

  datatype Decision = NoAlert | Suppressed | SendAlert

  /** The last alert time of each site, as kept in the cooldown file. */
  type Cooldown = map<string, int>

  /** The decision and the alert times to store afterwards. */
  datatype Outcome = Outcome(decision: Decision, cooldown: Cooldown)

  /** Selecting DATETIME or FCST_Icing from a frame without that column. */
  datatype AlertError = MissingColumn(name: string)

  /** An earlier alert for `site` is less than six hours old. */
  predicate CoolingDown(cooldown: Cooldown, site: string, now: int) {
    site in cooldown && now < cooldown[site] + COOLDOWN
  }

  /**
    `check_icing_condition` with the clock, the cooldown file and the email made explicit: no run in
    the window means nothing happens; a run during the cooldown is suppressed; otherwise one alert
    is sent and the site's alert time becomes now.
   */
  function CheckIcing(f: Frame, site: string, utcNow: int, spec: SiteSpec, cooldown: Cooldown): (r: Result<Outcome, AlertError>)
    ensures r.Failure? <==> "DATETIME" !in f.columns || VerdictColumn !in f.columns
    ensures r.Success? ==>
      var now := SiteTime(utcNow, spec);
      && (r.value.decision == NoAlert <==> !ThreeInARow(Window(f.entries, now)))
      && (r.value.decision == Suppressed <==> ThreeInARow(Window(f.entries, now)) && CoolingDown(cooldown, site, now))
      && (r.value.decision == SendAlert <==> r.value.cooldown != cooldown)
      && (r.value.decision == SendAlert ==> r.value.cooldown == cooldown[site := now])
  {
    if "DATETIME" !in f.columns then Failure(MissingColumn("DATETIME"))
    else if VerdictColumn !in f.columns then Failure(MissingColumn(VerdictColumn))
    else
      var now := SiteTime(utcNow, spec);
      if !ThreeInARow(Window(f.entries, now)) then Success(Outcome(NoAlert, cooldown))
      else if CoolingDown(cooldown, site, now) then Success(Outcome(Suppressed, cooldown))
      else
        assert site !in cooldown || cooldown[site] != now;
        Success(Outcome(SendAlert, cooldown[site := now]))
  }

  /** The same decision computed with the rolling sum, as the source writes it. */
  method CheckIcingCondition(f: Frame, site: string, utcNow: int, spec: SiteSpec, cooldown: Cooldown)
    returns (r: Result<Outcome, AlertError>)
    ensures r == CheckIcing(f, site, utcNow, spec, cooldown)
  {
    if "DATETIME" !in f.columns {
      return Failure(MissingColumn("DATETIME"));
    }
    if VerdictColumn !in f.columns {
      return Failure(MissingColumn(VerdictColumn));
    }
    var now := SiteTime(utcNow, spec);
    var siteData := Window(f.entries, now);
    var run := RollingRun(siteData);
    if !run {
      return Success(Outcome(NoAlert, cooldown));
    }
    if site in cooldown && now < cooldown[site] + COOLDOWN {
      return Success(Outcome(Suppressed, cooldown));
    }
    r := Success(Outcome(SendAlert, cooldown[site := now]));
  }

  /** Fewer than three rows in the next twelve hours never raise an alert. */
  lemma FewRowsNoAlert(f: Frame, site: string, utcNow: int, spec: SiteSpec, cooldown: Cooldown)
    requires CheckIcing(f, site, utcNow, spec, cooldown).Success?
    requires |Window(f.entries, SiteTime(utcNow, spec))| < 3
    ensures CheckIcing(f, site, utcNow, spec, cooldown).value == Outcome(NoAlert, cooldown)
  {
    ShortWindowNoRun(Window(f.entries, SiteTime(utcNow, spec)));
  }

  /** Exactly six hours after the last alert the cooldown is over. */
  lemma CooldownEndsAtSixHours(f: Frame, site: string, utcNow: int, spec: SiteSpec, cooldown: Cooldown)
    requires CheckIcing(f, site, utcNow, spec, cooldown).Success?
    requires ThreeInARow(Window(f.entries, SiteTime(utcNow, spec)))
    requires site in cooldown && SiteTime(utcNow, spec) == cooldown[site] + COOLDOWN
    ensures CheckIcing(f, site, utcNow, spec, cooldown).value.decision == SendAlert
  {
  }

  /** An alert for one site leaves every other site's alert time as it was. */
  lemma OtherSitesKept(f: Frame, site: string, utcNow: int, spec: SiteSpec, cooldown: Cooldown, other: string)
    requires CheckIcing(f, site, utcNow, spec, cooldown).Success? && other != site
    ensures var c := CheckIcing(f, site, utcNow, spec, cooldown).value.cooldown;
      (other in c <==> other in cooldown) && (other in c ==> c[other] == cooldown[other])
  {
  }

  /**
    Two checks of one site in time order, the second reading what the first stored: if both send,
    they are at least six hours apart.
   */
  lemma AlertsSpacedBySixHours(f1: Frame, f2: Frame, site: string, utc1: int, utc2: int, spec: SiteSpec, cooldown: Cooldown)
    requires utc1 <= utc2
    requires CheckIcing(f1, site, utc1, spec, cooldown).Success?
    requires CheckIcing(f2, site, utc2, spec, CheckIcing(f1, site, utc1, spec, cooldown).value.cooldown).Success?
    requires CheckIcing(f1, site, utc1, spec, cooldown).value.decision == SendAlert
    requires CheckIcing(f2, site, utc2, spec, CheckIcing(f1, site, utc1, spec, cooldown).value.cooldown).value.decision == SendAlert
    ensures SiteTime(utc2, spec) >= SiteTime(utc1, spec) + COOLDOWN
  {
    var c1 := CheckIcing(f1, site, utc1, spec, cooldown).value.cooldown;
    assert c1[site] == SiteTime(utc1, spec);
    assert !CoolingDown(c1, site, SiteTime(utc2, spec));
  }
}
