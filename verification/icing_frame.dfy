/**
  The frame-level steps of Icing_Calc.py: `rename_columns`, which relabels the model forecast
  columns (HRRR_, NAM_, GFS_) with the FCST names; `calculate_glaze_hardrime_icing`, which adds the
  output columns of the eligible groups and applies the three passes of the Classify module to every
  row; and `process_final_data`, which chains the two.
 */
module IcingFrame {
  import opened Wrappers
  import opened Seqs
  import opened Frames
  import opened Site
  import opened Icing
  import opened Classify

  // ---------------------------------------------------------------------------------------------
  // rename_columns

  /** The substring to look for and the FCST name it gives, in the order the loop tries them. */
  const RenameMap: seq<(string, string)> :=
    [("WSPD", "FCST_WS"), ("TMP", "FCST_Temp"), ("RH", "FCST_RH"), ("SQP", "FCST_SnowWater")]

  /** The column comes from one of the three forecast models. */
  predicate HasModelPrefix(c: string) {
    StartsWith(c, "HRRR_") || StartsWith(c, "NAM_") || StartsWith(c, "GFS_")
  }

  /** The index of the first pair whose substring occurs in `c`. */
  function FirstMatch(c: string, pairs: seq<(string, string)>): (r: Option<nat>)
    ensures r.Some? ==> r.value < |pairs| && Contains(c, pairs[r.value].0)
    ensures forall j :: 0 <= j < |pairs| && (r.None? || j < r.value) ==> !Contains(c, pairs[j].0)
    decreases |pairs|
  {
    if |pairs| == 0 then None
    else if Contains(c, pairs[0].0) then Some(0)
    else match FirstMatch(c, pairs[1..])
      case None => None
      case Some(j) => Some(j + 1)
  }

  /** A prefixed column takes the name of the first matching pair; any other column keeps its name. */
  function RenameWith(c: string, pairs: seq<(string, string)>): string {
    if !HasModelPrefix(c) then c
    else match FirstMatch(c, pairs)
      case None => c
      case Some(j) => pairs[j].1
  }

  /**
    The name `rename_columns` gives column `c`. The loop tries every pair, but once a column has
    been renamed its old label is gone and later renames of that label do nothing, so the first
    matching pair decides.
   */
  function RenameColumn(c: string): (r: string)
    ensures r == c <==> !HasModelPrefix(c) || forall j :: 0 <= j < |RenameMap| ==> !Contains(c, RenameMap[j].0)
    ensures forall i :: (0 <= i < |RenameMap| && HasModelPrefix(c) && Contains(c, RenameMap[i].0) &&
                         (forall j :: 0 <= j < i ==> !Contains(c, RenameMap[j].0))) ==> r == RenameMap[i].1
  {
    TargetsUnprefixed();
    forall i | 0 <= i < |RenameMap| && HasModelPrefix(c) && Contains(c, RenameMap[i].0) &&
      (forall j :: 0 <= j < i ==> !Contains(c, RenameMap[j].0))
      ensures FirstMatch(c, RenameMap) == Some(i)
    {
      FirstMatchUnique(c, RenameMap, i);
    }
    RenameWith(c, RenameMap)
  }

  /** The index that is the first match is the one `FirstMatch` finds. */
  lemma FirstMatchUnique(c: string, pairs: seq<(string, string)>, i: nat)
    requires i < |pairs| && Contains(c, pairs[i].0)
    requires forall j :: 0 <= j < i ==> !Contains(c, pairs[j].0)
    ensures FirstMatch(c, pairs) == Some(i)
  {
  }

  /** No FCST name looks like a model column, so a renamed column is never renamed again. */
  lemma TargetsUnprefixed()
    ensures forall j :: 0 <= j < |RenameMap| ==> !HasModelPrefix(RenameMap[j].1)
  {
    forall j | 0 <= j < |RenameMap| ensures !HasModelPrefix(RenameMap[j].1) {
      var t := RenameMap[j].1;
      assert t[0] == 'F';
      assert !StartsWith(t, "HRRR_") by { assert "HRRR_"[0] == 'H'; }
      assert !StartsWith(t, "NAM_") by { assert "NAM_"[0] == 'N'; }
      assert !StartsWith(t, "GFS_") by { assert "GFS_"[0] == 'G'; }
    }
  }

  /** The names of all columns after `rename_columns`. */
  function Renamed(columns: seq<string>): (r: seq<string>)
    ensures |r| == |columns| && forall m :: 0 <= m < |columns| ==> r[m] == RenameColumn(columns[m])
  {
    seq(|columns|, m requires 0 <= m < |columns| => RenameColumn(columns[m]))
  }

  /** `df.rename(columns={from: to})`: every column labelled `from` is relabelled, the rest stay. */
  function Relabel(labels: seq<string>, from: string, to: string): (r: seq<string>)
    ensures |r| == |labels|
    ensures forall m :: 0 <= m < |labels| ==> r[m] == if labels[m] == from then to else labels[m]
  {
    seq(|labels|, m requires 0 <= m < |labels| => if labels[m] == from then to else labels[m])
  }

  /** The labels once the columns before position `k` have been through the loop. */
  function Done(columns: seq<string>, k: nat): (r: seq<string>)
    requires k <= |columns|
  {
    seq(|columns|, m requires 0 <= m < |columns| =>
      if columns[m] in columns[..k] then RenameColumn(columns[m]) else columns[m])
  }

  /** The labels while column `k` is being tried against the first `i` pairs. */
  function Stage(columns: seq<string>, k: nat, i: nat): (r: seq<string>)
    requires k < |columns| && i <= |RenameMap|
  {
    seq(|columns|, m requires 0 <= m < |columns| =>
      if columns[m] in columns[..k] then RenameColumn(columns[m])
      else if columns[m] == columns[k] then RenameWith(columns[k], RenameMap[..i])
      else columns[m])
  }

  lemma StageStart(columns: seq<string>, k: nat)
    requires k < |columns|
    ensures Stage(columns, k, 0) == Done(columns, k)
  {
  }

  lemma StageEnd(columns: seq<string>, k: nat)
    requires k < |columns|
    ensures Stage(columns, k, |RenameMap|) == Done(columns, k + 1)
  {
    assert RenameMap[..|RenameMap|] == RenameMap;
    forall m | 0 <= m < |columns| ensures Stage(columns, k, |RenameMap|)[m] == Done(columns, k + 1)[m] {
      assert columns[m] in columns[..k + 1] <==> columns[m] in columns[..k] || columns[m] == columns[k] by {
        assert columns[..k + 1] == columns[..k] + [columns[k]];
      }
    }
  }

  /** One more pair at the end: the first match stays, or the new pair is the first that matches. */
  lemma FirstMatchSnoc(c: string, p: seq<(string, string)>, x: (string, string))
    ensures FirstMatch(c, p + [x]) ==
      if FirstMatch(c, p).Some? then FirstMatch(c, p)
      else if Contains(c, x.0) then Some(|p|)
      else None
  {
    var q := p + [x];
    match FirstMatch(c, p)
    case Some(j) =>
      FirstMatchUnique(c, q, j);
    case None =>
      if Contains(c, x.0) {
        FirstMatchUnique(c, q, |p|);
      } else {
        assert forall k :: 0 <= k < |q| ==> q[k].0 == (if k < |p| then p[k].0 else x.0);
      }
  }

  /** One more pair: the first match among `i + 1` pairs extends the first match among `i`. */
  lemma RenameWithSnoc(c: string, i: nat)
    requires i < |RenameMap|
    ensures RenameWith(c, RenameMap[..i + 1]) ==
      if RenameWith(c, RenameMap[..i]) == c && HasModelPrefix(c) && Contains(c, RenameMap[i].0) then RenameMap[i].1
      else RenameWith(c, RenameMap[..i])
  {
    var p := RenameMap[..i];
    assert RenameMap[..i + 1] == p + [RenameMap[i]];
    FirstMatchSnoc(c, p, RenameMap[i]);
    if HasModelPrefix(c) && FirstMatch(c, p).Some? {
      TargetsUnprefixed();
      assert p[FirstMatch(c, p).value] == RenameMap[FirstMatch(c, p).value];
    }
  }

  /** A label that looks like a model column was never renamed. */
  lemma RenamedPrefixed(x: string)
    requires HasModelPrefix(RenameColumn(x))
    ensures RenameColumn(x) == x
  {
    TargetsUnprefixed();
  }

  /** One pair tried against column `k`: the `rename` call, or nothing, moves one stage on. */
  lemma StageStep(columns: seq<string>, k: nat, i: nat)
    requires k < |columns| && i < |RenameMap|
    ensures var col := columns[k];
      Stage(columns, k, i + 1) ==
        if HasModelPrefix(col) && Contains(col, RenameMap[i].0) then Relabel(Stage(columns, k, i), col, RenameMap[i].1)
        else Stage(columns, k, i)
  {
    var col := columns[k];
    var s, t := Stage(columns, k, i), Stage(columns, k, i + 1);
    RenameWithSnoc(col, i);
    var cond := HasModelPrefix(col) && Contains(col, RenameMap[i].0);
    forall m | 0 <= m < |columns|
      ensures t[m] == if cond && s[m] == col then RenameMap[i].1 else s[m]
    {
      if columns[m] in columns[..k] {
        if cond && s[m] == col {
          RenamedPrefixed(columns[m]);
          assert false;
        }
      }
    }
  }

  lemma DoneAll(columns: seq<string>)
    ensures Done(columns, |columns|) == Renamed(columns)
  {
    assert columns[..|columns|] == columns;
  }

  /**
    `rename_columns` as the loop it is written as: for every column and every pair, a prefixed
    column that contains the substring gets `rename(columns={col: new})`, which relabels whatever
    column still carries the old label.
   */
  method RenameColumns(columns: seq<string>) returns (labels: seq<string>)
    ensures labels == Renamed(columns)
  {
    labels := columns;
    var k := 0;
    while k < |columns|
      invariant 0 <= k <= |columns|
      invariant labels == Done(columns, k)
    {
      var col := columns[k];
      StageStart(columns, k);
      var i := 0;
      while i < |RenameMap|
        invariant 0 <= i <= |RenameMap|
        invariant labels == Stage(columns, k, i)
      {
        StageStep(columns, k, i);
        var (key, target) := RenameMap[i];
        if HasModelPrefix(col) && Contains(col, key) {
          labels := Relabel(labels, col, target);
        }
        i := i + 1;
      }
      StageEnd(columns, k);
      k := k + 1;
    }
    DoneAll(columns);
  }

  /** Renaming that merges two columns into one name. */
  datatype RenameError = DuplicateColumns

  /** Distinct renamed names come from distinct columns and name distinct columns. */
  lemma RenamedInjective(columns: seq<string>)
    requires NoDup(Renamed(columns))
    ensures forall a, b :: a in columns && b in columns && RenameColumn(a) == RenameColumn(b) ==> a == b
  {
    forall a, b | a in columns && b in columns && RenameColumn(a) == RenameColumn(b) ensures a == b {
      var i :| 0 <= i < |columns| && columns[i] == a;
      var j :| 0 <= j < |columns| && columns[j] == b;
      assert Renamed(columns)[i] == Renamed(columns)[j];
    }
  }

  /** One row after the rename: each cell moves to its column's new name. */
  function RenameRow(row: Row, columns: seq<string>): (r: Row)
    requires NoDup(Renamed(columns))
    ensures forall c :: c in columns ==> CellAt(r, RenameColumn(c)) == CellAt(row, c)
    ensures forall n :: n in r ==> exists c :: c in columns && n == RenameColumn(c)
  {
    RenamedInjective(columns);
    map c | c in row.Keys && c in columns :: RenameColumn(c) := row[c]
  }

  /**
    `rename_columns` on a frame. A frame whose renamed columns repeat a name has no cell-by-name
    reading, and is an error here.
   */
  function RenameFrame(f: Frame): (r: Result<Frame, RenameError>)
    ensures r.Failure? <==> !NoDup(Renamed(f.columns))
    ensures r.Success? ==>
      && r.value.columns == Renamed(f.columns)
      && |r.value.entries| == |f.entries|
      && (forall i :: 0 <= i < |f.entries| ==> r.value.entries[i].time == f.entries[i].time)
      && (forall i, c :: 0 <= i < |f.entries| && c in f.columns ==>
            CellAt(r.value.entries[i].row, RenameColumn(c)) == CellAt(f.entries[i].row, c))
  {
    if !NoDup(Renamed(f.columns)) then Failure(DuplicateColumns)
    else
      var cols := Renamed(f.columns);
      Success(Frame(cols, seq(|f.entries|, i requires 0 <= i < |f.entries| =>
        Entry(f.entries[i].time, RenameRow(f.entries[i].row, f.columns)))))
  }

  // ---------------------------------------------------------------------------------------------
  // calculate_glaze_hardrime_icing

  /** The groups whose five source columns are all present. */
  function EligibleGroups(columns: seq<string>, site: string): (r: set<Group>)
    ensures forall g :: g in r <==> Eligible(g, columns, site)
  {
    GroupsDistinct();
    set g | g in Groups && Eligible(g, columns, site)
  }

  /** The groups that have a zone column once the first pass is done. */
  function ZonedGroups(columns: seq<string>, site: string): (r: set<Group>)
    ensures forall g :: g in r <==> Eligible(g, columns, site) || OutName(g, IcingTypeZoneCol) in columns
  {
    GroupsDistinct();
    set g | g in Groups && (Eligible(g, columns, site) || OutName(g, IcingTypeZoneCol) in columns)
  }

  const CurveOrder: seq<Output> := [GlazeCurveCol, HardRimeCurveCol, IcingTypeZoneCol]
  const VerdictOrder: seq<Output> := [IcingCol, WindZoneCol, PitchZoneCol, TempZoneCol]

  /** Column `c` is output `o` of group `g` for some `o` in `os`. */
  predicate OutputIn(c: string, g: Group, os: seq<Output>) {
    exists o :: o in os && c == OutName(g, o)
  }

  /** Column `c` is an output in `os` of some group of `gs` in `chosen`. */
  predicate PassWrites(c: string, gs: seq<Group>, chosen: set<Group>, os: seq<Output>) {
    exists g, o :: g in gs && g in chosen && o in os && c == OutName(g, o)
  }

  /** The columns of one group's outputs `os`, added in order. */
  function AddOutputs(columns: seq<string>, g: Group, os: seq<Output>): (r: seq<string>)
    ensures columns <= r
    ensures forall c :: c in r <==> c in columns || OutputIn(c, g, os)
    ensures NoDup(columns) ==> NoDup(r)
    decreases |os|
  {
    if |os| == 0 then columns
    else
      var r := AddOutputs(AddColumn(columns, OutName(g, os[0])), g, os[1..]);
      assert forall o :: o in os <==> o == os[0] || o in os[1..];
      r
  }

  /** One pass of `calculate_glaze_hardrime_icing` over the columns: outputs `os` of each chosen group. */
  function AddPass(columns: seq<string>, gs: seq<Group>, chosen: set<Group>, os: seq<Output>): (r: seq<string>)
    ensures columns <= r
    ensures forall c :: c in r <==> c in columns || PassWrites(c, gs, chosen, os)
    ensures NoDup(columns) ==> NoDup(r)
    decreases |gs|
  {
    if |gs| == 0 then columns
    else
      var next := if gs[0] in chosen then AddOutputs(columns, gs[0], os) else columns;
      var r := AddPass(next, gs[1..], chosen, os);
      assert forall g :: g in gs <==> g == gs[0] || g in gs[1..];
      r
  }

  /** The columns after the three passes: curves and zone, thresholds, verdicts and zone labels. */
  function CalculateColumns(columns: seq<string>, eligible: set<Group>, zoned: set<Group>): (r: seq<string>)
    ensures columns <= r
    ensures NoDup(columns) ==> NoDup(r)
  {
    var c1 := AddPass(columns, Groups, eligible, CurveOrder);
    var c2 := AddPass(c1, Groups, zoned, [RHThresholdCol]);
    var r := AddPass(c2, Groups, eligible, VerdictOrder);
    PrefixTrans(columns, c1, c2);
    PrefixTrans(columns, c2, r);
    r
  }

  lemma PrefixTrans(a: seq<string>, b: seq<string>, c: seq<string>)
    requires a <= b && b <= c
    ensures a <= c
  {
    assert c[..|a|] == b[..|a|];
  }

  /** Every output belongs to exactly one pass's list. */
  lemma OutputOrder(o: Output)
    ensures o in CurveOrder || o == RHThresholdCol || o in VerdictOrder
  {
    match o
    case GlazeCurveCol => assert CurveOrder[0] == o;
    case HardRimeCurveCol => assert CurveOrder[1] == o;
    case IcingTypeZoneCol => assert CurveOrder[2] == o;
    case RHThresholdCol =>
    case IcingCol => assert VerdictOrder[0] == o;
    case WindZoneCol => assert VerdictOrder[1] == o;
    case PitchZoneCol => assert VerdictOrder[2] == o;
    case TempZoneCol => assert VerdictOrder[3] == o;
  }

  lemma PrefixMember(a: seq<string>, b: seq<string>, x: string)
    requires a <= b && x in a
    ensures x in b
  {
    var i :| 0 <= i < |a| && a[i] == x;
    assert b[i] == x;
  }

  /** A pass adds a column for each output it computes. */
  lemma PassAdds(columns: seq<string>, gs: seq<Group>, chosen: set<Group>, os: seq<Output>, g: Group, o: Output)
    requires g in gs && g in chosen && o in os
    ensures OutName(g, o) in AddPass(columns, gs, chosen, os)
  {
  }

  /** A pass keeps every column it is given. */
  lemma PassKeeps(columns: seq<string>, gs: seq<Group>, chosen: set<Group>, os: seq<Output>, x: string)
    requires x in columns
    ensures x in AddPass(columns, gs, chosen, os)
  {
  }

  lemma CurveColumnAdded(columns: seq<string>, eligible: set<Group>, zoned: set<Group>, g: Group, o: Output)
    requires g in eligible && o in CurveOrder
    ensures OutName(g, o) in CalculateColumns(columns, eligible, zoned)
  {
    assert g in Groups by { GroupsDistinct(); }
    var c1 := AddPass(columns, Groups, eligible, CurveOrder);
    var c2 := AddPass(c1, Groups, zoned, [RHThresholdCol]);
    PassAdds(columns, Groups, eligible, CurveOrder, g, o);
    PassKeeps(c1, Groups, zoned, [RHThresholdCol], OutName(g, o));
    PassKeeps(c2, Groups, eligible, VerdictOrder, OutName(g, o));
  }

  lemma ThresholdColumnAdded(columns: seq<string>, eligible: set<Group>, zoned: set<Group>, g: Group)
    requires g in zoned
    ensures OutName(g, RHThresholdCol) in CalculateColumns(columns, eligible, zoned)
  {
    assert g in Groups by { GroupsDistinct(); }
    var c1 := AddPass(columns, Groups, eligible, CurveOrder);
    var c2 := AddPass(c1, Groups, zoned, [RHThresholdCol]);
    PassAdds(c1, Groups, zoned, [RHThresholdCol], g, RHThresholdCol);
    PassKeeps(c2, Groups, eligible, VerdictOrder, OutName(g, RHThresholdCol));
  }

  /** Each output a pass computes has a column afterwards. */
  lemma InCalculated(columns: seq<string>, eligible: set<Group>, zoned: set<Group>, g: Group, o: Output)
    requires eligible <= zoned
    requires g in eligible || (g in zoned && o == RHThresholdCol)
    ensures OutName(g, o) in CalculateColumns(columns, eligible, zoned)
  {
    OutputOrder(o);
    if o == RHThresholdCol && g in zoned {
      ThresholdColumnAdded(columns, eligible, zoned, g);
    } else if o in CurveOrder {
      CurveColumnAdded(columns, eligible, zoned, g, o);
    } else if o in VerdictOrder {
      assert g in Groups by { GroupsDistinct(); }
      PassAdds(AddPass(AddPass(columns, Groups, eligible, CurveOrder), Groups, zoned, [RHThresholdCol]), Groups, eligible, VerdictOrder, g, o);
    } else {
      ThresholdColumnAdded(columns, eligible, zoned, g);
    }
  }

  /** A column after a pass was there before or is an output the pass computes. */
  lemma PassOrigin(columns: seq<string>, gs: seq<Group>, chosen: set<Group>, os: seq<Output>, c: string)
    requires c in AddPass(columns, gs, chosen, os)
    ensures c in columns || exists g, o :: g in chosen && o in os && c == OutName(g, o)
  {
    if c !in columns {
      assert PassWrites(c, gs, chosen, os);
    }
  }

  /** The output a column added by a pass names. */
  lemma PassOriginOf(columns: seq<string>, gs: seq<Group>, chosen: set<Group>, os: seq<Output>, c: string)
    returns (g: Group, o: Output)
    requires c in AddPass(columns, gs, chosen, os) && c !in columns
    ensures g in chosen && o in os && c == OutName(g, o)
  {
    assert PassWrites(c, gs, chosen, os);
    g, o :| g in gs && g in chosen && o in os && c == OutName(g, o);
  }

  lemma FromCurvePass(columns: seq<string>, eligible: set<Group>, c: string)
    requires c in AddPass(columns, Groups, eligible, CurveOrder) && c !in columns
    ensures exists g, o :: g in eligible && c == OutName(g, o)
  {
    PassOrigin(columns, Groups, eligible, CurveOrder, c);
  }

  lemma FromThresholdPass(c1: seq<string>, zoned: set<Group>, c: string)
    requires c in AddPass(c1, Groups, zoned, [RHThresholdCol]) && c !in c1
    ensures exists g :: g in zoned && c == OutName(g, RHThresholdCol)
  {
    var g, o := PassOriginOf(c1, Groups, zoned, [RHThresholdCol], c);
    assert o == RHThresholdCol;
  }

  lemma FromVerdictPass(c2: seq<string>, eligible: set<Group>, c: string)
    requires c in AddPass(c2, Groups, eligible, VerdictOrder) && c !in c2
    ensures exists g, o :: g in eligible && c == OutName(g, o)
  {
    PassOrigin(c2, Groups, eligible, VerdictOrder, c);
  }

  /** Every column after the passes was there before or is the output of a chosen group. */
  lemma CalculatedFrom(columns: seq<string>, eligible: set<Group>, zoned: set<Group>, c: string)
    requires c in CalculateColumns(columns, eligible, zoned)
    ensures || c in columns
            || (exists g, o :: g in eligible && c == OutName(g, o))
            || (exists g :: g in zoned && c == OutName(g, RHThresholdCol))
  {
    var c1 := AddPass(columns, Groups, eligible, CurveOrder);
    var c2 := AddPass(c1, Groups, zoned, [RHThresholdCol]);
    if c !in c2 {
      FromVerdictPass(c2, eligible, c);
    } else if c !in c1 {
      FromThresholdPass(c1, zoned, c);
    } else if c !in columns {
      FromCurvePass(columns, eligible, c);
    }
  }

  /** The passes over a frame's columns add only outputs of groups that compute them. */
  lemma MembersFrom(columns: seq<string>, site: string, c: string)
    requires c in CalculateColumns(columns, EligibleGroups(columns, site), ZonedGroups(columns, site))
    ensures || c in columns
            || (exists g, o :: Eligible(g, columns, site) && c == OutName(g, o))
            || (exists g :: OutName(g, IcingTypeZoneCol) in columns && c == OutName(g, RHThresholdCol))
  {
    var eligible, zoned := EligibleGroups(columns, site), ZonedGroups(columns, site);
    CalculatedFrom(columns, eligible, zoned, c);
    if c !in columns && !exists g, o :: g in eligible && c == OutName(g, o) {
      var g :| g in zoned && c == OutName(g, RHThresholdCol);
      assert !Eligible(g, columns, site) by {
        assert !(g in eligible && c == OutName(g, RHThresholdCol));
      }
    }
  }

  /** The passes over a frame's columns add every output its groups compute. */
  lemma MembersTo(columns: seq<string>, site: string, c: string)
    requires || (exists g, o :: Eligible(g, columns, site) && c == OutName(g, o))
             || (exists g :: OutName(g, IcingTypeZoneCol) in columns && c == OutName(g, RHThresholdCol))
    ensures c in CalculateColumns(columns, EligibleGroups(columns, site), ZonedGroups(columns, site))
  {
    var eligible, zoned := EligibleGroups(columns, site), ZonedGroups(columns, site);
    if exists g, o :: Eligible(g, columns, site) && c == OutName(g, o) {
      var g, o :| Eligible(g, columns, site) && c == OutName(g, o);
      InCalculated(columns, eligible, zoned, g, o);
    } else {
      var g :| OutName(g, IcingTypeZoneCol) in columns && c == OutName(g, RHThresholdCol);
      InCalculated(columns, eligible, zoned, g, RHThresholdCol);
    }
  }

  /**
    `calculate_glaze_hardrime_icing`: which groups take part is decided by the columns of the frame
    (adding output columns never changes it; see `EligibleStable`), and every row goes through the
    three passes.
   */
  function Calculate(f: Frame, site: string, spec: SiteSpec): (r: Frame)
    ensures |r.entries| == |f.entries|
    ensures forall i :: 0 <= i < |f.entries| ==> r.entries[i].time == f.entries[i].time
    ensures f.columns <= r.columns
    ensures NoDup(f.columns) ==> NoDup(r.columns)
  {
    var eligible, zoned := EligibleGroups(f.columns, site), ZonedGroups(f.columns, site);
    Frame(CalculateColumns(f.columns, eligible, zoned), ClassifyEntries(f.entries, eligible, zoned, site, spec))
  }

  /** Every row through the three passes, at its own time. */
  function ClassifyEntries(s: Series, eligible: set<Group>, zoned: set<Group>, site: string, spec: SiteSpec): (r: Series)
    ensures |r| == |s|
    ensures forall i :: 0 <= i < |s| ==> r[i].time == s[i].time
    ensures forall i :: 0 <= i < |s| ==> r[i].row == ClassifyRow(s[i].row, eligible, zoned, site, spec)
  {
    seq(|s|, i requires 0 <= i < |s| => Entry(s[i].time, ClassifyRow(s[i].row, eligible, zoned, site, spec)))
  }

  /**
    Every row of the result holds the expected outputs of each eligible group; a group with a zone
    column but not all its sources gets its threshold recomputed from that zone; every other cell
    keeps its value.
   */
  lemma CalculateCells(f: Frame, site: string, spec: SiteSpec, i: int)
    requires 0 <= i < |f.entries|
    ensures var row, out := f.entries[i].row, Calculate(f, site, spec).entries[i].row;
      && (forall g, o :: Eligible(g, f.columns, site) ==> CellAt(out, OutName(g, o)) == Expected(row, g, o, site, spec))
      && (forall g :: !Eligible(g, f.columns, site) && OutName(g, IcingTypeZoneCol) in f.columns ==>
            CellAt(out, OutName(g, RHThresholdCol)) == NumCell(RHThreshold(CellAt(row, OutName(g, IcingTypeZoneCol)), spec)))
      && (forall g, o :: !Eligible(g, f.columns, site) && (OutName(g, IcingTypeZoneCol) !in f.columns || o != RHThresholdCol) ==>
            CellAt(out, OutName(g, o)) == CellAt(row, OutName(g, o)))
      && (forall c :: (forall g, o :: c != OutName(g, o)) ==> CellAt(out, c) == CellAt(row, c))
  {
    var eligible, zoned := EligibleGroups(f.columns, site), ZonedGroups(f.columns, site);
    ClassifyRowCells(f.entries[i].row, eligible, zoned, site, spec);
  }

  // ---------------------------------------------------------------------------------------------
  // process_final_data

  /** `process_final_data`: rename, then classify the renamed frame. */
  function ProcessFinalData(f: Frame, site: string, spec: SiteSpec): (r: Result<Frame, RenameError>)
    ensures r.Failure? <==> !NoDup(Renamed(f.columns))
    ensures r.Success? ==>
      && Renamed(f.columns) <= r.value.columns
      && |r.value.entries| == |f.entries|
      && (forall i :: 0 <= i < |f.entries| ==> r.value.entries[i].time == f.entries[i].time)
  {
    var renamed :- RenameFrame(f);
    Success(Calculate(renamed, site, spec))
  }

  /**
    After `process_final_data` every cell of a column that is no output keeps its value under the
    column's new name, and each eligible group's outputs are the expected values of the renamed row.
   */
  lemma ProcessFinalDataCells(f: Frame, site: string, spec: SiteSpec, i: int)
    requires 0 <= i < |f.entries| && NoDup(Renamed(f.columns))
    ensures var out := ProcessFinalData(f, site, spec).value.entries[i].row;
      var renamed := RenameRow(f.entries[i].row, f.columns);
      && (forall c :: c in f.columns && (forall g, o :: RenameColumn(c) != OutName(g, o)) ==>
            CellAt(out, RenameColumn(c)) == CellAt(f.entries[i].row, c))
      && (forall g, o :: Eligible(g, Renamed(f.columns), site) ==>
            CellAt(out, OutName(g, o)) == Expected(renamed, g, o, site, spec))
  {
    var renamed := RenameFrame(f).value;
    assert renamed.entries[i].row == RenameRow(f.entries[i].row, f.columns);
    CalculateCells(renamed, site, spec, i);
  }
}
