/**
  The frame-level classification of Icing_Calc.py: `rename_columns`, which maps the model forecast
  columns onto the FCST names, and `calculate_glaze_hardrime_icing`, which runs three passes over the
  four groups FCST, MCMS, MCMS1 and MCMS2 (curves and zone; RH threshold; verdict and zone labels),
  then `process_final_data`, which chains the two. Every output cell is a function of its own row,
  so each pass is applied to every row; `Expected` gives the value each output cell should hold,
  computed straight from the input row, and `CalculateCells` proves that the passes produce it.
 */
module Classify {
  import opened Wrappers
  import opened Seqs
  import opened Frames
  import opened Site
  import opened Icing

  // ---------------------------------------------------------------------------------------------
  // Groups and their columns

  datatype Group = FCST | MCMS | MCMS1 | MCMS2

  /** The groups in the order the source's dictionary lists them. */
  const Groups: seq<Group> := [FCST, MCMS, MCMS1, MCMS2]

  function GroupName(g: Group): string {
    match g
    case FCST => "FCST"
    case MCMS => "MCMS"
    case MCMS1 => "MCMS1"
    case MCMS2 => "MCMS2"
  }

  /** The verdict policy: a group whose name contains "MCMS" is read from icing sensors. */
  predicate IsSensor(g: Group) {
    Contains(GroupName(g), "MCMS")
  }

  /** Exactly the three MCMS groups follow the sensor policy; FCST follows the forecast policy. */
  lemma SensorIffNotForecast(g: Group)
    ensures IsSensor(g) <==> g != FCST
  {
    if g != FCST {
      ContainsAt(GroupName(g), "MCMS", 0);
    } else {
      assert !Contains("FCST", "MCMS") by {
        assert "FCST"[..4] != "MCMS" by { assert "FCST"[0] != "MCMS"[0]; }
        assert "FCST"[1..] == "CST";
      }
    }
  }

  /** The five source columns of a group, in the source's order. */
  datatype Input = WindSpeed | Temperature | Moisture | Humidity | Severity

  function SensorSuffix(k: Input): string {
    match k
    case WindSpeed => "WindSpeed"
    case Temperature => "NacelleTemperature2"
    case Moisture => "LWC"
    case Humidity => "RH"
    case Severity => "IcingSeverity"
  }

  /**
    The name of a group's source column: the renamed forecast columns for FCST (whose fifth entry
    repeats the RH column), `<site>-<group>-<quantity>` for a sensor group.
   */
  function SourceColumn(g: Group, site: string, k: Input): string {
    if g == FCST then
      match k
      case WindSpeed => "FCST_WS"
      case Temperature => "FCST_Temp"
      case Moisture => "FCST_SnowWater"
      case Humidity => "FCST_RH"
      case Severity => "FCST_RH"
    else site + "-" + GroupName(g) + "-" + SensorSuffix(k)
  }

  /** The eight output columns of a group. */
  datatype Output = GlazeCurveCol | HardRimeCurveCol | IcingTypeZoneCol | RHThresholdCol
                  | IcingCol | WindZoneCol | PitchZoneCol | TempZoneCol

  function Suffix(o: Output): string {
    match o
    case GlazeCurveCol => "_GlazeCurve"
    case HardRimeCurveCol => "_HardRimeCurve"
    case IcingTypeZoneCol => "_IcingTypeZone"
    case RHThresholdCol => "_RH_Threshold"
    case IcingCol => "_Icing"
    case WindZoneCol => "_WindZone m/s"
    case PitchZoneCol => "_PitchZone"
    case TempZoneCol => "_TempZone"
  }

  function OutName(g: Group, o: Output): string {
    GroupName(g) + Suffix(o)
  }

  /** A group is processed only when all five of its source columns are in the frame. */
  predicate Eligible(g: Group, columns: seq<string>, site: string) {
    forall k: Input :: SourceColumn(g, site, k) in columns
  }

  // ---------------------------------------------------------------------------------------------
  // Column names never collide

  function Last2(s: string): string
    requires |s| >= 2
  {
    s[|s| - 2..]
  }

  lemma Last2Append(a: string, b: string)
    requires |b| >= 2
    ensures Last2(a + b) == Last2(b)
  {
    assert (a + b)[|a + b| - 2..] == b[|b| - 2..];
  }

  lemma SuffixInjective(o: Output, p: Output)
    ensures Suffix(o) == Suffix(p) ==> o == p
  {
  }

  /** The two characters of an output name that tell the groups apart: its first and its fifth. */
  function GroupKey(g: Group): (char, char) {
    (GroupName(g)[0], if g == MCMS1 then '1' else if g == MCMS2 then '2' else '_')
  }

  lemma GroupKeyInjective(g: Group, h: Group)
    ensures GroupKey(g) == GroupKey(h) ==> g == h
  {
  }

  lemma OutNameParts(g: Group, o: Output)
    ensures |OutName(g, o)| >= 5 && (OutName(g, o)[0], OutName(g, o)[4]) == GroupKey(g)
    ensures OutName(g, o)[|GroupName(g)|..] == Suffix(o)
  {
    assert Suffix(o)[0] == '_';
  }

  lemma OutNameInjective(g: Group, o: Output, h: Group, p: Output)
    ensures OutName(g, o) == OutName(h, p) ==> g == h && o == p
  {
    if OutName(g, o) == OutName(h, p) {
      OutNameParts(g, o);
      OutNameParts(h, p);
      GroupKeyInjective(g, h);
      SuffixInjective(o, p);
    }
  }

  lemma OutputEnding(h: Group, o: Output)
    ensures var e := Last2(OutName(h, o)); e == "ve" || e == "ne" || e == "ld" || e == "ng" || e == "/s"
  {
    Last2Append(GroupName(h), Suffix(o));
  }

  lemma SourceEnding(g: Group, site: string, k: Input)
    ensures var e := Last2(SourceColumn(g, site, k));
      e == "WS" || e == "mp" || e == "er" || e == "RH" || e == "ed" || e == "e2" || e == "WC" || e == "ty"
  {
    if g != FCST {
      Last2Append(site + "-" + GroupName(g) + "-", SensorSuffix(k));
    }
  }

  lemma SourceNotOutput(g: Group, site: string, k: Input, h: Group, o: Output)
    ensures SourceColumn(g, site, k) != OutName(h, o)
  {
    OutputEnding(h, o);
    SourceEnding(g, site, k);
  }

  /** Output names identify their group and column, and no source column is an output column. */
  lemma NamesDistinct(site: string)
    ensures forall g, o, h, p :: OutName(g, o) == OutName(h, p) ==> g == h && o == p
    ensures forall g, k, h, o :: SourceColumn(g, site, k) != OutName(h, o)
  {
    forall g, o, h, p ensures OutName(g, o) == OutName(h, p) ==> g == h && o == p {
      OutNameInjective(g, o, h, p);
    }
    forall g, k, h, o ensures SourceColumn(g, site, k) != OutName(h, o) {
      SourceNotOutput(g, site, k, h, o);
    }
  }

  /** What a column name says about itself: the output it names, if any. */
  datatype Role = OutputOf(g: Group, o: Output) | NotOutput

  ghost function RoleOf(c: string): Role {
    if exists g, o :: c == OutName(g, o) then
      var g, o :| c == OutName(g, o); OutputOf(g, o)
    else NotOutput
  }

  lemma RoleOfOutput(g: Group, o: Output)
    ensures RoleOf(OutName(g, o)) == OutputOf(g, o)
  {
    forall h, p | OutName(g, o) == OutName(h, p) ensures h == g && p == o {
      OutNameInjective(g, o, h, p);
    }
  }

  lemma RoleOfSource(g: Group, site: string, k: Input)
    ensures RoleOf(SourceColumn(g, site, k)) == NotOutput
  {
    forall h, o ensures SourceColumn(g, site, k) != OutName(h, o) {
      SourceNotOutput(g, site, k, h, o);
    }
  }

  /**
    The distinctness of the names in the form the proofs use: every output name decodes to its
    group and column, every source name to no output.
   */
  lemma NamesDecode(site: string)
    ensures forall g, o :: RoleOf(OutName(g, o)) == OutputOf(g, o)
    ensures forall g, k :: RoleOf(SourceColumn(g, site, k)) == NotOutput
  {
    forall g, o ensures RoleOf(OutName(g, o)) == OutputOf(g, o) {
      RoleOfOutput(g, o);
    }
    forall g, k ensures RoleOf(SourceColumn(g, site, k)) == NotOutput {
      RoleOfSource(g, site, k);
    }
  }

  /** Adding an output column never makes a group eligible or ineligible. */
  lemma EligibleStable(g: Group, columns: seq<string>, site: string, name: string)
    requires exists h, o :: name == OutName(h, o)
    ensures Eligible(g, AddColumn(columns, name), site) <==> Eligible(g, columns, site)
  {
    NamesDecode(site);
  }

  // ---------------------------------------------------------------------------------------------
  // What every output cell should hold

  /** The source cell `k` of group `g` as a number, missing when absent. */
  function Source(row: Row, g: Group, site: string, k: Input): Option<real> {
    NumAt(row, SourceColumn(g, site, k))
  }

  /**
    The value of output `o` of group `g`, computed straight from the source cells of the row: the
    curves from the wind speed, the zone from the temperature against the curves, the threshold
    from the zone, the verdict under the group's policy, and the three zone labels.
   */
  function Expected(row: Row, g: Group, o: Output, site: string, spec: SiteSpec): Option<Value> {
    match o
    case GlazeCurveCol => NumCell(GlazeAt(Source(row, g, site, WindSpeed)))
    case HardRimeCurveCol => NumCell(HardRimeAt(Source(row, g, site, WindSpeed)))
    case IcingTypeZoneCol => ZoneOf(row, g, site)
    case RHThresholdCol => NumCell(RHThreshold(ZoneOf(row, g, site), spec))
    case IcingCol =>
      if IsSensor(g) then SensorVerdict(Source(row, g, site, Severity), Source(row, g, site, Moisture), ZoneOf(row, g, site))
      else ForecastVerdict(Source(row, g, site, Moisture), Source(row, g, site, Humidity),
                           RHThreshold(ZoneOf(row, g, site), spec), ZoneOf(row, g, site))
    case WindZoneCol => WindZone(Source(row, g, site, WindSpeed), spec)
    case PitchZoneCol => PitchZone(Source(row, g, site, WindSpeed), spec)
    case TempZoneCol => TempZone(Source(row, g, site, Temperature))
  }

  /** The zone cell of `g`: the temperature placed against the two curves of the wind speed. */
  function ZoneOf(row: Row, g: Group, site: string): Option<Value> {
    var ws := Source(row, g, site, WindSpeed);
    ZoneCell(IcingTypeZone(Source(row, g, site, Temperature), GlazeAt(ws), HardRimeAt(ws)))
  }

  // ---------------------------------------------------------------------------------------------
  // The three passes, row by row

  lemma NumAtNumCell(row: Row, key: string, x: Option<real>)
    ensures NumAt(SetCell(row, key, NumCell(x)), key) == x
  {
  }

  const CurveOutputs: set<Output> := {GlazeCurveCol, HardRimeCurveCol, IcingTypeZoneCol}
  const VerdictOutputs: set<Output> := {IcingCol, WindZoneCol, PitchZoneCol, TempZoneCol}

  /** The two curve cells of `g`, written from the wind speed; every other cell is kept. */
  function CurvePair(row: Row, g: Group, site: string): (r: Row)
    ensures CellAt(r, OutName(g, GlazeCurveCol)) == NumCell(GlazeAt(Source(row, g, site, WindSpeed)))
    ensures CellAt(r, OutName(g, HardRimeCurveCol)) == NumCell(HardRimeAt(Source(row, g, site, WindSpeed)))
    ensures forall c :: c != OutName(g, GlazeCurveCol) && c != OutName(g, HardRimeCurveCol) ==>
      CellAt(r, c) == CellAt(row, c)
  {
    OutNameInjective(g, GlazeCurveCol, g, HardRimeCurveCol);
    var ws := Source(row, g, site, WindSpeed);
    var r1 := SetCell(row, OutName(g, GlazeCurveCol), NumCell(GlazeAt(ws)));
    SetCell(r1, OutName(g, HardRimeCurveCol), NumCell(HardRimeAt(ws)))
  }

  /** The three curve cells, each as computed straight from the sources. */
  lemma CurveCellsExpected(row: Row, g: Group, site: string, r: Row)
    requires CellAt(r, OutName(g, GlazeCurveCol)) == NumCell(GlazeAt(Source(row, g, site, WindSpeed)))
    requires CellAt(r, OutName(g, HardRimeCurveCol)) == NumCell(HardRimeAt(Source(row, g, site, WindSpeed)))
    requires CellAt(r, OutName(g, IcingTypeZoneCol)) == ZoneOf(row, g, site)
    ensures forall o, spec :: o in CurveOutputs ==> CellAt(r, OutName(g, o)) == Expected(row, g, o, site, spec)
  {
  }

  /**
    `Curve_IceType_calculations` for one row: both curves from the wind speed, then the zone from
    the temperature and the two curve cells just written.
   */
  function CurvesRow(row: Row, g: Group, site: string): (r: Row)
    ensures forall o, spec :: o in CurveOutputs ==> CellAt(r, OutName(g, o)) == Expected(row, g, o, site, spec)
    ensures forall c :: c != OutName(g, GlazeCurveCol) && c != OutName(g, HardRimeCurveCol) && c != OutName(g, IcingTypeZoneCol) ==>
      CellAt(r, c) == CellAt(row, c)
  {
    CurveNamesDistinct(g);
    VerdictNamesDistinct(g, site);
    var r2 := CurvePair(row, g, site);
    NumAtOfCell(r2, row, SourceColumn(g, site, Temperature));
    NumAtOfNumCell(r2, OutName(g, GlazeCurveCol), GlazeAt(Source(row, g, site, WindSpeed)));
    NumAtOfNumCell(r2, OutName(g, HardRimeCurveCol), HardRimeAt(Source(row, g, site, WindSpeed)));
    var zone := IcingTypeZone(NumAt(r2, SourceColumn(g, site, Temperature)),
                              NumAt(r2, OutName(g, GlazeCurveCol)), NumAt(r2, OutName(g, HardRimeCurveCol)));
    var r := SetCell(r2, OutName(g, IcingTypeZoneCol), ZoneCell(zone));
    CurveCellsExpected(row, g, site, r);
    r
  }

  lemma NumAtOfCell(a: Row, b: Row, key: string)
    requires CellAt(a, key) == CellAt(b, key)
    ensures NumAt(a, key) == NumAt(b, key)
  {
  }

  lemma NumAtOfNumCell(row: Row, key: string, x: Option<real>)
    requires CellAt(row, key) == NumCell(x)
    ensures NumAt(row, key) == x
  {
  }

  /** Two rows that agree on the source cells of `g`. */
  predicate SameSources(a: Row, b: Row, g: Group, site: string) {
    forall k :: CellAt(a, SourceColumn(g, site, k)) == CellAt(b, SourceColumn(g, site, k))
  }

  /** The expected outputs of a group depend on its source cells alone. */
  lemma ExpectedOfSources(a: Row, b: Row, g: Group, site: string, spec: SiteSpec)
    requires SameSources(a, b, g, site)
    ensures forall o :: Expected(a, g, o, site, spec) == Expected(b, g, o, site, spec)
  {
    forall k ensures Source(a, g, site, k) == Source(b, g, site, k) {
      NumAtOfCell(a, b, SourceColumn(g, site, k));
    }
  }

  /** `df[f'{group}_RH_Threshold'] = ...` for one row: the threshold of the zone cell. */
  function ThresholdRow(row: Row, g: Group, spec: SiteSpec): (r: Row)
    ensures forall c :: c != OutName(g, RHThresholdCol) ==> CellAt(r, c) == CellAt(row, c)
  {
    SetCell(row, OutName(g, RHThresholdCol), NumCell(RHThreshold(CellAt(row, OutName(g, IcingTypeZoneCol)), spec)))
  }

  /** The zone and threshold cells of `g` already hold their expected values. */
  predicate Ready(row: Row, g: Group, site: string, spec: SiteSpec) {
    && CellAt(row, OutName(g, IcingTypeZoneCol)) == Expected(row, g, IcingTypeZoneCol, site, spec)
    && CellAt(row, OutName(g, RHThresholdCol)) == Expected(row, g, RHThresholdCol, site, spec)
  }

  /** The verdict of `g` under its policy, from the zone and threshold cells of the row. */
  function Verdict(row: Row, g: Group, site: string, spec: SiteSpec): Option<Value> {
    var zone := CellAt(row, OutName(g, IcingTypeZoneCol));
    if IsSensor(g) then SensorVerdict(Source(row, g, site, Severity), Source(row, g, site, Moisture), zone)
    else ForecastVerdict(Source(row, g, site, Moisture), Source(row, g, site, Humidity),
                         NumAt(row, OutName(g, RHThresholdCol)), zone)
  }

  predicate IsVerdictOutput(c: string, g: Group) {
    c == OutName(g, IcingCol) || c == OutName(g, WindZoneCol) || c == OutName(g, PitchZoneCol) || c == OutName(g, TempZoneCol)
  }

  /**
    `Zone_Icing_calculations` for one row: the verdict under the group's policy from the zone and
    threshold cells, then the wind, pitch and temperature zone labels.
   */
  function VerdictRow(row: Row, g: Group, site: string, spec: SiteSpec): (r: Row)
    ensures forall c :: !IsVerdictOutput(c, g) ==> CellAt(r, c) == CellAt(row, c)
  {
    var r1 := SetCell(row, OutName(g, IcingCol), Verdict(row, g, site, spec));
    var r2 := SetCell(r1, OutName(g, WindZoneCol), WindZone(NumAt(r1, SourceColumn(g, site, WindSpeed)), spec));
    var r3 := SetCell(r2, OutName(g, PitchZoneCol), PitchZone(NumAt(r2, SourceColumn(g, site, WindSpeed)), spec));
    SetCell(r3, OutName(g, TempZoneCol), TempZone(NumAt(r3, SourceColumn(g, site, Temperature))))
  }

  lemma VerdictOfReady(row: Row, g: Group, site: string, spec: SiteSpec)
    requires Ready(row, g, site, spec)
    ensures Verdict(row, g, site, spec) == Expected(row, g, IcingCol, site, spec)
  {
    NumAtOfNumCell(row, OutName(g, RHThresholdCol), RHThreshold(ZoneOf(row, g, site), spec));
  }

  /** The three outputs of the first pass have different names. */
  lemma CurveNamesDistinct(g: Group)
    ensures OutName(g, GlazeCurveCol) != OutName(g, HardRimeCurveCol)
    ensures OutName(g, GlazeCurveCol) != OutName(g, IcingTypeZoneCol)
    ensures OutName(g, HardRimeCurveCol) != OutName(g, IcingTypeZoneCol)
  {
    OutNameInjective(g, GlazeCurveCol, g, HardRimeCurveCol);
    OutNameInjective(g, GlazeCurveCol, g, IcingTypeZoneCol);
    OutNameInjective(g, HardRimeCurveCol, g, IcingTypeZoneCol);
  }

  lemma VerdictNamesDistinct(g: Group, site: string)
    ensures OutName(g, IcingCol) != OutName(g, WindZoneCol) && OutName(g, IcingCol) != OutName(g, PitchZoneCol)
    ensures OutName(g, IcingCol) != OutName(g, TempZoneCol) && OutName(g, WindZoneCol) != OutName(g, PitchZoneCol)
    ensures OutName(g, WindZoneCol) != OutName(g, TempZoneCol) && OutName(g, PitchZoneCol) != OutName(g, TempZoneCol)
    ensures forall o :: SourceColumn(g, site, WindSpeed) != OutName(g, o)
    ensures forall o :: SourceColumn(g, site, Temperature) != OutName(g, o)
  {
    OutNameInjective(g, IcingCol, g, WindZoneCol);
    OutNameInjective(g, IcingCol, g, PitchZoneCol);
    OutNameInjective(g, IcingCol, g, TempZoneCol);
    OutNameInjective(g, WindZoneCol, g, PitchZoneCol);
    OutNameInjective(g, WindZoneCol, g, TempZoneCol);
    OutNameInjective(g, PitchZoneCol, g, TempZoneCol);
    forall o ensures SourceColumn(g, site, WindSpeed) != OutName(g, o) && SourceColumn(g, site, Temperature) != OutName(g, o) {
      SourceNotOutput(g, site, WindSpeed, g, o);
      SourceNotOutput(g, site, Temperature, g, o);
    }
  }

  lemma VerdictRowIcing(row: Row, g: Group, site: string, spec: SiteSpec)
    requires Ready(row, g, site, spec)
    ensures CellAt(VerdictRow(row, g, site, spec), OutName(g, IcingCol)) == Expected(row, g, IcingCol, site, spec)
  {
    VerdictNamesDistinct(g, site);
    VerdictOfReady(row, g, site, spec);
  }

  lemma VerdictRowWind(row: Row, g: Group, site: string, spec: SiteSpec)
    ensures CellAt(VerdictRow(row, g, site, spec), OutName(g, WindZoneCol)) == WindZone(Source(row, g, site, WindSpeed), spec)
  {
    VerdictNamesDistinct(g, site);
    var r1 := SetCell(row, OutName(g, IcingCol), Verdict(row, g, site, spec));
    NumAtOfCell(r1, row, SourceColumn(g, site, WindSpeed));
  }

  lemma VerdictRowPitch(row: Row, g: Group, site: string, spec: SiteSpec)
    ensures CellAt(VerdictRow(row, g, site, spec), OutName(g, PitchZoneCol)) == PitchZone(Source(row, g, site, WindSpeed), spec)
  {
    VerdictNamesDistinct(g, site);
    var ws := SourceColumn(g, site, WindSpeed);
    var r1 := SetCell(row, OutName(g, IcingCol), Verdict(row, g, site, spec));
    var r2 := SetCell(r1, OutName(g, WindZoneCol), WindZone(NumAt(r1, ws), spec));
    NumAtOfCell(r2, row, ws);
  }

  lemma VerdictRowTemp(row: Row, g: Group, site: string, spec: SiteSpec)
    ensures CellAt(VerdictRow(row, g, site, spec), OutName(g, TempZoneCol)) == TempZone(Source(row, g, site, Temperature))
  {
    VerdictNamesDistinct(g, site);
    var ws, t := SourceColumn(g, site, WindSpeed), SourceColumn(g, site, Temperature);
    var r1 := SetCell(row, OutName(g, IcingCol), Verdict(row, g, site, spec));
    var r2 := SetCell(r1, OutName(g, WindZoneCol), WindZone(NumAt(r1, ws), spec));
    var r3 := SetCell(r2, OutName(g, PitchZoneCol), PitchZone(NumAt(r2, ws), spec));
    NumAtOfCell(r3, row, t);
  }

  /** The four verdict cells, each as computed straight from the sources. */
  lemma VerdictCellsExpected(row: Row, g: Group, site: string, spec: SiteSpec, r: Row)
    requires CellAt(r, OutName(g, IcingCol)) == Expected(row, g, IcingCol, site, spec)
    requires CellAt(r, OutName(g, WindZoneCol)) == WindZone(Source(row, g, site, WindSpeed), spec)
    requires CellAt(r, OutName(g, PitchZoneCol)) == PitchZone(Source(row, g, site, WindSpeed), spec)
    requires CellAt(r, OutName(g, TempZoneCol)) == TempZone(Source(row, g, site, Temperature))
    ensures forall o :: o in VerdictOutputs ==> CellAt(r, OutName(g, o)) == Expected(row, g, o, site, spec)
  {
    forall o | o in VerdictOutputs ensures CellAt(r, OutName(g, o)) == Expected(row, g, o, site, spec) {
      assert o == IcingCol || o == WindZoneCol || o == PitchZoneCol || o == TempZoneCol;
    }
  }

  /** Once the zone and threshold cells are in place, the verdict pass writes the expected cells. */
  lemma VerdictRowCells(row: Row, g: Group, site: string, spec: SiteSpec)
    requires Ready(row, g, site, spec)
    ensures forall o :: o in VerdictOutputs ==> CellAt(VerdictRow(row, g, site, spec), OutName(g, o)) == Expected(row, g, o, site, spec)
  {
    VerdictRowIcing(row, g, site, spec);
    VerdictRowWind(row, g, site, spec);
    VerdictRowPitch(row, g, site, spec);
    VerdictRowTemp(row, g, site, spec);
    VerdictCellsExpected(row, g, site, spec, VerdictRow(row, g, site, spec));
  }

  /** No output column of `h` is a source column of `g`. */
  lemma SourcesNotOutputsOf(g: Group, site: string, h: Group)
    ensures forall k, o :: SourceColumn(g, site, k) != OutName(h, o)
  {
    forall k, o ensures SourceColumn(g, site, k) != OutName(h, o) {
      SourceNotOutput(g, site, k, h, o);
    }
  }

  /** The first pass for `h` leaves the sources of every group, and so their expected outputs, alone. */
  lemma CurvesRowKeepsSources(row: Row, h: Group, g: Group, site: string, spec: SiteSpec)
    ensures SameSources(CurvesRow(row, h, site), row, g, site)
    ensures forall o :: Expected(CurvesRow(row, h, site), g, o, site, spec) == Expected(row, g, o, site, spec)
  {
    SourcesNotOutputsOf(g, site, h);
    ExpectedOfSources(CurvesRow(row, h, site), row, g, site, spec);
  }

  /** The verdict pass for `h` leaves another group's sources, zone and threshold cells alone. */
  lemma VerdictRowKeepsOther(row: Row, h: Group, g: Group, site: string, spec: SiteSpec)
    requires h != g
    ensures SameSources(VerdictRow(row, h, site, spec), row, g, site)
    ensures forall o :: Expected(VerdictRow(row, h, site, spec), g, o, site, spec) == Expected(row, g, o, site, spec)
    ensures Ready(row, g, site, spec) ==> Ready(VerdictRow(row, h, site, spec), g, site, spec)
  {
    var row1 := VerdictRow(row, h, site, spec);
    SourcesNotOutputsOf(g, site, h);
    ExpectedOfSources(row1, row, g, site, spec);
    forall o, p ensures OutName(g, o) != OutName(h, p) {
      OutNameInjective(g, o, h, p);
    }
    assert !IsVerdictOutput(OutName(g, IcingTypeZoneCol), h);
    assert !IsVerdictOutput(OutName(g, RHThresholdCol), h);
  }

  // ---------------------------------------------------------------------------------------------
  // The passes over the groups, and their composition

  predicate Distinct(gs: seq<Group>) {
    forall i, j :: 0 <= i < j < |gs| ==> gs[i] != gs[j]
  }

  lemma GroupsDistinct()
    ensures Distinct(Groups) && forall g :: g in Groups
  {
    forall g ensures g in Groups {
      match g
      case FCST => assert Groups[0] == g;
      case MCMS => assert Groups[1] == g;
      case MCMS1 => assert Groups[2] == g;
      case MCMS2 => assert Groups[3] == g;
    }
  }

  /** Column `c` is one that some chosen group of `gs` writes in a pass producing `os`. */
  predicate Writes(c: string, gs: seq<Group>, chosen: set<Group>, os: set<Output>) {
    exists g, o :: g in gs && g in chosen && o in os && c == OutName(g, o)
  }

  /** The first pass over the groups `gs`: curves and zone for each group in `eligible`. */
  function CurvesPass(row: Row, gs: seq<Group>, eligible: set<Group>, site: string): Row
    decreases |gs|
  {
    if |gs| == 0 then row
    else CurvesPass(if gs[0] in eligible then CurvesRow(row, gs[0], site) else row, gs[1..], eligible, site)
  }

  /** The second pass: the RH threshold for each group whose zone column exists. */
  function ThresholdPass(row: Row, gs: seq<Group>, zoned: set<Group>, spec: SiteSpec): Row
    decreases |gs|
  {
    if |gs| == 0 then row
    else ThresholdPass(if gs[0] in zoned then ThresholdRow(row, gs[0], spec) else row, gs[1..], zoned, spec)
  }

  /** The third pass: verdict and zone labels for each group in `eligible`. */
  function VerdictPass(row: Row, gs: seq<Group>, eligible: set<Group>, site: string, spec: SiteSpec): Row
    decreases |gs|
  {
    if |gs| == 0 then row
    else VerdictPass(if gs[0] in eligible then VerdictRow(row, gs[0], site, spec) else row, gs[1..], eligible, site, spec)
  }

  lemma {:induction false} CurvesPassCells(row: Row, gs: seq<Group>, eligible: set<Group>, site: string, spec: SiteSpec)
    requires Distinct(gs)
    ensures var r := CurvesPass(row, gs, eligible, site);
      && (forall g, o :: g in gs && g in eligible && o in CurveOutputs ==> CellAt(r, OutName(g, o)) == Expected(row, g, o, site, spec))
      && (forall c :: !Writes(c, gs, eligible, CurveOutputs) ==> CellAt(r, c) == CellAt(row, c))
    decreases |gs|
  {
    if |gs| > 0 {
      var h := gs[0];
      var row1 := if h in eligible then CurvesRow(row, h, site) else row;
      var r := CurvesPass(row1, gs[1..], eligible, site);
      assert Distinct(gs[1..]);
      CurvesPassCells(row1, gs[1..], eligible, site, spec);
      forall c | !Writes(c, gs, eligible, CurveOutputs) ensures CellAt(r, c) == CellAt(row, c) {
        assert !Writes(c, gs[1..], eligible, CurveOutputs);
      }
      forall g, o | g in gs && g in eligible && o in CurveOutputs
        ensures CellAt(r, OutName(g, o)) == Expected(row, g, o, site, spec)
      {
        if g == h {
          assert g !in gs[1..];
          NamesDecode(site);
          assert !Writes(OutName(g, o), gs[1..], eligible, CurveOutputs);
        } else {
          assert g in gs[1..];
          if h in eligible {
            CurvesRowKeepsSources(row, h, g, site, spec);
          }
        }
      }
    }
  }

  lemma {:induction false} ThresholdPassCells(row: Row, gs: seq<Group>, zoned: set<Group>, site: string, spec: SiteSpec)
    requires Distinct(gs)
    ensures var r := ThresholdPass(row, gs, zoned, spec);
      && (forall g :: g in gs && g in zoned ==>
            CellAt(r, OutName(g, RHThresholdCol)) == NumCell(RHThreshold(CellAt(row, OutName(g, IcingTypeZoneCol)), spec)))
      && (forall c :: !Writes(c, gs, zoned, {RHThresholdCol}) ==> CellAt(r, c) == CellAt(row, c))
    decreases |gs|
  {
    if |gs| > 0 {
      var h := gs[0];
      var row1 := if h in zoned then ThresholdRow(row, h, spec) else row;
      var r := ThresholdPass(row1, gs[1..], zoned, spec);
      assert Distinct(gs[1..]);
      ThresholdPassCells(row1, gs[1..], zoned, site, spec);
      forall c | !Writes(c, gs, zoned, {RHThresholdCol}) ensures CellAt(r, c) == CellAt(row, c) {
        assert !Writes(c, gs[1..], zoned, {RHThresholdCol});
      }
      forall g | g in gs && g in zoned
        ensures CellAt(r, OutName(g, RHThresholdCol)) == NumCell(RHThreshold(CellAt(row, OutName(g, IcingTypeZoneCol)), spec))
      {
        if g == h {
          assert g !in gs[1..];
          NamesDecode(site);
          assert !Writes(OutName(g, RHThresholdCol), gs[1..], zoned, {RHThresholdCol});
        } else {
          assert g in gs[1..];
          OutNameInjective(g, IcingTypeZoneCol, h, RHThresholdCol);
        }
      }
    }
  }

  lemma {:induction false} VerdictPassCells(row: Row, gs: seq<Group>, eligible: set<Group>, site: string, spec: SiteSpec)
    requires Distinct(gs)
    ensures var r := VerdictPass(row, gs, eligible, site, spec);
      && (forall g, o :: g in gs && g in eligible && o in VerdictOutputs && Ready(row, g, site, spec) ==>
            CellAt(r, OutName(g, o)) == Expected(row, g, o, site, spec))
      && (forall c :: !Writes(c, gs, eligible, VerdictOutputs) ==> CellAt(r, c) == CellAt(row, c))
    decreases |gs|
  {
    if |gs| > 0 {
      var h := gs[0];
      var row1 := if h in eligible then VerdictRow(row, h, site, spec) else row;
      var r := VerdictPass(row1, gs[1..], eligible, site, spec);
      assert Distinct(gs[1..]);
      VerdictPassCells(row1, gs[1..], eligible, site, spec);
      forall c | !Writes(c, gs, eligible, VerdictOutputs) ensures CellAt(r, c) == CellAt(row, c) {
        assert !Writes(c, gs[1..], eligible, VerdictOutputs);
      }
      forall g, o | g in gs && g in eligible && o in VerdictOutputs && Ready(row, g, site, spec)
        ensures CellAt(r, OutName(g, o)) == Expected(row, g, o, site, spec)
      {
        if g == h {
          assert g !in gs[1..];
          NamesDecode(site);
          assert !Writes(OutName(g, o), gs[1..], eligible, VerdictOutputs);
          VerdictRowCells(row, g, site, spec);
        } else {
          assert g in gs[1..];
          if h in eligible {
            VerdictRowKeepsOther(row, h, g, site, spec);
          }
        }
      }
    }
  }

  /**
    All three passes on one row: curves and zone for the eligible groups, the threshold for the
    groups that have a zone column, then verdicts and zone labels for the eligible groups.
   */
  function ClassifyRow(row: Row, eligible: set<Group>, zoned: set<Group>, site: string, spec: SiteSpec): (r: Row)
    ensures forall c ::
      (!Writes(c, Groups, eligible, CurveOutputs) && !Writes(c, Groups, zoned, {RHThresholdCol})
       && !Writes(c, Groups, eligible, VerdictOutputs)) ==> CellAt(r, c) == CellAt(row, c)
  {
    var r1 := CurvesPass(row, Groups, eligible, site);
    var r2 := ThresholdPass(r1, Groups, zoned, spec);
    GroupsDistinct();
    CurvesPassCells(row, Groups, eligible, site, spec);
    ThresholdPassCells(r1, Groups, zoned, site, spec);
    VerdictPassCells(r2, Groups, eligible, site, spec);
    VerdictPass(r2, Groups, eligible, site, spec)
  }

  lemma OutputKinds(o: Output)
    ensures o in CurveOutputs || o == RHThresholdCol || o in VerdictOutputs
    ensures o in CurveOutputs ==> o != RHThresholdCol && o !in VerdictOutputs
    ensures o in VerdictOutputs ==> o != RHThresholdCol
  {
  }

  /** The three intermediate rows of `ClassifyRow` and what each pass did. */
  lemma PassFacts(row: Row, eligible: set<Group>, zoned: set<Group>, site: string, spec: SiteSpec)
    ensures var r1 := CurvesPass(row, Groups, eligible, site);
      var r2 := ThresholdPass(r1, Groups, zoned, spec);
      var r := VerdictPass(r2, Groups, eligible, site, spec);
      && r == ClassifyRow(row, eligible, zoned, site, spec)
      && (forall g, o :: g in eligible && o in CurveOutputs ==> CellAt(r1, OutName(g, o)) == Expected(row, g, o, site, spec))
      && (forall c :: !Writes(c, Groups, eligible, CurveOutputs) ==> CellAt(r1, c) == CellAt(row, c))
      && (forall g :: g in zoned ==>
            CellAt(r2, OutName(g, RHThresholdCol)) == NumCell(RHThreshold(CellAt(r1, OutName(g, IcingTypeZoneCol)), spec)))
      && (forall c :: !Writes(c, Groups, zoned, {RHThresholdCol}) ==> CellAt(r2, c) == CellAt(r1, c))
      && (forall g, o :: g in eligible && o in VerdictOutputs && Ready(r2, g, site, spec) ==>
            CellAt(r, OutName(g, o)) == Expected(r2, g, o, site, spec))
      && (forall c :: !Writes(c, Groups, eligible, VerdictOutputs) ==> CellAt(r, c) == CellAt(r2, c))
  {
    GroupsDistinct();
    var r1 := CurvesPass(row, Groups, eligible, site);
    var r2 := ThresholdPass(r1, Groups, zoned, spec);
    CurvesPassCells(row, Groups, eligible, site, spec);
    ThresholdPassCells(r1, Groups, zoned, site, spec);
    VerdictPassCells(r2, Groups, eligible, site, spec);
  }

  /** No pass writes a column of another group's kind, and none writes a source column. */
  lemma NotWritten(g: Group, o: Output, gs: seq<Group>, chosen: set<Group>, os: set<Output>, site: string)
    requires g !in chosen || o !in os
    ensures !Writes(OutName(g, o), gs, chosen, os)
  {
    NamesDecode(site);
  }

  lemma SourcesNotWritten(row: Row, eligible: set<Group>, zoned: set<Group>, site: string, spec: SiteSpec, g: Group)
    ensures var r1 := CurvesPass(row, Groups, eligible, site);
      SameSources(ThresholdPass(r1, Groups, zoned, spec), row, g, site)
  {
    PassFacts(row, eligible, zoned, site, spec);
    NamesDecode(site);
    var r1 := CurvesPass(row, Groups, eligible, site);
    var r2 := ThresholdPass(r1, Groups, zoned, spec);
    forall k ensures CellAt(r2, SourceColumn(g, site, k)) == CellAt(row, SourceColumn(g, site, k)) {
      var c := SourceColumn(g, site, k);
      assert !Writes(c, Groups, eligible, CurveOutputs);
      assert !Writes(c, Groups, zoned, {RHThresholdCol});
    }
  }

  lemma ClassifyRowCurves(row: Row, eligible: set<Group>, zoned: set<Group>, site: string, spec: SiteSpec, g: Group, o: Output)
    requires g in eligible && o in CurveOutputs
    ensures CellAt(ClassifyRow(row, eligible, zoned, site, spec), OutName(g, o)) == Expected(row, g, o, site, spec)
  {
    var r1 := CurvesPass(row, Groups, eligible, site);
    OutputKinds(o);
    CurvesPassCell(row, eligible, site, spec, g, o);
    ThresholdPassKeepsOutput(r1, zoned, spec, g, o);
    VerdictPassKeepsOutput(ThresholdPass(r1, Groups, zoned, spec), eligible, site, spec, g, o);
  }

  /** The first pass over all groups writes each curve output of an eligible group as expected. */
  lemma CurvesPassCell(row: Row, eligible: set<Group>, site: string, spec: SiteSpec, g: Group, o: Output)
    requires g in eligible && o in CurveOutputs
    ensures CellAt(CurvesPass(row, Groups, eligible, site), OutName(g, o)) == Expected(row, g, o, site, spec)
  {
    GroupsDistinct();
    CurvesPassCells(row, Groups, eligible, site, spec);
  }

  /** The threshold pass over all groups leaves every other column alone. */
  lemma ThresholdPassKeepsOutput(r1: Row, zoned: set<Group>, spec: SiteSpec, g: Group, o: Output)
    requires g !in zoned || o != RHThresholdCol
    ensures CellAt(ThresholdPass(r1, Groups, zoned, spec), OutName(g, o)) == CellAt(r1, OutName(g, o))
  {
    GroupsDistinct();
    NotWritten(g, o, Groups, zoned, {RHThresholdCol}, "");
    ThresholdPassCells(r1, Groups, zoned, "", spec);
  }

  lemma ClassifyRowThreshold(row: Row, eligible: set<Group>, zoned: set<Group>, site: string, spec: SiteSpec, g: Group)
    requires eligible <= zoned && g in eligible
    ensures CellAt(ClassifyRow(row, eligible, zoned, site, spec), OutName(g, RHThresholdCol)) == Expected(row, g, RHThresholdCol, site, spec)
  {
    var r2 := ThresholdPass(CurvesPass(row, Groups, eligible, site), Groups, zoned, spec);
    ThresholdAfterThreshold(row, eligible, zoned, site, spec, g);
    VerdictPassKeepsOutput(r2, eligible, site, spec, g, RHThresholdCol);
    ExpectedThreshold(row, g, site, spec);
  }

  lemma ExpectedThreshold(row: Row, g: Group, site: string, spec: SiteSpec)
    ensures Expected(row, g, RHThresholdCol, site, spec) == NumCell(RHThreshold(ZoneOf(row, g, site), spec))
  {
  }

  lemma VerdictPassKeepsOutput(r2: Row, eligible: set<Group>, site: string, spec: SiteSpec, g: Group, o: Output)
    requires g !in eligible || o !in VerdictOutputs
    ensures CellAt(VerdictPass(r2, Groups, eligible, site, spec), OutName(g, o)) == CellAt(r2, OutName(g, o))
  {
    NotWritten(g, o, Groups, eligible, VerdictOutputs, site);
    VerdictPassKeeps(r2, eligible, site, spec, OutName(g, o));
  }

  /** The verdict pass over all groups leaves every column it does not write alone. */
  lemma VerdictPassKeeps(r2: Row, eligible: set<Group>, site: string, spec: SiteSpec, c: string)
    requires !Writes(c, Groups, eligible, VerdictOutputs)
    ensures CellAt(VerdictPass(r2, Groups, eligible, site, spec), c) == CellAt(r2, c)
  {
    GroupsDistinct();
    VerdictPassCells(r2, Groups, eligible, site, spec);
  }

  lemma ZoneAfterThreshold(row: Row, eligible: set<Group>, zoned: set<Group>, site: string, spec: SiteSpec, g: Group)
    requires g in eligible
    ensures var r2 := ThresholdPass(CurvesPass(row, Groups, eligible, site), Groups, zoned, spec);
      CellAt(r2, OutName(g, IcingTypeZoneCol)) == ZoneOf(row, g, site)
  {
    var r1 := CurvesPass(row, Groups, eligible, site);
    CurvesPassCell(row, eligible, site, spec, g, IcingTypeZoneCol);
    ThresholdPassKeepsOutput(r1, zoned, spec, g, IcingTypeZoneCol);
    ExpectedZone(row, g, site, spec);
  }

  lemma ExpectedZone(row: Row, g: Group, site: string, spec: SiteSpec)
    ensures Expected(row, g, IcingTypeZoneCol, site, spec) == ZoneOf(row, g, site)
  {
  }

  lemma ThresholdAfterThreshold(row: Row, eligible: set<Group>, zoned: set<Group>, site: string, spec: SiteSpec, g: Group)
    requires g in eligible && g in zoned
    ensures var r2 := ThresholdPass(CurvesPass(row, Groups, eligible, site), Groups, zoned, spec);
      CellAt(r2, OutName(g, RHThresholdCol)) == NumCell(RHThreshold(ZoneOf(row, g, site), spec))
  {
    var r1 := CurvesPass(row, Groups, eligible, site);
    CurvesPassCell(row, eligible, site, spec, g, IcingTypeZoneCol);
    ExpectedZone(row, g, site, spec);
    ThresholdPassWrites(r1, zoned, spec, g);
  }

  /** The threshold pass over all groups computes each zoned group's threshold from its zone cell. */
  lemma ThresholdPassWrites(r1: Row, zoned: set<Group>, spec: SiteSpec, g: Group)
    requires g in zoned
    ensures CellAt(ThresholdPass(r1, Groups, zoned, spec), OutName(g, RHThresholdCol)) ==
      NumCell(RHThreshold(CellAt(r1, OutName(g, IcingTypeZoneCol)), spec))
  {
    GroupsDistinct();
    ThresholdPassCells(r1, Groups, zoned, "", spec);
  }

  /** A row whose zone and threshold cells hold what the sources give is ready for the verdicts. */
  lemma ReadyOfCells(r: Row, row: Row, g: Group, site: string, spec: SiteSpec)
    requires SameSources(r, row, g, site)
    requires CellAt(r, OutName(g, IcingTypeZoneCol)) == ZoneOf(row, g, site)
    requires CellAt(r, OutName(g, RHThresholdCol)) == NumCell(RHThreshold(ZoneOf(row, g, site), spec))
    ensures Ready(r, g, site, spec)
  {
    ExpectedOfSources(r, row, g, site, spec);
    assert Expected(row, g, IcingTypeZoneCol, site, spec) == ZoneOf(row, g, site);
    assert Expected(row, g, RHThresholdCol, site, spec) == NumCell(RHThreshold(ZoneOf(row, g, site), spec));
  }

  /** After the first two passes an eligible group's zone and threshold cells are in place. */
  lemma ReadyAfterThreshold(row: Row, eligible: set<Group>, zoned: set<Group>, site: string, spec: SiteSpec, g: Group)
    requires eligible <= zoned && g in eligible
    ensures Ready(ThresholdPass(CurvesPass(row, Groups, eligible, site), Groups, zoned, spec), g, site, spec)
  {
    var r2 := ThresholdPass(CurvesPass(row, Groups, eligible, site), Groups, zoned, spec);
    ZoneAfterThreshold(row, eligible, zoned, site, spec, g);
    ThresholdAfterThreshold(row, eligible, zoned, site, spec, g);
    SourcesNotWritten(row, eligible, zoned, site, spec, g);
    ReadyOfCells(r2, row, g, site, spec);
  }

  lemma ClassifyRowVerdicts(row: Row, eligible: set<Group>, zoned: set<Group>, site: string, spec: SiteSpec, g: Group, o: Output)
    requires eligible <= zoned && g in eligible && o in VerdictOutputs
    ensures CellAt(ClassifyRow(row, eligible, zoned, site, spec), OutName(g, o)) == Expected(row, g, o, site, spec)
  {
    var r1 := CurvesPass(row, Groups, eligible, site);
    var r2 := ThresholdPass(r1, Groups, zoned, spec);
    ReadyAfterThreshold(row, eligible, zoned, site, spec, g);
    GroupsDistinct();
    VerdictPassCells(r2, Groups, eligible, site, spec);
    SourcesNotWritten(row, eligible, zoned, site, spec, g);
    ExpectedOfSources(r2, row, g, site, spec);
  }

  lemma ClassifyRowEligible(row: Row, eligible: set<Group>, zoned: set<Group>, site: string, spec: SiteSpec, g: Group, o: Output)
    requires eligible <= zoned && g in eligible
    ensures CellAt(ClassifyRow(row, eligible, zoned, site, spec), OutName(g, o)) == Expected(row, g, o, site, spec)
  {
    OutputKinds(o);
    if o in CurveOutputs {
      ClassifyRowCurves(row, eligible, zoned, site, spec, g, o);
    } else if o == RHThresholdCol {
      ClassifyRowThreshold(row, eligible, zoned, site, spec, g);
    } else {
      ClassifyRowVerdicts(row, eligible, zoned, site, spec, g, o);
    }
  }

  lemma ClassifyRowZonedOnly(row: Row, eligible: set<Group>, zoned: set<Group>, site: string, spec: SiteSpec, g: Group)
    requires g in zoned && g !in eligible
    ensures CellAt(ClassifyRow(row, eligible, zoned, site, spec), OutName(g, RHThresholdCol)) ==
      NumCell(RHThreshold(CellAt(row, OutName(g, IcingTypeZoneCol)), spec))
  {
    PassFacts(row, eligible, zoned, site, spec);
    NotWritten(g, RHThresholdCol, Groups, eligible, VerdictOutputs, site);
    NotWritten(g, IcingTypeZoneCol, Groups, eligible, CurveOutputs, site);
  }

  lemma ClassifyRowUntouched(row: Row, eligible: set<Group>, zoned: set<Group>, site: string, spec: SiteSpec, g: Group, o: Output)
    requires g !in eligible && (g !in zoned || o != RHThresholdCol)
    ensures CellAt(ClassifyRow(row, eligible, zoned, site, spec), OutName(g, o)) == CellAt(row, OutName(g, o))
  {
    PassFacts(row, eligible, zoned, site, spec);
    NotWritten(g, o, Groups, eligible, VerdictOutputs, site);
    NotWritten(g, o, Groups, zoned, {RHThresholdCol}, site);
    NotWritten(g, o, Groups, eligible, CurveOutputs, site);
  }

  lemma ClassifyRowOther(row: Row, eligible: set<Group>, zoned: set<Group>, site: string, spec: SiteSpec, c: string)
    requires forall g, o :: c != OutName(g, o)
    ensures CellAt(ClassifyRow(row, eligible, zoned, site, spec), c) == CellAt(row, c)
  {
    PassFacts(row, eligible, zoned, site, spec);
  }

  /**
    The passes compose to the reference: every output of an eligible group holds its expected value;
    a group that is not eligible but has a zone column gets only its threshold recomputed; every
    other output cell and every cell that is no output at all keeps its value.
   */
  lemma ClassifyRowCells(row: Row, eligible: set<Group>, zoned: set<Group>, site: string, spec: SiteSpec)
    requires eligible <= zoned
    ensures var r := ClassifyRow(row, eligible, zoned, site, spec);
      && (forall g, o :: g in eligible ==> CellAt(r, OutName(g, o)) == Expected(row, g, o, site, spec))
      && (forall g :: g in zoned && g !in eligible ==>
            CellAt(r, OutName(g, RHThresholdCol)) == NumCell(RHThreshold(CellAt(row, OutName(g, IcingTypeZoneCol)), spec)))
      && (forall g, o :: g !in eligible && (g !in zoned || o != RHThresholdCol) ==>
            CellAt(r, OutName(g, o)) == CellAt(row, OutName(g, o)))
      && (forall c :: (forall g, o :: c != OutName(g, o)) ==> CellAt(r, c) == CellAt(row, c))
  {
    forall g, o | g in eligible {
      ClassifyRowEligible(row, eligible, zoned, site, spec, g, o);
    }
    forall g | g in zoned && g !in eligible {
      ClassifyRowZonedOnly(row, eligible, zoned, site, spec, g);
    }
    forall g, o | g !in eligible && (g !in zoned || o != RHThresholdCol) {
      ClassifyRowUntouched(row, eligible, zoned, site, spec, g, o);
    }
    forall c | forall g, o :: c != OutName(g, o) {
      ClassifyRowOther(row, eligible, zoned, site, spec, c);
    }
  }
}
