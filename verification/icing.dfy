/**
  The per-row icing classification of Icing_Calc.py: the glaze and hard-rime curves in wind speed,
  the icing-type zone, the RH threshold, the two verdict policies and the wind, pitch and
  temperature zone labels. Every input is one cell of the row, absent when the cell is missing.
  The chained conditional expressions are modelled the way Python groups them,
  `A if c1 else (B if c2 else C)`, and a comparison with a missing value is false.
 */
module Icing {
  import opened Wrappers
  import opened Frames
  import opened Site

  // ---------------------------------------------------------------------------------------------
  // The curves

  /** The glaze curve: the temperature (°C) above which freezing precipitation forms glaze, by wind speed (m/s). */
  function GlazeCurve(w: real): real {
    -0.0004 * w * w * w + 0.0215 * w * w - 0.6266 * w + 1.4396
  }

  /** The hard-rime curve: the temperature above which, below the glaze curve, ice forms as hard rime. */
  function HardRimeCurve(w: real): real {
    -0.0014 * w * w * w + 0.0705 * w * w - 1.5798 * w + 1.3887
  }

  /** The `_GlazeCurve` cell of a row: computed from a present wind speed, missing otherwise. */
  function GlazeAt(ws: Option<real>): (r: Option<real>)
    ensures r.Some? <==> ws.Some?
  {
    if ws.Some? then Some(GlazeCurve(ws.value)) else None
  }

  /** The `_HardRimeCurve` cell of a row: computed from a present wind speed, missing otherwise. */
  function HardRimeAt(ws: Option<real>): (r: Option<real>)
    ensures r.Some? <==> ws.Some?
  {
    if ws.Some? then Some(HardRimeCurve(ws.value)) else None
  }

  lemma MulNonneg(a: real, b: real)
    requires a >= 0.0 && b >= 0.0
    ensures a * b >= 0.0
  {
  }

  lemma SquareNonneg(d: real)
    ensures d * d >= 0.0
  {
    if d < 0.0 {
      MulNonneg(-d, -d);
    } else {
      MulNonneg(d, d);
    }
  }

  /**
    For every non-negative wind speed the hard-rime curve lies strictly below the glaze curve, so
    the three ice bands Soft Rime, Hard Rime, Glaze are stacked in that order of temperature.
   */
  lemma HardRimeBelowGlaze(w: real)
    requires w >= 0.0
    ensures HardRimeCurve(w) < GlazeCurve(w)
  {
    var d := w - 24.5;
    var q := 0.001 * (d * d) + 0.35295;
    assert GlazeCurve(w) - HardRimeCurve(w) == w * q + 0.0509;
    SquareNonneg(d);
    MulNonneg(w, q);
  }

  /** At 12 m/s the curves sit at -3.6748 °C and -9.8361 °C. */
  lemma CurvesAtTwelve()
    ensures GlazeAt(Some(12.0)) == Some(-3.6748)
    ensures HardRimeAt(Some(12.0)) == Some(-9.8361)
  {
  }

  // ---------------------------------------------------------------------------------------------
  // The icing-type zone

  datatype IceType = NoIce | Glaze | HardRime | SoftRime

  /** The label the zone column carries. */
  function Label(k: IceType): string {
    match k
    case NoIce => "NO ICE"
    case Glaze => "Glaze"
    case HardRime => "Hard Rime"
    case SoftRime => "Soft Rime"
  }

  /** The three icing types an alert counts. */
  predicate IsIce(k: IceType) {
    k != NoIce
  }

  /**
    The `_IcingTypeZone` cell from the temperature and the two curve cells. A temperature at or above
    freezing gives NO ICE even when the curves are missing; below freezing the temperature is placed
    against the curves; a missing temperature, or a missing curve below freezing, gives a missing zone.
   */
  function IcingTypeZone(t: Option<real>, g: Option<real>, h: Option<real>): (r: Option<IceType>)
    ensures r.None? <==> t.None? || (t.value < 0.0 && (g.None? || h.None?))
    ensures r == Some(NoIce) <==> t.Some? && t.value >= 0.0
    ensures r == Some(Glaze) <==> t.Some? && g.Some? && h.Some? && g.value < t.value < 0.0
    ensures r == Some(HardRime) <==>
      t.Some? && g.Some? && h.Some? && t.value < 0.0 && h.value < t.value <= g.value
    ensures r == Some(SoftRime) <==>
      t.Some? && g.Some? && h.Some? && t.value < 0.0 && t.value <= g.value && t.value <= h.value
  {
    if t.Some? && t.value >= 0.0 then Some(NoIce)
    else if t.Some? && g.Some? && h.Some? then
      if t.value > g.value then Some(Glaze)
      else if t.value <= g.value && t.value > h.value then Some(HardRime)
      else Some(SoftRime)
    else None
  }

  /** The zone cell as stored in the frame: its label, or missing. */
  function ZoneCell(z: Option<IceType>): (r: Option<Value>)
    ensures r.None? <==> z.None?
    ensures z.Some? ==> r == Some(Text(Label(z.value)))
  {
    match z
    case Some(k) => Some(Text(Label(k)))
    case None => None
  }

  /** How warm a zone is: Soft Rime, Hard Rime, Glaze, NO ICE. */
  function Warmth(k: IceType): nat {
    match k
    case SoftRime => 0
    case HardRime => 1
    case Glaze => 2
    case NoIce => 3
  }

  /** Against fixed curves, a warmer temperature never yields a colder zone. */
  lemma ZoneMonotoneInTemperature(t1: real, t2: real, g: real, h: real)
    requires t1 <= t2
    ensures IcingTypeZone(Some(t1), Some(g), Some(h)).Some?
    ensures IcingTypeZone(Some(t2), Some(g), Some(h)).Some?
    ensures Warmth(IcingTypeZone(Some(t1), Some(g), Some(h)).value) <= Warmth(IcingTypeZone(Some(t2), Some(g), Some(h)).value)
  {
  }

  /**
    With the curves computed from a present, non-negative wind speed, a temperature below freezing
    is Soft Rime exactly when it is at or below the hard-rime curve.
   */
  lemma SoftRimeIffBelowHardRime(w: real, t: real)
    requires w >= 0.0 && t < 0.0
    ensures IcingTypeZone(Some(t), GlazeAt(Some(w)), HardRimeAt(Some(w))) == Some(SoftRime) <==> t <= HardRimeCurve(w)
  {
    HardRimeBelowGlaze(w);
  }

  /** At 12 m/s and -5 °C the zone is Hard Rime. */
  lemma ZoneAtWindTwelve()
    ensures IcingTypeZone(Some(-5.0), GlazeAt(Some(12.0)), HardRimeAt(Some(12.0))) == Some(HardRime)
  {
    CurvesAtTwelve();
  }

  // ---------------------------------------------------------------------------------------------
  // The RH threshold

  /** The site's RH threshold for an icing type; NO ICE has threshold 0. */
  function Threshold(k: IceType, spec: SiteSpec): real {
    match k
    case Glaze => spec.rhGlaze
    case HardRime => spec.rhHardRime
    case SoftRime => spec.rhSoftRime
    case NoIce => 0.0
  }

  /** The `_RH_Threshold` cell from the zone cell: any present value that is not an ice label gives 0. */
  function RHThreshold(zone: Option<Value>, spec: SiteSpec): (r: Option<real>)
    ensures r.None? <==> zone.None?
  {
    if zone.None? then None
    else if zone.value == Text("Glaze") then Some(spec.rhGlaze)
    else if zone.value == Text("Hard Rime") then Some(spec.rhHardRime)
    else if zone.value == Text("Soft Rime") then Some(spec.rhSoftRime)
    else Some(0.0)
  }

  /** Each zone label selects its own threshold, NO ICE selects 0, and a missing zone stays missing. */
  lemma ThresholdOfZone(z: Option<IceType>, spec: SiteSpec)
    ensures RHThreshold(ZoneCell(z), spec) == if z.Some? then Some(Threshold(z.value, spec)) else None
  {
  }

  // ---------------------------------------------------------------------------------------------
  // The verdicts

  const NoIceCell: Value := Text("NO ICE")

  /** `x > bound` in Python when `x` may be NaN: false for a missing value. */
  predicate Exceeds(x: Option<real>, bound: real) {
    x.Some? && x.value > bound
  }

  /** The sensor trigger: a present severity above 0 or a present liquid water content above 0. */
  predicate SensorTriggered(severity: Option<real>, lwc: Option<real>) {
    Exceeds(severity, 0.0) || Exceeds(lwc, 0.0)
  }

  /**
    The `_Icing` cell of a sensor group (a group whose name contains "MCMS"): the zone when the sensor
    triggers, NO ICE when every input is present and it does not, missing otherwise.
   */
  function SensorVerdict(severity: Option<real>, lwc: Option<real>, zone: Option<Value>): (r: Option<Value>)
    ensures r.None? || r == zone || r == Some(NoIceCell)
    ensures zone.None? ==> r.None?
    ensures SensorTriggered(severity, lwc) ==> r == zone
    ensures !SensorTriggered(severity, lwc) ==>
      (r == Some(NoIceCell) <==> severity.Some? && lwc.Some? && zone.Some?)
  {
    if SensorTriggered(severity, lwc) then zone
    else if severity.Some? && lwc.Some? && zone.Some? then Some(NoIceCell)
    else None
  }

  /** The forecast trigger: snow water above 1, or RH above the threshold, both present. */
  predicate ForecastTriggered(snow: Option<real>, rh: Option<real>, threshold: Option<real>) {
    Exceeds(snow, 1.0) || (threshold.Some? && Exceeds(rh, threshold.value))
  }

  /**
    The `_Icing` cell of the forecast group: the zone when the forecast triggers, NO ICE when every
    input is present and it does not, missing otherwise.
   */
  function ForecastVerdict(snow: Option<real>, rh: Option<real>, threshold: Option<real>, zone: Option<Value>): (r: Option<Value>)
    ensures r.None? || r == zone || r == Some(NoIceCell)
    ensures zone.None? ==> r.None?
    ensures ForecastTriggered(snow, rh, threshold) ==> r == zone
    ensures !ForecastTriggered(snow, rh, threshold) ==>
      (r == Some(NoIceCell) <==> snow.Some? && rh.Some? && threshold.Some? && zone.Some?)
  {
    if ForecastTriggered(snow, rh, threshold) then zone
    else if snow.Some? && rh.Some? && threshold.Some? && zone.Some? then Some(NoIceCell)
    else None
  }

  /**
    For the forecast group the threshold comes from the zone itself: with an ice zone and present
    RH and snow water, the verdict is that ice exactly when snow water exceeds 1 or RH exceeds the
    site's threshold for that ice, and NO ICE otherwise.
   */
  lemma ForecastIceVerdict(snow: real, rh: real, k: IceType, spec: SiteSpec)
    requires IsIce(k)
    ensures var zone := ZoneCell(Some(k));
      var v := ForecastVerdict(Some(snow), Some(rh), RHThreshold(zone, spec), zone);
      && (v == zone <==> snow > 1.0 || rh > Threshold(k, spec))
      && (v == Some(NoIceCell) <==> !(snow > 1.0 || rh > Threshold(k, spec)))
  {
    ThresholdOfZone(Some(k), spec);
  }

  // ---------------------------------------------------------------------------------------------
  // Wind, pitch and temperature zones

  /** The band a wind speed falls in: the first of bands 1..3 whose bound it does not exceed, else 4. */
  function WindBandIndex(ws: real, spec: SiteSpec): (i: nat)
    ensures 1 <= i <= 4
    ensures i >= 2 ==> ws > spec.zone1.upper
    ensures i >= 3 ==> ws > spec.zone2.upper
    ensures i == 4 ==> ws > spec.zone3.upper
    ensures i == 1 ==> ws <= spec.zone1.upper
    ensures i == 2 ==> ws <= spec.zone2.upper
    ensures i == 3 ==> ws <= spec.zone3.upper
  {
    if ws <= spec.zone1.upper then 1
    else if ws <= spec.zone2.upper then 2
    else if ws <= spec.zone3.upper then 3
    else 4
  }

  function WindBandLabel(i: nat, spec: SiteSpec): string {
    if i == 1 then spec.zone1.name
    else if i == 2 then spec.zone2.name
    else if i == 3 then spec.zone3.name
    else spec.zone4
  }

  /** The `_WindZone m/s` cell: the label of the wind speed's band, missing with the wind speed. */
  function WindZone(ws: Option<real>, spec: SiteSpec): (r: Option<Value>)
    ensures r.None? <==> ws.None?
    ensures ws.Some? ==> r == Some(Text(WindBandLabel(WindBandIndex(ws.value, spec), spec)))
  {
    if ws.Some? then Some(Text(WindBandLabel(WindBandIndex(ws.value, spec), spec))) else None
  }

  /** With ascending band bounds, a faster wind never falls in a lower band. */
  lemma WindBandMonotone(ws1: real, ws2: real, spec: SiteSpec)
    requires spec.zone1.upper <= spec.zone2.upper <= spec.zone3.upper
    requires ws1 <= ws2
    ensures WindBandIndex(ws1, spec) <= WindBandIndex(ws2, spec)
  {
  }

  /** The pitch state of a wind speed: 0 Pitch In, 1 Pitch Stay, 2 Pitch Out. */
  function PitchIndex(ws: real, spec: SiteSpec): (i: nat)
    ensures i <= 2
    ensures i == 0 <==> ws <= spec.pitchIn
    ensures i == 1 <==> spec.pitchIn < ws <= spec.pitchOut
    ensures i == 2 <==> ws > spec.pitchIn && ws > spec.pitchOut
  {
    if ws <= spec.pitchIn then 0 else if ws <= spec.pitchOut then 1 else 2
  }

  function PitchLabel(i: nat): string {
    if i == 0 then "Pitch In" else if i == 1 then "Pitch Stay" else "Pitch Out"
  }

  /** The `_PitchZone` cell: the pitch state's label, missing with the wind speed. */
  function PitchZone(ws: Option<real>, spec: SiteSpec): (r: Option<Value>)
    ensures r.None? <==> ws.None?
    ensures ws.Some? ==> r == Some(Text(PitchLabel(PitchIndex(ws.value, spec))))
  {
    if ws.Some? then Some(Text(PitchLabel(PitchIndex(ws.value, spec)))) else None
  }

  /** The temperature band, lower bound inclusive: 0 below -15, 1 to 3 for the 5-degree bands, 4 from 0 up. */
  function TempIndex(t: real): (i: nat)
    ensures i <= 4
    ensures i == 0 <==> t < -15.0
    ensures i == 1 <==> -15.0 <= t < -10.0
    ensures i == 2 <==> -10.0 <= t < -5.0
    ensures i == 3 <==> -5.0 <= t < 0.0
    ensures i == 4 <==> t >= 0.0
  {
    if t < -15.0 then 0
    else if -15.0 <= t < -10.0 then 1
    else if -10.0 <= t < -5.0 then 2
    else if -5.0 <= t < 0.0 then 3
    else 4
  }

  function TempLabel(i: nat): string {
    if i == 0 then "Below -15"
    else if i == 1 then "-10 to -15"
    else if i == 2 then "-5 to -10"
    else if i == 3 then "0 to -5"
    else "Above 0"
  }

  /** The `_TempZone` cell: the temperature band's label, missing with the temperature. */
  function TempZone(t: Option<real>): (r: Option<Value>)
    ensures r.None? <==> t.None?
    ensures t.Some? ==> r == Some(Text(TempLabel(TempIndex(t.value))))
  {
    if t.Some? then Some(Text(TempLabel(TempIndex(t.value)))) else None
  }

  /** The temperature bands never cross: a warmer temperature never gets a lower band. */
  lemma TempBandMonotone(t1: real, t2: real)
    requires t1 <= t2
    ensures TempIndex(t1) <= TempIndex(t2)
  {
  }

  /**
    The temperature zone reads "Above 0" exactly when the icing-type zone is NO ICE, whatever the
    curves; 0 °C itself is both.
   */
  lemma AboveZeroIffNoIce(t: real, g: Option<real>, h: Option<real>)
    ensures TempZone(Some(t)) == Some(Text("Above 0")) <==> IcingTypeZone(Some(t), g, h) == Some(NoIce)
  {
    if TempIndex(t) != 4 {
      assert TempLabel(TempIndex(t)) != "Above 0" by {
        var l := TempLabel(TempIndex(t));
        assert l[0] != 'A';
      }
    }
  }
}
