/** The per-site parameters read from the site record: thresholds, wind bands, pitch limits, clock offset. */
module Site {

  /** A wind-speed band: its name and its inclusive upper bound in m/s. */
  datatype WindBand = WindBand(name: string, upper: real)

  /**
    One site's record. The RH thresholds apply per icing type; the first three wind bands are tried in
    order and `zone4` labels every faster wind; `pitchIn` and `pitchOut` bound the pitch states;
    `utcOffset` is the zone offset from UTC in seconds (the record's `tz` hours, which may be
    fractional such as 5.5, times 3600), with one hour more when `dstObserved`.
   */
  datatype SiteSpec = SiteSpec(
    rhGlaze: real, rhHardRime: real, rhSoftRime: real,
    zone1: WindBand, zone2: WindBand, zone3: WindBand, zone4: string,
    pitchIn: real, pitchOut: real,
    utcOffset: int, dstObserved: bool)
}
