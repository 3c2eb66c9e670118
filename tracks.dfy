/** One stellar evolution track: an ordered sequence of rows, one per
    evolutionary step.  Within a track the row label equals the row
    position, so "index" and "label" are the same thing throughout. */
module Tracks {

  /** The physical quantities of one step that the detectors and the metric
      read.  Each field stands for the column the parameter mapping aliases
      to it (`age`, `core_hydrogen_frac`, `lum`, ...). */
  datatype Row = Row(
    age: real,          // Age_gyr
    logTCen: real,      // LogT_cen
    xCen: real,         // X_cen, core hydrogen fraction
    logL: real,         // LogL_lsun, log luminosity
    logG: real,         // Log_g
    logTeff: real,      // log_Teff
    yCen: real,         // Y_cen, core helium fraction
    l3a: real,          // 3a_lsun, triple-alpha luminosity
    zCen: real,         // Z_cen, core metal fraction
    mass: real          // Mass_msun
  )

  type Track = seq<Row>

  /** Scale factors of the metric function, so that changes in Teff and L
      are comparable. */
  datatype MetricScales = MetricScales(teffScale: real, lumScale: real)

  const DefaultScales: MetricScales := MetricScales(5.0, 1.0)

  /** The column the detectors read for luminosity, as a sequence. */
  function LogLColumn(t: Track): (c: seq<real>)
    ensures |c| == |t| && forall i :: 0 <= i < |t| ==> c[i] == t[i].logL
  {
    seq(|t|, i requires 0 <= i < |t| => t[i].logL)
  }
}
