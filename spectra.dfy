/** The data model shared by the preprocessing stages: a loaded spectrum table
    is a sequence of rows, column 0 holding the x-axis sample (wavelength, later
    energy) and column 1 the measured intensity.  Keeping each row as one value
    means a reordering of the table can never separate an x from its y. */
module Spectra {

  /** One row of the table. */
  datatype Sample = Sample(x: real, y: real)

  /** The failures a stage reports instead of producing infinities, NaNs or
      an index error. */
  datatype Error =
    | EmptySpectrum     // the maximum of an empty intensity column is asked for
    | OffsetOutOfRange  // a cosmic offset leaves the sample range
    | ZeroWavelength    // 1239.82 / x with x == 0
    | ZeroMaximum       // normalising by a maximum intensity of 0
    | ZeroExposure      // counts per second with an exposure of 0 seconds

  datatype Result<T> = Ok(value: T) | Err(error: Error)

  datatype Option<T> = None | Some(value: T)

  /** The x column. */
  function Xs(s: seq<Sample>): (r: seq<real>)
    ensures |r| == |s|
    ensures forall i :: 0 <= i < |s| ==> r[i] == s[i].x
  {
    seq(|s|, i requires 0 <= i < |s| => s[i].x)
  }

  /** The intensity column. */
  function Ys(s: seq<Sample>): (r: seq<real>)
    ensures |r| == |s|
    ensures forall i :: 0 <= i < |s| ==> r[i] == s[i].y
  {
    seq(|s|, i requires 0 <= i < |s| => s[i].y)
  }

  /** The table with its intensity column replaced by `ys`. */
  function WithYs(s: seq<Sample>, ys: seq<real>): (r: seq<Sample>)
    requires |ys| == |s|
    ensures |r| == |s|
    ensures forall i :: 0 <= i < |s| ==> r[i] == Sample(s[i].x, ys[i])
  {
    seq(|s|, i requires 0 <= i < |s| => Sample(s[i].x, ys[i]))
  }
}
