/** Background subtraction (`Experiment.adjust_background`): the session's
    background level is subtracted from every intensity; the x column is not
    touched. */
module Background {
  import opened Spectra

  /** Every intensity lowered by `level`, every x and the row count kept. */
  function Subtract(s: seq<Sample>, level: real): (r: seq<Sample>)
    ensures |r| == |s|
    ensures forall i :: 0 <= i < |s| ==> r[i].x == s[i].x && r[i].y == s[i].y - level
  {
    if s == [] then [] else [Sample(s[0].x, s[0].y - level)] + Subtract(s[1..], level)
  }

  /** A background of 0 (the constructor's default) leaves the spectrum as it was. */
  lemma ZeroIsIdentity(s: seq<Sample>)
    ensures Subtract(s, 0.0) == s
  {
    var r := Subtract(s, 0.0);
    forall i | 0 <= i < |s| ensures r[i] == s[i] {
      assert r[i].x == s[i].x && r[i].y == s[i].y;
    }
  }

  /** Subtracting `a` and then `b` is subtracting `a + b` once. */
  lemma Accumulates(s: seq<Sample>, a: real, b: real)
    ensures Subtract(Subtract(s, a), b) == Subtract(s, a + b)
  {
    var l, r := Subtract(Subtract(s, a), b), Subtract(s, a + b);
    forall i | 0 <= i < |s| ensures l[i] == r[i] {
      assert l[i].x == r[i].x && l[i].y == r[i].y;
    }
  }

  /** Adding the level back restores the table: no information is lost. */
  lemma Invertible(s: seq<Sample>, level: real)
    ensures Subtract(Subtract(s, level), -level) == s
  {
    Accumulates(s, level, -level);
    ZeroIsIdentity(s);
  }
}
