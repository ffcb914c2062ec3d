/** One spectrum through the preprocessing chain (`Experiment.adjust_spectrum`):
    background subtraction when asked for, cosmic removal with the session's
    cycles, distance and factor when asked for, and always the rescaling,
    with the session's switches and exposure and the caller's overrides. */
module Pipeline {
  import opened Spectra
  import opened Config
  import Background
  import Cosmics
  import Scale
  import Exposure
  import Lines

  /** The per-call switches, with the defaults of `adjust_spectrum`. */
  datatype Toggles = Toggles(
    background: bool,
    overwriteExposure: bool,
    overwriteRescaling: bool,
    eraseCosmics: bool,
    yScale: Option<string>)

  function DefaultToggles(): (t: Toggles)
    ensures t.background && t.eraseCosmics
    ensures !t.overwriteExposure && !t.overwriteRescaling && t.yScale.None?
  {
    Toggles(true, false, false, true, None)
  }

  /** The cosmic stage on the intensity column: the x column stays, and the
      intensities are those of `cycles` corrected passes. */
  function EraseCosmics(s: seq<Sample>, session: Session): (r: seq<Sample>)
    ensures |r| == |s| && Xs(r) == Xs(s)
    ensures Ys(r) == Cosmics.Erased(Ys(s), session.cosmicCycles, session.cosmicDistance, session.cosmicFactor)
  {
    var ys := Cosmics.Erased(Ys(s), session.cosmicCycles, session.cosmicDistance, session.cosmicFactor);
    var r := WithYs(s, ys);
    assert Xs(r) == Xs(s);
    assert Ys(r) == ys;
    r
  }

  /** The rows handed to the rescaling: background first, then cosmics, each
      only when switched on. */
  function Prepared(s: seq<Sample>, session: Session, toggles: Toggles): (r: seq<Sample>)
    ensures |r| == |s| && Xs(r) == Xs(s)
    ensures var levelled := if toggles.background
              then seq(|s|, i requires 0 <= i < |s| => s[i].y - session.background)
              else Ys(s);
      Ys(r) == if toggles.eraseCosmics
               then Cosmics.Erased(levelled, session.cosmicCycles, session.cosmicDistance, session.cosmicFactor)
               else levelled
  {
    var b := if toggles.background then Background.Subtract(s, session.background) else s;
    assert Xs(b) == Xs(s);
    assert Ys(b) == if toggles.background
                    then seq(|s|, i requires 0 <= i < |s| => s[i].y - session.background)
                    else Ys(s);
    if toggles.eraseCosmics then EraseCosmics(b, session) else b
  }

  /** `adjust_spectrum` on one spectrum and its file name. */
  function AdjustSpectrum(s: seq<Sample>, spec: Option<string>, session: Session, toggles: Toggles): (r: Result<Scale.Scaled>)
    ensures r == Scale.AdjustScale(
      Prepared(s, session, toggles),
      session.convertToEnergy, session.convertToRate, session.normalize,
      spec, session.exposure,
      toggles.overwriteExposure, toggles.overwriteRescaling, toggles.yScale)
    ensures r.Ok? ==> |r.value.samples| == |s|
    ensures r.Ok? ==> r.value.axisLabel == Scale.AxisLabel(session.convertToEnergy)
    ensures var rule := Scale.ChooseYRule(session.normalize, session.convertToRate, spec.Some?, toggles.overwriteExposure);
      r.Ok? ==> r.value.valueLabel == (if toggles.yScale.Some? then toggles.yScale.value else Scale.ValueLabel(rule))
  {
    Scale.AdjustScale(
      Prepared(s, session, toggles),
      session.convertToEnergy, session.convertToRate, session.normalize,
      spec, session.exposure,
      toggles.overwriteExposure, toggles.overwriteRescaling, toggles.yScale)
  }

  /** The whole chain under the rate rule on the wavelength axis: every row
      keeps its place and its x, and its intensity is the prepared one
      (background subtracted, then cosmics removed, as switched on) divided
      by the exposure the file name carries, or the session's when the name
      has none. */
  lemma RateChainRows(s: seq<Sample>, name: string, session: Session, toggles: Toggles)
    requires !session.convertToEnergy && !session.normalize && session.convertToRate
    requires !toggles.overwriteExposure
    requires Exposure.ExposureFromName(name, session.exposure) != 0.0
    ensures var r := AdjustSpectrum(s, Some(name), session, toggles);
      var p := Prepared(s, session, toggles);
      && r.Ok?
      && |r.value.samples| == |s|
      && forall i :: 0 <= i < |s| ==>
           r.value.samples[i] == Sample(s[i].x, Ys(p)[i] / Exposure.ExposureFromName(name, session.exposure))
  {
    var p := Prepared(s, session, toggles);
    Scale.RateDividesByNamedExposure(p, name, session.exposure, toggles.yScale);
    forall i | 0 <= i < |s| ensures p[i].x == s[i].x && p[i].y == Ys(p)[i] {
      assert p[i].x == Xs(p)[i] == Xs(s)[i];
    }
  }

  /** With a background of 0 (the constructor's default) the background
      switch makes no difference. */
  lemma ZeroBackgroundIsSkippable(s: seq<Sample>, spec: Option<string>, session: Session, toggles: Toggles)
    requires session.background == 0.0
    ensures AdjustSpectrum(s, spec, session, toggles)
         == AdjustSpectrum(s, spec, session, toggles.(background := !toggles.background))
  {
    Background.ZeroIsIdentity(s);
  }

  /** With no cycles to run the cosmic switch makes no difference. */
  lemma NoCyclesIsSkippable(s: seq<Sample>, spec: Option<string>, session: Session, toggles: Toggles)
    requires session.cosmicCycles <= 0
    ensures AdjustSpectrum(s, spec, session, toggles)
         == AdjustSpectrum(s, spec, session, toggles.(eraseCosmics := !toggles.eraseCosmics))
  {
    var b := if toggles.background then Background.Subtract(s, session.background) else s;
    var e := EraseCosmics(b, session);
    assert Cosmics.Erased(Ys(b), session.cosmicCycles, session.cosmicDistance, session.cosmicFactor) == Ys(b);
    forall i | 0 <= i < |b| ensures e[i] == b[i] {
      assert Xs(e)[i] == Xs(b)[i] && Ys(e)[i] == Ys(b)[i];
    }
    assert e == b;
  }

  /** Background before cosmics is not the same as cosmics before
      background: the replacement sums two neighbours, so subtracting the
      background afterwards leaves one background too many in the replaced
      sample.  Here 500 between neighbours of 10 with a background of 5
      becomes 10 in the source's order and 15 in the other. */
  lemma StageOrderMatters()
    ensures var session := OrderSession();
      && Ys(Prepared(OrderSpectrum(), session, DefaultToggles())) == [5.0, 5.0, 10.0, 5.0, 5.0, 5.0]
      && Ys(Background.Subtract(EraseCosmics(OrderSpectrum(), session), 5.0)) == [5.0, 5.0, 15.0, 5.0, 5.0, 5.0]
  {
    BackgroundFirst();
    CosmicsFirst();
  }

  function OrderSession(): Session {
    Session(5.0, false, false, false, 0.0, 1, 5.0, 2)
  }

  function OrderSpectrum(): seq<Sample> {
    [Sample(1.0, 10.0), Sample(2.0, 10.0), Sample(3.0, 500.0),
     Sample(4.0, 10.0), Sample(5.0, 10.0), Sample(6.0, 10.0)]
  }

  lemma BackgroundFirst()
    ensures Ys(Prepared(OrderSpectrum(), OrderSession(), DefaultToggles())) == [5.0, 5.0, 10.0, 5.0, 5.0, 5.0]
  {
    var b := Background.Subtract(OrderSpectrum(), 5.0);
    assert Ys(b) == [5.0, 5.0, 495.0, 5.0, 5.0, 5.0];
    SpikeOverBackground();
  }

  lemma CosmicsFirst()
    ensures Ys(Background.Subtract(EraseCosmics(OrderSpectrum(), OrderSession()), 5.0)) == [5.0, 5.0, 15.0, 5.0, 5.0, 5.0]
  {
    assert Ys(OrderSpectrum()) == [10.0, 10.0, 500.0, 10.0, 10.0, 10.0];
    Cosmics.SingleSpikeExample();
    var e := EraseCosmics(OrderSpectrum(), OrderSession());
    assert Ys(e) == [10.0, 10.0, 20.0, 10.0, 10.0, 10.0];
  }

  /** The spike of the order example after the background is removed. */
  lemma SpikeOverBackground()
    ensures Cosmics.Erased([5.0, 5.0, 495.0, 5.0, 5.0, 5.0], 1, 2, 5.0) == [5.0, 5.0, 10.0, 5.0, 5.0, 5.0]
  {
    var y := [5.0, 5.0, 495.0, 5.0, 5.0, 5.0];
    assert y[2] <= y[Cosmics.ArgMax(y)];
    assert Cosmics.ArgMax(y) == 2;
    assert Cosmics.Erased(y, 0, 2, 5.0) == y;
  }

  /** With the constructor's defaults the rate rule divides by an exposure
      of 0 for every file name whose first line carries no "<digits>s" tag,
      once the rows have no zero wavelength (the energy conversion fails
      first otherwise). */
  lemma DefaultsFailOnUntaggedName(s: seq<Sample>, name: string)
    requires Scale.NoZeroX(s)
    requires Exposure.FindTag(Lines.FirstLine(name), 0).None?
    ensures AdjustSpectrum(s, Some(name), DefaultSession(), DefaultToggles()) == Err(ZeroExposure)
  {
    var p := Prepared(s, DefaultSession(), DefaultToggles());
    forall i | 0 <= i < |p| ensures p[i].x != 0.0 {
      assert p[i].x == Xs(p)[i] == Xs(s)[i] == s[i].x;
    }
    Scale.RateWithoutExposureFails(p, true, name, false, None);
  }
}
