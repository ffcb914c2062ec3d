/** Axis rescaling and labelling (`Experiment.adjust_scale`).

    The x-rule: with energy conversion on and rescaling not suppressed,
    every x (a wavelength in nm) becomes 1239.82 / x (an energy in eV) and
    the rows are sorted ascending by the new x; the axis label is
    "Energy [eV]" whenever conversion is on, "Wavelength [nm]" otherwise.

    The y-rule, exactly one of: normalised by the maximum intensity,
    counts per second (divided by the exposure, read from the file name
    when it carries one), or the raw counts; each with its own label, which
    an explicit label passed by the caller replaces. */
module Scale {
  import opened Spectra
  import Cosmics
  import Exposure

  /** hc in eV nm, the constant of the wavelength-to-energy conversion. */
  const EnergyConstant: real := 1239.82

  const EnergyLabel := "Energy [eV]"
  const WavelengthLabel := "Wavelength [nm]"
  const NormalizedLabel := "Intensity [norm.]"
  const RateLabel := "Counts p.s."
  const AbsoluteLabel := "Intensity [abs. counts]"

  /** The photon energy of a wavelength, and (the same formula) the
      wavelength of an energy. */
  function ToEnergy(x: real): (e: real)
    requires x != 0.0
    ensures e != 0.0 && e * x == EnergyConstant
  {
    EnergyConstant / x
  }

  /** The conversion undoes itself. */
  lemma EnergyIsInvolution(x: real)
    requires x != 0.0
    ensures ToEnergy(ToEnergy(x)) == x
  {
    var e := ToEnergy(x);
    assert ToEnergy(e) * e == e * x;
  }

  /** The conversion reverses the order of positive wavelengths: longer
      waves carry less energy. */
  lemma EnergyReversesOrder(a: real, b: real)
    requires 0.0 < a < b
    ensures ToEnergy(b) < ToEnergy(a)
  {
    var ea, eb := ToEnergy(a), ToEnergy(b);
    assert ea == EnergyConstant / a && eb == EnergyConstant / b;
    assert ea - eb == EnergyConstant * (b - a) / (a * b);
    assert a * b > 0.0;
  }

  predicate NoZeroX(s: seq<Sample>) {
    forall i :: 0 <= i < |s| ==> s[i].x != 0.0
  }

  function ConvertRow(r: Sample): (c: Sample)
    requires r.x != 0.0
    ensures c.x == ToEnergy(r.x) && c.y == r.y
  {
    Sample(ToEnergy(r.x), r.y)
  }

  /** Every x converted, every row kept in place with its intensity. */
  function ConvertXs(s: seq<Sample>): (r: seq<Sample>)
    requires NoZeroX(s)
    ensures |r| == |s| && NoZeroX(r)
    ensures forall i :: 0 <= i < |s| ==> r[i] == ConvertRow(s[i])
  {
    seq(|s|, i requires 0 <= i < |s| => ConvertRow(s[i]))
  }

  /** Rows ascending by x: each x at most the next one. */
  predicate SortedByX(s: seq<Sample>) {
    forall i :: 0 < i < |s| ==> s[i - 1].x <= s[i].x
  }

  /** In a sorted table every row's x is at most that of any later row. */
  lemma {:induction false} SortedIsOrdered(s: seq<Sample>, i: nat, j: nat)
    requires SortedByX(s) && i <= j < |s|
    ensures s[i].x <= s[j].x
    decreases j - i
  {
    if i < j {
      SortedIsOrdered(s, i, j - 1);
    }
  }

  /** r put into its place in a sorted table. */
  function Insert(r: Sample, s: seq<Sample>): (t: seq<Sample>)
    requires SortedByX(s)
    ensures SortedByX(t)
    ensures multiset(t) == multiset(s) + multiset{r}
    ensures |t| == |s| + 1
    ensures t[0] == r || (|s| > 0 && t[0] == s[0])
  {
    if s == [] || r.x <= s[0].x then [r] + s
    else
      var t := [s[0]] + Insert(r, s[1..]);
      assert s == [s[0]] + s[1..];
      t
  }

  /** `sort_values` on the x column: the rows ascending by x, each row kept
      whole.  The library's sort is not stable; this one keeps rows with
      equal x in their original order, which is one of the orders it may
      produce. */
  function SortByX(s: seq<Sample>): (t: seq<Sample>)
    ensures SortedByX(t)
    ensures multiset(t) == multiset(s)
  {
    if s == [] then []
    else
      assert s == [s[0]] + s[1..];
      Insert(s[0], SortByX(s[1..]))
  }

  /** Rows in a permutation satisfy what the rows of the original satisfy
      (here: a nonzero x). */
  lemma PermutationKeepsNoZeroX(a: seq<Sample>, b: seq<Sample>)
    requires multiset(a) == multiset(b) && NoZeroX(b)
    ensures NoZeroX(a)
  {
    forall i | 0 <= i < |a| ensures a[i].x != 0.0 {
      assert a[i] in multiset(b);
      var j :| 0 <= j < |b| && b[j] == a[i];
    }
  }

  /** Conversion goes row by row, so it distributes over concatenation. */
  lemma ConvertConcat(u: seq<Sample>, v: seq<Sample>)
    requires NoZeroX(u) && NoZeroX(v)
    ensures NoZeroX(u + v)
    ensures ConvertXs(u + v) == ConvertXs(u) + ConvertXs(v)
  {
    assert forall i :: 0 <= i < |u + v| ==> (u + v)[i] == if i < |u| then u[i] else v[i - |u|];
  }

  /** The multiset of rows after taking row k out. */
  lemma RemoveAt(b: seq<Sample>, k: nat)
    requires k < |b|
    ensures b == b[..k] + [b[k]] + b[k + 1..]
    ensures multiset(b[..k] + b[k + 1..]) == multiset(b) - multiset{b[k]}
  {
    assert b == b[..k] + [b[k]] + b[k + 1..];
  }

  /** The converted rows of b are those of b without row k, and row k
      converted. */
  lemma ConvertWithout(b: seq<Sample>, k: nat)
    requires k < |b| && NoZeroX(b)
    ensures NoZeroX(b[..k] + b[k + 1..])
    ensures multiset(ConvertXs(b)) == multiset(ConvertXs(b[..k] + b[k + 1..])) + multiset{ConvertRow(b[k])}
  {
    var u, v := b[..k], b[k + 1..];
    assert b == u + [b[k]] + v;
    ConvertConcat(u, [b[k]]);
    ConvertConcat(u + [b[k]], v);
    ConvertConcat(u, v);
    var cu, cv := ConvertXs(u), ConvertXs(v);
    assert ConvertXs([b[k]]) == [ConvertRow(b[k])];
    assert ConvertXs(b) == cu + [ConvertRow(b[k])] + cv;
  }

  /** Converting the rows of a permutation gives a permutation of the
      converted rows. */
  lemma {:induction false} ConvertKeepsPermutation(a: seq<Sample>, b: seq<Sample>)
    requires multiset(a) == multiset(b) && NoZeroX(a) && NoZeroX(b)
    ensures multiset(ConvertXs(a)) == multiset(ConvertXs(b))
    decreases |a|
  {
    if a == [] {
      assert |b| == |multiset(b)| == 0;
    } else {
      assert a[0] in multiset(b);
      var k :| 0 <= k < |b| && b[k] == a[0];
      RemoveAt(b, k);
      assert a == [a[0]] + a[1..];
      ConvertWithout(a, 0);
      ConvertWithout(b, k);
      assert a[..0] + a[1..] == a[1..];
      ConvertKeepsPermutation(a[1..], b[..k] + b[k + 1..]);
    }
  }

  /** The x-rule's value transform: convert, then sort. */
  function ToEnergyScale(s: seq<Sample>): (r: seq<Sample>)
    requires NoZeroX(s)
    ensures SortedByX(r) && NoZeroX(r)
    ensures multiset(r) == multiset(ConvertXs(s))
  {
    var r := SortByX(ConvertXs(s));
    PermutationKeepsNoZeroX(r, ConvertXs(s));
    r
  }

  /** Converting twice gives back the original rows, in ascending order of
      the original x: no row is lost, duplicated or separated from its
      intensity. */
  lemma {:induction false} EnergyScaleRoundTrip(s: seq<Sample>)
    requires NoZeroX(s)
    ensures multiset(ToEnergyScale(ToEnergyScale(s))) == multiset(s)
    ensures SortedByX(ToEnergyScale(ToEnergyScale(s)))
  {
    var once := ToEnergyScale(s);
    ConvertKeepsPermutation(once, ConvertXs(s));
    var twice := ConvertXs(ConvertXs(s));
    forall i | 0 <= i < |s| ensures twice[i] == s[i] {
      EnergyIsInvolution(s[i].x);
    }
    assert twice == s;
  }

  /** Example: wavelengths 400, 500 and 620 nm become the
      energies 1239.82/620 < 1239.82/500 < 1239.82/400, each keeping its
      intensity. */
  lemma ThreeWavelengthsExample(a: real, b: real, c: real)
    ensures ToEnergyScale([Sample(400.0, a), Sample(500.0, b), Sample(620.0, c)])
         == [Sample(1239.82 / 620.0, c), Sample(1239.82 / 500.0, b), Sample(1239.82 / 400.0, a)]
  {
    var e0, e1, e2 := Sample(1239.82 / 400.0, a), Sample(1239.82 / 500.0, b), Sample(1239.82 / 620.0, c);
    assert ConvertXs([Sample(400.0, a), Sample(500.0, b), Sample(620.0, c)]) == [e0, e1, e2];
    SortsDescendingThree(e0, e1, e2);
  }

  /** Two rows in descending order of x are swapped. */
  lemma SortsDescendingTwo(e1: Sample, e2: Sample)
    requires e2.x < e1.x
    ensures SortByX([e1, e2]) == [e2, e1]
  {
    assert SortByX([e2]) == [e2];
    assert [e1, e2][1..] == [e2];
    assert Insert(e1, [e2]) == [e2] + Insert(e1, []);
  }

  /** Three rows in descending order of x are sorted into reverse order. */
  lemma SortsDescendingThree(e0: Sample, e1: Sample, e2: Sample)
    requires e2.x < e1.x < e0.x
    ensures SortByX([e0, e1, e2]) == [e2, e1, e0]
  {
    SortsDescendingTwo(e1, e2);
    assert [e0, e1, e2][1..] == [e1, e2];
    assert Insert(e0, [e1]) == [e1, e0];
    assert [e2, e1][1..] == [e1];
    assert Insert(e0, [e2, e1]) == [e2] + Insert(e0, [e1]);
  }

  /** The x stage: the converted and sorted rows, or the rows as they were
      when conversion is off or rescaling is suppressed.  A wavelength of 0
      has no energy. */
  function RescaleX(s: seq<Sample>, convertToEnergy: bool, overwriteRescaling: bool): (r: Result<seq<Sample>>)
    ensures r.Err? <==> convertToEnergy && !overwriteRescaling && !NoZeroX(s)
    ensures r.Err? ==> r.error == ZeroWavelength
    ensures r.Ok? && convertToEnergy && !overwriteRescaling ==>
      SortedByX(r.value) && multiset(r.value) == multiset(ConvertXs(s))
    ensures r.Ok? && !(convertToEnergy && !overwriteRescaling) ==> r.value == s
    ensures r.Ok? ==> |r.value| == |s|
  {
    if convertToEnergy && !overwriteRescaling then
      if NoZeroX(s) then
        var t := ToEnergyScale(s);
        assert |t| == |multiset(t)| == |ConvertXs(s)|;
        Ok(t)
      else Err(ZeroWavelength)
    else Ok(s)
  }

  /** The label of the index column; an energy label even when rescaling
      is suppressed. */
  function AxisLabel(convertToEnergy: bool): (shown: string)
    ensures shown == EnergyLabel <==> convertToEnergy
    ensures shown == WavelengthLabel <==> !convertToEnergy
  {
    assert |EnergyLabel| != |WavelengthLabel|;
    if convertToEnergy then EnergyLabel else WavelengthLabel
  }

  /** The three treatments of the intensity column. */
  datatype YRule = Normalized | Rate | Absolute

  /** Which y-rule fires, by priority: normalising wins; the rate needs a
      file name and no overridden exposure; the raw counts otherwise. */
  function ChooseYRule(normalize: bool, convertToRate: bool, named: bool, overwriteExposure: bool): (rule: YRule)
    ensures rule == Normalized <==> normalize
    ensures rule == Rate <==> !normalize && convertToRate && named && !overwriteExposure
    ensures rule == Absolute <==> !normalize && !(convertToRate && named && !overwriteExposure)
  {
    if normalize then Normalized
    else if convertToRate && named && !overwriteExposure then Rate
    else Absolute
  }

  /** The column name each y-rule gives the intensities. */
  function ValueLabel(rule: YRule): (shown: string)
    ensures shown == NormalizedLabel <==> rule == Normalized
    ensures shown == RateLabel <==> rule == Rate
    ensures shown == AbsoluteLabel <==> rule == Absolute
  {
    assert |NormalizedLabel| != |RateLabel| && |RateLabel| != |AbsoluteLabel| && |AbsoluteLabel| != |NormalizedLabel|;
    match rule
    case Normalized => NormalizedLabel
    case Rate => RateLabel
    case Absolute => AbsoluteLabel
  }

  /** Every intensity divided by d. */
  function DivideYs(s: seq<Sample>, d: real): (r: seq<Sample>)
    requires d != 0.0
    ensures |r| == |s|
    ensures forall i :: 0 <= i < |s| ==> r[i] == Sample(s[i].x, s[i].y / d)
  {
    WithYs(s, seq(|s|, i requires 0 <= i < |s| => s[i].y / d))
  }

  /** The largest intensity (the column's `max`). */
  function MaxY(s: seq<Sample>): (m: real)
    requires |s| > 0
    ensures forall i :: 0 <= i < |s| ==> s[i].y <= m
    ensures exists i :: 0 <= i < |s| && s[i].y == m
  {
    var ys := Ys(s);
    var k := Cosmics.ArgMax(ys);
    assert s[k].y == ys[k];
    ys[k]
  }

  /** The y stage.  Normalising divides by the maximum, which must not be 0
      (an empty table stays empty); the rate divides by the exposure, which
      must not be 0. */
  function RescaleY(s: seq<Sample>, rule: YRule, exposure: real): (r: Result<seq<Sample>>)
    ensures r.Err? <==>
      || (rule == Normalized && |s| > 0 && MaxY(s) == 0.0)
      || (rule == Rate && exposure == 0.0)
    ensures r.Err? ==> r.error == (if rule == Rate then ZeroExposure else ZeroMaximum)
    ensures r.Ok? ==> |r.value| == |s| && forall i :: 0 <= i < |s| ==> r.value[i].x == s[i].x
    ensures r.Ok? && rule == Normalized && |s| > 0 ==>
      forall i :: 0 <= i < |s| ==> r.value[i].y == s[i].y / MaxY(s)
    ensures r.Ok? && rule == Rate ==>
      forall i :: 0 <= i < |s| ==> r.value[i].y == s[i].y / exposure
    ensures r.Ok? && (rule == Absolute || |s| == 0) ==> r.value == s
  {
    match rule
    case Normalized =>
      if |s| == 0 then Ok(s)
      else if MaxY(s) == 0.0 then Err(ZeroMaximum)
      else Ok(DivideYs(s, MaxY(s)))
    case Rate =>
      if exposure == 0.0 then Err(ZeroExposure) else Ok(DivideYs(s, exposure))
    case Absolute => Ok(s)
  }

  /** After normalising by a positive maximum, the peak reads 1 and no
      intensity exceeds 1. */
  lemma NormalizedPeakIsOne(s: seq<Sample>)
    requires |s| > 0 && MaxY(s) > 0.0
    ensures RescaleY(s, Normalized, 0.0).Ok?
    ensures var r := RescaleY(s, Normalized, 0.0).value;
      && (forall i :: 0 <= i < |r| ==> r[i].y <= 1.0)
      && (exists i :: 0 <= i < |r| && r[i].y == 1.0)
  {
    var m := MaxY(s);
    var r := RescaleY(s, Normalized, 0.0).value;
    forall i | 0 <= i < |r| ensures r[i].y <= 1.0 {
      QuotientAtMostOne(s[i].y, m);
    }
    var k :| 0 <= k < |s| && s[k].y == m;
    QuotientAtMostOne(s[k].y, m);
  }

  lemma QuotientAtMostOne(y: real, m: real)
    requires 0.0 < m && y <= m
    ensures y / m <= 1.0
    ensures y == m ==> y / m == 1.0
  {
  }

  /** A processed spectrum: the rows and the two labels a plot shows. */
  datatype Scaled = Scaled(samples: seq<Sample>, axisLabel: string, valueLabel: string)

  /** The whole stage: the x-rule, then the y-rule chosen from the session
      switches, the file name and the overrides; the exposure is the one in
      the file name's first tag when the rate rule fires and the name has
      one, the `exposure` passed in otherwise.  It fails exactly where the
      source would divide by zero, and otherwise keeps the row count and
      sets the two labels. */
  function AdjustScale(
    s: seq<Sample>, convertToEnergy: bool, convertToRate: bool, normalize: bool,
    spec: Option<string>, exposure: real,
    overwriteExposure: bool, overwriteRescaling: bool, yScale: Option<string>): (r: Result<Scaled>)
    ensures var rule := ChooseYRule(normalize, convertToRate, spec.Some?, overwriteExposure);
      && (convertToEnergy && !overwriteRescaling && !NoZeroX(s) ==> r == Err(ZeroWavelength))
      && (rule == Rate && (convertToEnergy && !overwriteRescaling ==> NoZeroX(s)) ==>
            && (r.Err? <==> Exposure.ExposureFromName(spec.value, exposure) == 0.0)
            && (r.Err? ==> r.error == ZeroExposure))
      && (rule == Absolute && (convertToEnergy && !overwriteRescaling ==> NoZeroX(s)) ==> r.Ok?)
      && (r.Ok? ==>
            && |r.value.samples| == |s|
            && r.value.axisLabel == (if convertToEnergy then EnergyLabel else WavelengthLabel)
            && r.value.valueLabel == (if yScale.Some? then yScale.value else ValueLabel(rule)))
    ensures var rule := ChooseYRule(normalize, convertToRate, spec.Some?, overwriteExposure);
      var xs := RescaleX(s, convertToEnergy, overwriteRescaling);
      var seconds := if rule == Rate then Exposure.ExposureFromName(spec.value, exposure) else exposure;
      && (r.Err? <==> xs.Err? || RescaleY(xs.value, rule, seconds).Err?)
      && (r.Ok? ==> RescaleY(xs.value, rule, seconds) == Ok(r.value.samples))
    ensures r.Ok? && convertToEnergy && !overwriteRescaling ==> SortedByX(r.value.samples)
    ensures r.Ok? && !(convertToEnergy && !overwriteRescaling) ==>
      forall i :: 0 <= i < |s| ==> r.value.samples[i].x == s[i].x
  {
    match RescaleX(s, convertToEnergy, overwriteRescaling)
    case Err(e) => Err(e)
    case Ok(xs) =>
      var rule := ChooseYRule(normalize, convertToRate, spec.Some?, overwriteExposure);
      var seconds := if rule == Rate then Exposure.ExposureFromName(spec.value, exposure) else exposure;
      match RescaleY(xs, rule, seconds)
      case Err(e) => Err(e)
      case Ok(ys) =>
        assert forall i :: 0 <= i < |ys| ==> ys[i].x == xs[i].x;
        var shown := if yScale.Some? then yScale.value else ValueLabel(rule);
        Ok(Scaled(ys, AxisLabel(convertToEnergy), shown))
  }

  /** Under the rate rule on the wavelength axis every row keeps its place
      and its x, and its intensity is divided by the exposure the file name
      carries (the one passed in when the name has no tag). */
  lemma RateDividesByNamedExposure(s: seq<Sample>, name: string, exposure: real, yScale: Option<string>)
    requires Exposure.ExposureFromName(name, exposure) != 0.0
    ensures var r := AdjustScale(s, false, true, false, Some(name), exposure, false, false, yScale);
      && r.Ok?
      && |r.value.samples| == |s|
      && forall i :: 0 <= i < |s| ==>
           r.value.samples[i] == Sample(s[i].x, s[i].y / Exposure.ExposureFromName(name, exposure))
  {
    assert ChooseYRule(false, true, true, false) == Rate;
  }

  /** Normalising on the wavelength axis divides every intensity by the
      largest one; the rows keep their place and their x. */
  lemma NormalizedDividesByPeak(s: seq<Sample>, convertToRate: bool, spec: Option<string>, exposure: real,
                                overwriteExposure: bool, yScale: Option<string>)
    requires |s| > 0 && MaxY(s) != 0.0
    ensures var r := AdjustScale(s, false, convertToRate, true, spec, exposure, overwriteExposure, false, yScale);
      && r.Ok?
      && |r.value.samples| == |s|
      && forall i :: 0 <= i < |s| ==> r.value.samples[i] == Sample(s[i].x, s[i].y / MaxY(s))
  {
    assert ChooseYRule(true, convertToRate, spec.Some?, overwriteExposure) == Normalized;
  }

  /** Under the rate rule on the energy axis the rows come out ascending in
      energy, and every one of them is an input row with its wavelength
      converted and its intensity divided by the exposure. */
  lemma EnergyRateRows(s: seq<Sample>, name: string, exposure: real, yScale: Option<string>)
    requires NoZeroX(s) && Exposure.ExposureFromName(name, exposure) != 0.0
    ensures var r := AdjustScale(s, true, true, false, Some(name), exposure, false, false, yScale);
      var e := Exposure.ExposureFromName(name, exposure);
      && r.Ok?
      && SortedByX(r.value.samples)
      && forall i :: 0 <= i < |r.value.samples| ==>
           exists j :: 0 <= j < |s| && r.value.samples[i] == Sample(ToEnergy(s[j].x), s[j].y / e)
  {
    assert ChooseYRule(false, true, true, false) == Rate;
    var e := Exposure.ExposureFromName(name, exposure);
    var t := ToEnergyScale(s);
    var r := AdjustScale(s, true, true, false, Some(name), exposure, false, false, yScale).value.samples;
    assert RescaleY(t, Rate, e) == Ok(r);
    forall i | 0 <= i < |r|
      ensures exists j :: 0 <= j < |s| && r[i] == Sample(ToEnergy(s[j].x), s[j].y / e)
    {
      assert t[i] in multiset(ConvertXs(s));
      var j :| 0 <= j < |s| && ConvertXs(s)[j] == t[i];
      assert r[i] == Sample(ToEnergy(s[j].x), s[j].y / e);
    }
  }

  /** With the rate rule chosen and no exposure in the name nor passed in,
      the stage fails instead of dividing by zero. */
  lemma RateWithoutExposureFails(
    s: seq<Sample>, convertToEnergy: bool, spec: string, overwriteRescaling: bool, yScale: Option<string>)
    requires convertToEnergy && !overwriteRescaling ==> NoZeroX(s)
    requires Exposure.ExposureFromName(spec, 0.0) == 0.0
    ensures AdjustScale(s, convertToEnergy, true, false, Some(spec), 0.0, false, overwriteRescaling, yScale)
         == Err(ZeroExposure)
  {
    assert ChooseYRule(false, true, true, false) == Rate;
  }

  /** Example: "sample_30s.txt" with the rate rule and no
      override is divided by 30 seconds and labelled "Counts p.s.". */
  lemma SampleRateExample(s: seq<Sample>)
    ensures var r := AdjustScale(s, false, true, false, Some("sample_30s.txt"), 0.0, false, false, None);
      && r.Ok?
      && r.value.valueLabel == RateLabel && r.value.axisLabel == WavelengthLabel
      && |r.value.samples| == |s|
      && forall i :: 0 <= i < |s| ==> r.value.samples[i] == Sample(s[i].x, s[i].y / 30.0)
  {
    Exposure.SampleNameExample();
    var r := AdjustScale(s, false, true, false, Some("sample_30s.txt"), 0.0, false, false, None);
  }
}
