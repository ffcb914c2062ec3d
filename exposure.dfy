/** The exposure time written into a spectrum's file name (in
    `Experiment.adjust_scale`): the name is tested with
    `re.match(".*[0-9]+s.*", name)` and, on a match, the exposure is the
    number in front of the `s` of the leftmost `re.search("[0-9]+s", name)`.
    Without a match the exposure passed in is kept. */
module Exposure {
  import opened Spectra
  import opened Lines

  predicate IsDigit(c: char) {
    '0' <= c <= '9'
  }

  /** The end of the run of digits that starts at p. */
  function RunEnd(s: string, p: nat): (q: nat)
    requires p <= |s|
    ensures p <= q <= |s|
    ensures forall k :: p <= k < q ==> IsDigit(s[k])
    ensures q < |s| ==> !IsDigit(s[q])
    decreases |s| - p
  {
    if p < |s| && IsDigit(s[p]) then RunEnd(s, p + 1) else p
  }

  /** "[0-9]+s" matches at p: a digit run starts there and is followed by
      an `s` (backtracking into the run cannot help, since a digit is not
      an `s`). */
  predicate TagAt(s: string, p: nat) {
    p < |s| && IsDigit(s[p]) && RunEnd(s, p) < |s| && s[RunEnd(s, p)] == 's'
  }

  /** The leftmost match of "[0-9]+s" at or after `from`. */
  function FindTag(s: string, from: nat): (p: Option<nat>)
    requires from <= |s|
    ensures p.Some? ==> from <= p.value && TagAt(s, p.value)
    ensures p.Some? ==> forall q :: from <= q < p.value ==> !TagAt(s, q)
    ensures p.None? ==> forall q :: from <= q < |s| ==> !TagAt(s, q)
    decreases |s| - from
  {
    if from == |s| then None
    else if TagAt(s, from) then Some(from)
    else FindTag(s, from + 1)
  }

  function DigitValue(c: char): nat
    requires IsDigit(c)
  {
    (c as int - '0' as int) as nat
  }

  /** The decimal value of a string of digits (`float` of it, exactly). */
  function DecimalValue(ds: string): nat
    requires forall k :: 0 <= k < |ds| ==> IsDigit(ds[k])
  {
    if ds == [] then 0
    else 10 * DecimalValue(ds[..|ds| - 1]) + DigitValue(ds[|ds| - 1])
  }

  /** The number a tag at p carries: its digits without the `s`. */
  function TagValue(name: string, p: nat): nat
    requires p <= |name|
  {
    DecimalValue(name[p..RunEnd(name, p)])
  }

  /** The exposure the rate branch divides by: when the first line of the
      name holds a tag, the number carried by the leftmost tag of the whole
      name; otherwise `fallback`. */
  function ExposureFromName(name: string, fallback: real): (e: real)
    ensures FindTag(FirstLine(name), 0).None? ==> e == fallback
    ensures FindTag(FirstLine(name), 0).Some? ==>
      FindTag(name, 0).Some? && e == TagValue(name, FindTag(name, 0).value) as real
  {
    match FindTag(FirstLine(name), 0)
    case None => fallback
    case Some(_) =>
      FirstLineTagIsLeftmost(name);
      TagValue(name, FindTag(name, 0).value) as real
  }

  /** A tag in the first line is the leftmost tag of the whole name, with
      the same digit run. */
  lemma FirstLineTagIsLeftmost(name: string)
    requires FindTag(FirstLine(name), 0).Some?
    ensures FindTag(name, 0) == FindTag(FirstLine(name), 0)
    ensures RunEnd(name, FindTag(name, 0).value) == RunEnd(FirstLine(name), FindTag(name, 0).value)
  {
    var line := FirstLine(name);
    var p := FindTag(line, 0).value;
    RunEndOfPrefix(line, name, p);
    forall q | 0 <= q < p ensures !TagAt(name, q) {
      RunEndOfPrefix(line, name, q);
      assert !TagAt(line, q);
      var e := RunEnd(line, q);
      if e < |line| {
        assert name[e] == line[e];
      }
    }
    assert TagAt(name, p);
    LeftmostIsFound(name, 0, p);
  }

  /** Inside a prefix that ends before a non-digit, runs end where they end
      in the whole string. */
  lemma {:induction false} RunEndOfPrefix(line: string, s: string, p: nat)
    requires line <= s && p <= |line|
    requires |line| < |s| ==> !IsDigit(s[|line|])
    ensures RunEnd(line, p) == RunEnd(s, p)
    decreases |line| - p
  {
    if p < |line| && IsDigit(line[p]) {
      RunEndOfPrefix(line, s, p + 1);
    }
  }

  /** A tag with no tag before it is what the search finds. */
  lemma {:induction false} LeftmostIsFound(s: string, from: nat, p: nat)
    requires from <= p < |s| && TagAt(s, p)
    requires forall q :: from <= q < p ==> !TagAt(s, q)
    ensures FindTag(s, from) == Some(p)
    decreases p - from
  {
    if from < p {
      LeftmostIsFound(s, from + 1, p);
    }
  }

  /** The run of digits starting at p ends at the first non-digit. */
  lemma {:induction false} RunEndOfDigits(s: string, p: nat, m: nat)
    requires p + m <= |s|
    requires forall k :: p <= k < p + m ==> IsDigit(s[k])
    requires p + m < |s| ==> !IsDigit(s[p + m])
    ensures RunEnd(s, p) == p + m
    decreases m
  {
    if m > 0 {
      RunEndOfDigits(s, p + 1, m - 1);
    }
  }

  /** The decimal digits of n, as `str(n)` writes them. */
  function Decimal(n: nat): (ds: string)
    ensures |ds| > 0
    ensures forall k :: 0 <= k < |ds| ==> IsDigit(ds[k])
    ensures DecimalValue(ds) == n
  {
    var last := ('0' as int + n % 10) as char;
    if n < 10 then [last]
    else
      var ds := Decimal(n / 10) + [last];
      assert ds[..|ds| - 1] == Decimal(n / 10);
      ds
  }

  /** Inside a prefix ending in a non-digit, a run ends where it ends in the
      whole string, before the end of the prefix. */
  lemma {:induction false} RunEndInside(line: string, s: string, p: nat)
    requires line <= s && p < |line| && !IsDigit(line[|line| - 1])
    ensures RunEnd(s, p) == RunEnd(line, p) < |line|
    decreases |line| - p
  {
    if IsDigit(line[p]) {
      RunEndInside(line, s, p + 1);
    }
  }

  /** A prefix without a tag of its own that ends in a non-digit starts no
      tag in any string it begins. */
  lemma NoTagInPrefix(prefix: string, name: string)
    requires prefix <= name
    requires FindTag(prefix, 0) == None
    requires prefix == [] || !IsDigit(prefix[|prefix| - 1])
    ensures forall q :: 0 <= q < |prefix| ==> !TagAt(name, q)
  {
    forall q | 0 <= q < |prefix| ensures !TagAt(name, q) {
      assert name[q] == prefix[q];
      assert !TagAt(prefix, q);
      if IsDigit(prefix[q]) {
        RunEndInside(prefix, name, q);
        assert name[RunEnd(prefix, q)] == prefix[RunEnd(prefix, q)];
      }
    }
  }

  /** The three pieces of a + b + c sit where they were put. */
  lemma Pieces(a: string, b: string, c: string)
    ensures (a + b + c)[..|a|] == a
    ensures (a + b + c)[|a|..|a| + |b|] == b
    ensures (a + b + c)[|a| + |b|..] == c
  {
  }

  /** Where the search finds the tag of prefix + digits + "s" + suffix. */
  lemma TagAfterPrefix(prefix: string, ds: string, suffix: string)
    requires FindTag(prefix, 0) == None
    requires prefix == [] || !IsDigit(prefix[|prefix| - 1])
    requires |ds| > 0 && forall k :: 0 <= k < |ds| ==> IsDigit(ds[k])
    ensures FindTag(prefix + ds + "s" + suffix, 0) == Some(|prefix|)
  {
    var name := prefix + ds + "s" + suffix;
    var p, e := |prefix|, |prefix| + |ds|;
    Pieces(prefix, ds, "s" + suffix);
    assert prefix + ds + "s" + suffix == prefix + ds + ("s" + suffix);
    RunEndOfDigits(name, p, |ds|);
    NoTagInPrefix(prefix, name);
    LeftmostIsFound(name, 0, p);
  }

  /** The first line of prefix + digits + "s" + suffix holds the tag when
      the prefix holds no line break. */
  lemma FirstLineHoldsTag(prefix: string, ds: string, suffix: string)
    requires FirstLine(prefix) == prefix
    requires |ds| > 0 && forall k :: 0 <= k < |ds| ==> IsDigit(ds[k])
    ensures FindTag(FirstLine(prefix + ds + "s" + suffix), 0).Some?
  {
    var name := prefix + ds + "s" + suffix;
    var p, e := |prefix|, |prefix| + |ds|;
    forall k | 0 <= k < e + 1 ensures name[k] != '\n' {
      if k < p {
        assert name[k] == prefix[k];
      } else if k < e {
        assert name[k] == ds[k - p];
      }
    }
    FirstLineCovers(name, e + 1);
    var line := FirstLine(name);
    assert line[..e + 1] == name[..e + 1];
    RunEndOfDigits(line, p, |ds|);
    assert TagAt(line, p);
  }

  /** The tag written after the prefix carries the value of its digits. */
  lemma DigitsAfterPrefix(prefix: string, ds: string, suffix: string)
    requires |ds| > 0 && forall k :: 0 <= k < |ds| ==> IsDigit(ds[k])
    ensures TagValue(prefix + ds + "s" + suffix, |prefix|) == DecimalValue(ds)
  {
    var name := prefix + ds + "s" + suffix;
    var p, e := |prefix|, |prefix| + |ds|;
    Pieces(prefix, ds, "s" + suffix);
    assert name == prefix + ds + ("s" + suffix);
    RunEndOfDigits(name, p, |ds|);
    assert name[p..RunEnd(name, p)] == ds;
  }

  /** Writing an exposure of n seconds into a file name as "<n>s", after a
      part that holds no line break, no tag of its own and does not end in
      a digit, makes the parse read back n, whatever follows. */
  lemma ParsesWrittenExposure(prefix: string, n: nat, suffix: string, fallback: real)
    requires FirstLine(prefix) == prefix
    requires FindTag(prefix, 0) == None
    requires prefix == [] || !IsDigit(prefix[|prefix| - 1])
    ensures ExposureFromName(prefix + Decimal(n) + "s" + suffix, fallback) == n as real
  {
    var ds := Decimal(n);
    var name := prefix + ds + "s" + suffix;
    TagAfterPrefix(prefix, ds, suffix);
    FirstLineHoldsTag(prefix, ds, suffix);
    DigitsAfterPrefix(prefix, ds, suffix);
  }

  /** Example: "sample_30s.txt" has an exposure of 30 s. */
  lemma SampleNameExample()
    ensures ExposureFromName("sample_30s.txt", 0.0) == 30.0
  {
    assert "sample_" + "30" + "s" + ".txt" == "sample_30s.txt";
    assert Decimal(30) == "30";
    assert FindTag("sample_", 0) == None;
    ParsesWrittenExposure("sample_", 30, ".txt", 0.0);
  }

  /** In "run1_30s.txt" the digit 1 is not followed by an `s`, so it is not
      a tag; the exposure is 30 s. */
  lemma RunNameExample()
    ensures ExposureFromName("run1_30s.txt", 0.0) == 30.0
  {
    assert "run1_" + "30" + "s" + ".txt" == "run1_30s.txt";
    assert Decimal(30) == "30";
    assert FindTag("run1_", 0) == None;
    ParsesWrittenExposure("run1_", 30, ".txt", 0.0);
  }

  /** A name without a tag keeps the exposure passed in. */
  lemma UntaggedNameExample(fallback: real)
    ensures ExposureFromName("dark.txt", fallback) == fallback
  {
    assert FindTag("dark.txt", 0) == None;
  }
}
