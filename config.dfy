/** The session parameters of an `Experiment` that the preprocessing chain
    reads: given to the constructor directly, or read from the configuration
    file, whose on/off switches are strings counted as on exactly when their
    upper-case form is "TRUE". */
module Config {

  /** The parameters the preprocessing chain reads; fixed for a session. */
  datatype Session = Session(
    background: real,
    convertToEnergy: bool,
    convertToRate: bool,
    normalize: bool,
    exposure: real,
    cosmicCycles: int,
    cosmicFactor: real,
    cosmicDistance: nat)

  /** The constructor's keyword defaults, which stay in force when it is
      called with `auto_config=False`. */
  function DefaultSession(): (s: Session)
    ensures s.background == 0.0 && s.exposure == 0.0
    ensures s.convertToEnergy && s.convertToRate && !s.normalize
    ensures s.cosmicCycles == 5 && s.cosmicFactor == 10.0 && s.cosmicDistance == 5
  {
    Session(0.0, true, true, false, 0.0, 5, 10.0, 5)
  }

  /** `str.upper` on one character, for the ASCII letters. */
  function Upper(c: char): (u: char)
    ensures 'a' <= c <= 'z' ==> u as int == c as int - 32
    ensures !('a' <= c <= 'z') ==> u == c
  {
    if 'a' <= c <= 'z' then (c as int - 32) as char else c
  }

  function UpperString(s: string): (u: string)
    ensures |u| == |s|
    ensures forall k :: 0 <= k < |s| ==> u[k] == Upper(s[k])
  {
    seq(|s|, k requires 0 <= k < |s| => Upper(s[k]))
  }

  /** A switch of the configuration file is on when it reads "TRUE" in
      upper case; everything else is off. */
  function IsTrueFlag(value: string): (on: bool)
    ensures on ==> |value| == 4
    ensures on ==> forall k :: 0 <= k < 4 ==> Upper(value[k]) == "TRUE"[k]
  {
    UpperString(value) == "TRUE"
  }

  /** Each of the four letters of "true" may be written in either case, and
      nothing else is on. */
  lemma TrueFlagSpellings(value: string)
    ensures IsTrueFlag(value) <==>
      && |value| == 4
      && value[0] in {'t', 'T'} && value[1] in {'r', 'R'}
      && value[2] in {'u', 'U'} && value[3] in {'e', 'E'}
  {
    var u := UpperString(value);
    if |value| == 4 {
      assert u == [Upper(value[0]), Upper(value[1]), Upper(value[2]), Upper(value[3])];
    }
  }

  lemma FlagExamples()
    ensures IsTrueFlag("TRUE") && IsTrueFlag("True") && IsTrueFlag("true") && IsTrueFlag("tRuE")
    ensures !IsTrueFlag("yes") && !IsTrueFlag("False") && !IsTrueFlag("") && !IsTrueFlag("true ")
  {
    TrueFlagSpellings("TRUE");
    TrueFlagSpellings("True");
    TrueFlagSpellings("true");
    TrueFlagSpellings("tRuE");
    TrueFlagSpellings("yes");
    TrueFlagSpellings("False");
    TrueFlagSpellings("");
    TrueFlagSpellings("true ");
  }

  /** The session read from a configuration file: the three switches are
      parsed with `IsTrueFlag`, the numbers are taken as they are. */
  function FromConfig(
    background: real, convertToEnergy: string, convertToRate: string,
    normalize: string, exposure: real,
    cycles: int, factor: real, distance: nat): (s: Session)
    ensures s.convertToEnergy <==> IsTrueFlag(convertToEnergy)
    ensures s.convertToRate <==> IsTrueFlag(convertToRate)
    ensures s.normalize <==> IsTrueFlag(normalize)
    ensures s.background == background && s.exposure == exposure
    ensures s.cosmicCycles == cycles && s.cosmicFactor == factor && s.cosmicDistance == distance
  {
    Session(background, IsTrueFlag(convertToEnergy), IsTrueFlag(convertToRate),
            IsTrueFlag(normalize), exposure, cycles, factor, distance)
  }
}
