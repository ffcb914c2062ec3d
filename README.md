# Spectrum preprocessing of `Experiment`, modelled in Dafny

This project models the preprocessing core of the `Experiment` class in
`schmuxi/spec_evaluation.py`. That core turns one measured spectrum (a table
of wavelength and intensity rows) into a plotted or saved one. It has these
stages:

- **Background subtraction** (`adjust_background`): subtract the session's
  background level from every intensity.
- **Cosmic-ray removal** (`cosmic_erase`): make a fixed number of passes.
  Each pass looks at the first maximum of the intensity column. If that
  maximum exceeds `factor` times the sample `distance` places to its right,
  it is replaced by the sum of its two neighbours `distance` places away.
- **Rescaling** (`adjust_scale`):
  - The x-rule converts wavelengths to energies, `1239.82 / x`, and sorts the
    rows by energy.
  - Then exactly one y-rule applies: normalise by the maximum, counts per
    second, or raw counts. Counts per second divide by an exposure read from
    a `<digits>s` tag in the file name, or by the session's exposure when the
    name has no tag.
  - The stage chooses the axis label and the value label. A caller-supplied
    label overrides the value label.
- **The chain** (`adjust_spectrum`): run the stages in that fixed order, each
  behind a per-call switch.

Around the chain sit three sets of small string rules:

- which files of a directory are spectra (the name does not contain "DC") and
  which are maps (the path contains "map");
- output names, built by dropping the last four characters and adding `.png`
  or `.csv`;
- the on/off switches of the configuration file, read as on when their upper
  case is "TRUE".

Modules:

- `Spectra`: rows, errors, `Result` and `Option`.
- `Config`: session parameters and switch parsing.
- `Background`.
- `Cosmics`:
  - the pass as written;
  - the corrected pass;
  - the array method `CosmicErase`, which overwrites the intensity column in
    place.
- `Lines`: how far a leading `.*` in a regular expression can scan.
- `Exposure`: the file-name tag.
- `Scale`.
- `Pipeline`.
- `FileNames`.

Numbers are exact reals. The source divides by zero in three places, and
pandas would produce infinities or NaNs there. The model reports each one as a
typed failure instead:

- a wavelength of 0 (`ZeroWavelength`);
- a maximum intensity of 0 when normalising (`ZeroMaximum`);
- an exposure of 0 when converting to a rate (`ZeroExposure`). The
  constructor's default exposure is 0, so with the default switches every
  file name whose first line has no `<digits>s` tag reaches this failure,
  for rows without a zero wavelength (`Pipeline.DefaultsFailOnUntaggedName`).

The model follows the code in these places, where a reader might expect
otherwise:

- Suppressing rescaling while energy conversion is on keeps x unchanged. The
  axis is still labelled "Energy [eV]", not "Wavelength [nm]".
- The exposure tag is looked for only in the first line of the name. This is
  how `re.match(".*[0-9]+s.*", …)` behaves, because `.` does not match a
  newline.
- The map filter sees the full path `source + "\\" + name`. A directory whose
  path holds "map" makes every file in it a map.
- The code does not check the bounds of the cosmic pass's two offsets. The
  model keeps that pass as written, and a corrected pass that skips such a
  cycle; the rest of the model uses the corrected one. See "## Findings".

## Model

| member | source | states |
|---|---|---|
| `Background.Subtract` | schmuxi/spec_evaluation.py:164-175 | every intensity becomes `y - background`; x values and the row count are unchanged |
| `Background.ZeroIsIdentity` | schmuxi/spec_evaluation.py:169 | a background of 0 (the constructor's default) leaves the table unchanged |
| `Background.Accumulates` | schmuxi/spec_evaluation.py:169 | subtracting `a` and then `b` is the same as subtracting `a + b` |
| `Background.Invertible` | schmuxi/spec_evaluation.py:169 | adding the level back restores the table, so no information is lost |
| `Config.DefaultSession` | schmuxi/spec_evaluation.py:64-71 | defaults: background 0, energy on, rate on, normalise off, exposure 0, 5 cycles, factor 10, distance 5 |
| `Config.TrueFlagSpellings` | schmuxi/spec_evaluation.py:89-91 | a switch is on exactly when it is the four letters t, r, u, e, each in either case |
| `Config.IsTrueFlag` | schmuxi/spec_evaluation.py:89-91 | a switch that is on has exactly four characters, and each of them upper-cases to the matching letter of "TRUE" |
| `Config.FlagExamples` | schmuxi/spec_evaluation.py:89-91 | "TRUE", "True", "true" and "tRuE" are on; "yes", "False", "" and "true " are off |
| `Config.FromConfig` | schmuxi/spec_evaluation.py:86-97 | each of the three switches read from the file is on exactly when its string passes the TRUE test; the numbers are taken unchanged |
| `Cosmics.ArgMax` | schmuxi/spec_evaluation.py:187 | `idxmax`: the result holds the maximum, and every earlier sample is strictly smaller |
| `Cosmics.FirstMaxUnique` | schmuxi/spec_evaluation.py:187 | the first maximum is unique, so every pass looks at a well-defined sample |
| `Cosmics.PassAsWrittenEffect` | schmuxi/spec_evaluation.py:187-191 | as written, one pass fails exactly on an empty column or when `i + distance` is past the end; it overwrites only the first maximum `i`, with `y[i-d] + y[i+d]` (the left index read modulo the length), and does so if and only if `y[i] > factor * y[i+d]` |
| `Cosmics.PassAsWritten` | schmuxi/spec_evaluation.py:187-191 | one pass exactly as the code runs it; a successful pass keeps the sample count |
| `Cosmics.EraseAsWritten` | schmuxi/spec_evaluation.py:186-192 | the loop as written: a successful run keeps the sample count |
| `Cosmics.AsWrittenAgreesAwayFromEdges` | schmuxi/spec_evaluation.py:186-192 | when every cycle's maximum has both offsets inside the column, the loop as written succeeds and equals the corrected passes |
| `Cosmics.AbortIsFinal` | schmuxi/spec_evaluation.py:186-192 | as written, once a cycle raises, the run's result is that error whatever the number of cycles after it |
| `Cosmics.FailureIsFirstFailingPass` | schmuxi/spec_evaluation.py:186-192 | as written, a failed run has a k such that the first k cycles succeed and pass k + 1 raises exactly the error the run reports |
| `Cosmics.RightEdgeAbortsRun` | schmuxi/spec_evaluation.py:186-192 | as written, the right-edge error of the first cycle aborts a run of five cycles |
| `Cosmics.Pass` | schmuxi/spec_evaluation.py:187-191 | the corrected pass keeps the sample count (its effect is `Cosmics.PassEffect`) |
| `Cosmics.Erased` | schmuxi/spec_evaluation.py:186-192 | `cycles` corrected passes keep the sample count; a count of 0 or less changes nothing, like `range` |
| `Cosmics.PassEffect` | schmuxi/spec_evaluation.py:186-191 | the corrected pass changes only the first maximum `i`; it sets `y[i] := y[i-d] + y[i+d]` (a sum, not an average) if and only if both offsets are inside the column and `y[i] > factor * y[i+d]`; otherwise nothing changes |
| `Cosmics.AgreesAwayFromEdges` | schmuxi/spec_evaluation.py:187-191 | when both offsets of the maximum are inside the column, the corrected pass is exactly the source's pass |
| `Cosmics.LeftEdgeWrapsAround` | schmuxi/spec_evaluation.py:190 | as written, a spike near the left end is replaced using a sample near the right end; the corrected pass leaves it alone |
| `Cosmics.RightEdgeRaises` | schmuxi/spec_evaluation.py:187 | as written, a maximum near the right end raises an index error; the corrected pass leaves it alone |
| `Cosmics.ErasedStep` | schmuxi/spec_evaluation.py:186 | one more cycle is one more pass |
| `Cosmics.ErasedSplits` | schmuxi/spec_evaluation.py:186 | `a + b` cycles are `a` cycles followed by `b` more |
| `Cosmics.StableOnceUnchanged` | schmuxi/spec_evaluation.py:186-191 | a column that one pass leaves unchanged stays unchanged under any number of cycles |
| `Cosmics.ExtraCyclesChangeNothing` | schmuxi/spec_evaluation.py:186-191 | once a pass finds no spike, extra cycles are idempotent |
| `Cosmics.NoSpikeAnywhereIsStable` | schmuxi/spec_evaluation.py:187 | when no sample beats `factor` times its right offset, every cycle count leaves the column unchanged |
| `Cosmics.SingleSpikeExample` | schmuxi/spec_evaluation.py:186-191 | with distance 2 and factor 5, `500` among 10s becomes `10 + 10 = 20` |
| `Cosmics.IndexOfMax` | schmuxi/spec_evaluation.py:187 | a scan over the array returns the first index of the maximum |
| `Cosmics.ErasePass` | schmuxi/spec_evaluation.py:187-191 | one in-place cycle on the intensity array leaves it equal to the corrected pass of its old contents |
| `Cosmics.CosmicErase` | schmuxi/spec_evaluation.py:178-192 | the loop over `cycles` leaves the array equal to `cycles` corrected passes of its old contents (none when `cycles <= 0`, like `range`) |
| `Exposure.RunEnd` | schmuxi/spec_evaluation.py:221 | the digit run starting at `p` ends at the first non-digit |
| `Exposure.FindTag` | schmuxi/spec_evaluation.py:221 | `re.search("[0-9]+s")`: the result is a position where digits are followed by `s`, and no earlier position has one; no result means no position at all |
| `Lines.FirstLine` | schmuxi/spec_evaluation.py:220 | the part of a name that `.*` can scan (here and in the map filter at line 159): a prefix of the name with no line break, ending at the first one |
| `Exposure.ExposureFromName` | schmuxi/spec_evaluation.py:219-224 | with no tag in the first line, the exposure passed in is kept; with one, the result is the number carried by the leftmost tag of the name |
| `Exposure.FirstLineTagIsLeftmost` | schmuxi/spec_evaluation.py:220-221 | a tag in the first line is also the leftmost tag of the whole name, with the same digits |
| `Exposure.ParsesWrittenExposure` | schmuxi/spec_evaluation.py:220-221 | write `n` as "<n>s" after a part with no tag, no line break and no trailing digit; whatever follows, the parse reads `n` back |
| `Exposure.SampleNameExample` | schmuxi/spec_evaluation.py:220-221 | "sample_30s.txt" has an exposure of 30 |
| `Exposure.RunNameExample` | schmuxi/spec_evaluation.py:220-221 | "run1_30s.txt" has an exposure of 30: the 1 is not followed by `s` |
| `Exposure.UntaggedNameExample` | schmuxi/spec_evaluation.py:219-224 | "dark.txt" keeps the exposure passed in |
| `FileNames.ContainsMeansOccurs` | schmuxi/spec_evaluation.py:146 | the substring test holds exactly when the pattern is a slice of the name |
| `FileNames.Filter` | schmuxi/spec_evaluation.py:146 | a list comprehension with a condition keeps only accepted entries and never more than it was given |
| `FileNames.FilterCount` | schmuxi/spec_evaluation.py:146 | an entry is kept exactly when it is listed and accepted, and as many times as it is listed |
| `FileNames.FilterConcat` | schmuxi/spec_evaluation.py:159 | filtering two listings gives the filtered first listing followed by the filtered second |
| `FileNames.SpectraNames` | schmuxi/spec_evaluation.py:146 | no more names than listed, and none of them contains "DC" |
| `FileNames.SpectraNamesExactly` | schmuxi/spec_evaluation.py:146 | a name is a spectrum exactly when it is listed and does not contain "DC", as often as it is listed |
| `FileNames.MapPaths` | schmuxi/spec_evaluation.py:158-159 | no more paths than listed files, and each holds "map" before its first line break |
| `FileNames.MapPathsExactly` | schmuxi/spec_evaluation.py:158-159 | a path is a map exactly when it is `source\name` for a listed file and holds "map" before its first line break |
| `FileNames.MapDirectoryKeepsAll` | schmuxi/spec_evaluation.py:158-159 | in a directory whose path holds "map", every file is a map |
| `FileNames.Stem` | schmuxi/spec_evaluation.py:341 | `spec[:-4]`: the name without its last four characters, or empty when the name is shorter |
| `FileNames.PngName` | schmuxi/spec_evaluation.py:341 | the image name is the stem followed by ".png" |
| `FileNames.CsvName` | schmuxi/spec_evaluation.py:350 | the table name is the stem followed by ".csv" |
| `FileNames.ExtensionReplaced` | schmuxi/spec_evaluation.py:341-350 | a name with a four-character extension keeps its stem; the two outputs differ only in extension |
| `FileNames.ShortNameExamples` | schmuxi/spec_evaluation.py:362-366 | the summary plot "Summary" is saved as "Sum.png"; "a.b" gives ".png" |
| `FileNames.SpectraExample` | schmuxi/spec_evaluation.py:146 | the dark-current file "DC_30s.txt" is dropped from a listing |
| `Pipeline.DefaultToggles` | schmuxi/spec_evaluation.py:234-241 | by default, background and cosmics are on and nothing is overridden |
| `Pipeline.EraseCosmics` | schmuxi/spec_evaluation.py:250-254 | the cosmic stage keeps the x column and replaces the intensities by the session's passes over them |
| `Pipeline.Prepared` | schmuxi/spec_evaluation.py:245-254 | the row count and x column are kept; the intensities are `y - background` when that switch is on, and then, when the cosmic switch is on, the session's `cycles` corrected passes with its distance and factor over those |
| `Pipeline.AdjustSpectrum` | schmuxi/spec_evaluation.py:234-264 | the result is the rescaling stage applied to the prepared rows with the session's switches and exposure and the caller's overrides; on success the row count is kept, the axis label follows the energy switch, and the value label is the override or the label of the chosen rule |
| `Pipeline.RateChainRows` | schmuxi/spec_evaluation.py:234-264 | under the rate rule on the wavelength axis, the whole chain succeeds when the exposure is not 0, and every row keeps its x while its prepared intensity is divided by the exposure from the name (or the session's) |
| `Pipeline.ZeroBackgroundIsSkippable` | schmuxi/spec_evaluation.py:246-247 | with a background of 0, the background switch makes no difference |
| `Pipeline.NoCyclesIsSkippable` | schmuxi/spec_evaluation.py:250-254 | with no cycles to run, the cosmic switch makes no difference |
| `Pipeline.StageOrderMatters` | schmuxi/spec_evaluation.py:245-254 | the fixed order matters: with background first, the spike becomes 10; with cosmics first, it becomes 15 |
| `Pipeline.DefaultsFailOnUntaggedName` | schmuxi/spec_evaluation.py:219-224 | with the constructor's defaults, every name whose first line has no tag fails with `ZeroExposure`, for rows without a zero wavelength |
| `Scale.ToEnergy` | schmuxi/spec_evaluation.py:208 | `1239.82 / x` times `x` is `1239.82` |
| `Scale.EnergyIsInvolution` | schmuxi/spec_evaluation.py:208 | converting twice gives back the wavelength |
| `Scale.EnergyReversesOrder` | schmuxi/spec_evaluation.py:208-209 | a longer positive wavelength has a smaller energy |
| `Scale.ConvertXs` | schmuxi/spec_evaluation.py:208 | every x is converted, and every row keeps its place and its intensity |
| `Scale.SortedIsOrdered` | schmuxi/spec_evaluation.py:209 | in the sorted table, every x is at most that of every later row |
| `Scale.SortByX` | schmuxi/spec_evaluation.py:209 | `sort_values`: the result is ascending in x and a permutation of the rows |
| `Scale.ConvertKeepsPermutation` | schmuxi/spec_evaluation.py:208-209 | converting two permutations of the same rows gives permutations of each other |
| `Scale.ToEnergyScale` | schmuxi/spec_evaluation.py:208-209 | the energy table is sorted, has no zero x, and is a permutation of the converted rows |
| `Scale.EnergyScaleRoundTrip` | schmuxi/spec_evaluation.py:208-209 | converting and sorting twice gives back exactly the original rows, sorted |
| `Scale.ThreeWavelengthsExample` | schmuxi/spec_evaluation.py:208-209 | 400, 500 and 620 nm become 1239.82/620, 1239.82/500 and 1239.82/400, in that order, each with its intensity |
| `Scale.SortsDescendingThree` | schmuxi/spec_evaluation.py:209 | three rows with descending x are sorted into reverse order |
| `Scale.RescaleX` | schmuxi/spec_evaluation.py:205-214 | with conversion on and not suppressed, the rows are converted, sorted and permuted, and the stage fails exactly on a zero wavelength; otherwise the rows are unchanged |
| `Scale.ChooseYRule` | schmuxi/spec_evaluation.py:216-226 | normalise iff normalize is set; rate iff not normalize and rate is on, a name is given and the exposure is not overridden; raw counts otherwise |
| `Scale.AxisLabel` | schmuxi/spec_evaluation.py:205-214 | the axis reads "Energy [eV]" exactly when energy conversion is on, and "Wavelength [nm]" exactly when it is off |
| `Scale.ValueLabel` | schmuxi/spec_evaluation.py:216-226 | each rule has its own label: "Intensity [norm.]" exactly for normalising, "Counts p.s." exactly for the rate, "Intensity [abs. counts]" exactly for raw counts |
| `Scale.DivideYs` | schmuxi/spec_evaluation.py:218-224 | every row keeps its place and x, and its intensity is divided by the divisor |
| `Scale.MaxY` | schmuxi/spec_evaluation.py:218 | `max()`: at least every intensity, and equal to one of them |
| `Scale.RescaleY` | schmuxi/spec_evaluation.py:216-226 | normalising divides by the maximum and fails iff that maximum is 0 (an empty table stays empty); the rate divides by the exposure and fails iff it is 0; raw counts are unchanged; x values are always unchanged |
| `Scale.NormalizedPeakIsOne` | schmuxi/spec_evaluation.py:218 | after normalising by a positive maximum, no intensity exceeds 1 and the peak is 1 |
| `Scale.AdjustScale` | schmuxi/spec_evaluation.py:195-231 | the rows are the x stage's rows put through the chosen y-rule, dividing by the exposure from the name's tag under the rate rule; it fails exactly when one of the two stages fails (a zero wavelength when converting, a zero exposure under the rate rule, a zero maximum when normalising); the raw rule never fails otherwise; on success the rows are sorted by energy when converting and keep their x otherwise, the row count is kept, the axis label follows the energy switch (even when rescaling is suppressed), and the value label is the override if one is given, else the rule's label |
| `Scale.RateDividesByNamedExposure` | schmuxi/spec_evaluation.py:219-224 | under the rate rule on the wavelength axis, every row keeps its place and x, and its intensity is divided by the exposure the name carries (or the one passed in) |
| `Scale.NormalizedDividesByPeak` | schmuxi/spec_evaluation.py:216-218 | normalising on the wavelength axis divides every intensity by the largest one, keeping each row's place and x |
| `Scale.EnergyRateRows` | schmuxi/spec_evaluation.py:205-224 | under the rate rule on the energy axis, the rows come out ascending in energy, and each is an input row with its x converted and its intensity divided by the exposure |
| `Scale.RateWithoutExposureFails` | schmuxi/spec_evaluation.py:219-224 | under the rate rule, with no exposure in the name and none passed in, the stage fails with `ZeroExposure` |
| `Scale.SampleRateExample` | schmuxi/spec_evaluation.py:219-224 | "sample_30s.txt" under the rate rule divides every intensity by 30 and is labelled "Counts p.s." |

## Left out

- Reading files, the configuration and directories is left out. This covers
  `load_file`, `load_config`, `auto_config`, `glob`, `chdir` and the writing
  in `plot_to_png` and `save_as_csv`. The model's inputs are the rows, the
  listing of names and the session parameters.
- The plotting methods are left out: `plot_spectrum`, `plot_line`,
  `plot_in_one`, `plot_at_once` and `plot_all_spectra`. So are
  `prepare_spectrum` (a file read followed by `adjust_spectrum`),
  `change_working_dir` and `pretreatment`. `pretreatment` calls
  `replace_garbage`, which is not part of this model; `find_parameters` is not
  part of this model either. The `print` calls are left out too.
- The fallback in `adjust_background` is left out. When the first
  subtraction raises, it subtracts from column 0. So is a background given
  as a curve: the background is a single real number.
- Floating-point rounding is not modelled: arithmetic is on exact reals.
  Infinities and NaNs from a division by zero are replaced by the typed
  failures listed above.
- Pandas' `idxmax` returns an index label, which `iat` then uses as a
  position. The model uses positions. They agree on the default integer
  index that `read_csv` with `header=None` produces.
- `Scale.SortByX`: `sort_values` uses an unstable sort. The contract states
  only what any such sort guarantees: ascending x and a permutation of the
  rows. The order of rows with equal x is not stated.
- `Scale.AdjustScale`: the `exposure=None` default of `adjust_scale` is not
  modelled; the exposure is always a number. Under the rate rule, a name
  without a tag and no exposure would divide by `None` and raise a
  `TypeError`. `adjust_spectrum` always passes the session's exposure, so the
  chain never reaches this case.
- `Scale.EnergyRateRows`: it says that each output row comes from an input
  row, not that every input row appears exactly once. The permutation is
  stated one stage at a time, by `Scale.RescaleX` and `Scale.RescaleY`, in
  the contract of `Scale.AdjustScale`.
- `Config.TrueFlagSpellings`: `str.upper` is modelled for ASCII letters
  only. Non-ASCII case mappings are not modelled. A switch that YAML has
  already read as a boolean is also not modelled; in the source it has no
  `upper` and raises.
- `Config.FromConfig`: the cosmic distance is a natural number. A negative
  distance from the configuration file is not modelled.
- `Exposure.ExposureFromName`: the tag's digits are read as an exact
  natural number. The rounding of very long digit strings by `float()` is not
  modelled.

## Findings

| source | as written | input that shows it | evidently intended | confidence | as-written member | corrected member |
|---|---|---|---|---|---|---|
| schmuxi/spec_evaluation.py:187-191 | the offsets `i - distance` and `i + distance` of the maximum are not range-checked: past the right end `iat` raises and aborts the run; before the left end a negative position silently reads from the end of the column (`Cosmics.RightEdgeRaises`, `Cosmics.LeftEdgeWrapsAround`) | `[1, 1, 1, 100, 1]` with distance 2 raises; `[100, 1, 1, 40, 1]` with distance 2 and factor 5 turns 100 into 41 using the sample at index 3 | a pass never reads outside the column; the corrected pass skips a cycle whose offsets leave it | not executed | `Cosmics.PassAsWritten` | `Cosmics.Pass` |
