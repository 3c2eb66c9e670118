# YREC25 custom grid install: a Dafny model

This project models the core of `yrec25_custom_install_lm.py`. That module
ingests a YREC25 stellar-evolution grid for an isochrone/EEP toolkit. The
model covers three parts:

- **Primary-EEP detectors** (`eep.dfy`, module `EepDetectors`). `my_PreMS`,
  `my_ZAMS`, `my_TAMS`, `my_RGBTip` and `my_ZAHB` each find one landmark row
  of a track, starting at row `i0`. They return the sentinel `-1` when the
  landmark does not occur.
- **The metric function** `my_HRD` (`metric.dfy`, module `HrdMetric`). It
  gives the cumulative path length along a track in the scaled
  (log Teff, log L) plane. It is an imperative method that fills an array in
  a loop, proved equal to a recursive specification.
- **Grid ingestion** (`filename.dfy`, module `FilenameParser`, and
  `grid.dfy`, module `GridAssembly`):
  - `parse_filename` decodes (mass, [Fe/H], alpha) from a file name such as
    `m0500abcfehp050.track`;
  - `from_yrec` tags row `s` of a track with the composite key
    (initial_mass, initial_met, s);
  - `all_from_yrec` keeps the directory entries whose name contains
    `.track`, loads each in listing order, concatenates the frames and sorts
    them by key.

`tracks.dfy` (module `Tracks`) holds the shared data model. A `Row` holds the
ten physical columns the parameter mapping names. A `Track` is a sequence of
rows whose labels equal their positions. `MetricScales` holds `teff_scale`
and `lum_scale`, which default to 5 and 1.

The model keeps three behaviours of the code exactly as written:

- **A name without `feh` is not rejected.** `find` returns -1, so the sign
  is read at position 2 and [Fe/H] from positions 3-5
  (`FilenameParser.MissingTokenFallback`).
- **One bad file name aborts the whole grid.** There is no per-file
  isolation (`GridAssembly.AssembleOutcome`).
- **Duplicate keys are neither rejected nor overwritten.** Two files with
  the same (mass, [Fe/H]) both keep all their rows. `sort_index` is stable,
  so rows with equal keys stay in concatenation order, which is listing
  order (`GridAssembly.SortIndexStable`, `GridAssembly.AssembleStable`).
  With such duplicates the grid therefore depends on the order `os.listdir`
  returns. Independence of that order is proved only when the tracks are
  distinct (`GridAssembly.ListingOrderIndependent`).

## Model

| member | source | states |
|---|---|---|
| EepDetectors.PreMS | yrec25_custom_install_lm.py:32-36 | always row 0, whatever the track and the start row |
| EepDetectors.FirstWhere | yrec25_custom_install_lm.py:45-48 | mask, `any()`, `idxmax()`: -1 exactly when no row from i on satisfies the mask; otherwise the first such row |
| EepDetectors.ArgMaxFrom | yrec25_custom_install_lm.py:79 | `idxmax` of a column from row i on: a row holding the maximum, and the first such row |
| EepDetectors.ZAMS | yrec25_custom_install_lm.py:38-48 | -1 iff X_cen never drops 0.001 below its value at i0; otherwise the first row where it does, which lies strictly after i0 |
| EepDetectors.TAMS | yrec25_custom_install_lm.py:51-61 | -1 iff X_cen never reaches Xmin from i0 on; otherwise the first row with X_cen <= Xmin |
| EepDetectors.RGBTip | yrec25_custom_install_lm.py:64-79 | the first row from i0 on with the largest log L |
| EepDetectors.ZAHB | yrec25_custom_install_lm.py:82-100 | -1 iff no row from i0 on has L3a > 0.001 and 0.5 < Y_cen < 1 - Z_cen(i0) - 0.04; otherwise the first such row |
| EepDetectors.RGBTipReadsOnlyLuminosity | yrec25_custom_install_lm.py:70-79 | mass and Y_cen are read but unused: two tracks with the same log L from i0 on get the same RGB tip |
| EepDetectors.PrimaryEepsOrdered | yrec25_custom_install_lm.py:32-100 | when each detector starts at the previous landmark and all are found, PreMS < ZAMS <= TAMS <= RGB tip <= ZAHB < track length |
| EepDetectors.ZamsOfStepTrack | yrec25_custom_install_lm.py:38-48 | a track whose X_cen steps from 0.70 to 0.65 at row 10 has its ZAMS at row 10 |
| EepDetectors.TamsNotReachedOnStepTrack | yrec25_custom_install_lm.py:51-61 | with the default Xmin = 1e-4, a track whose X_cen stays at 0.65 or above has no TAMS (-1) |
| EepDetectors.TamsOfDecreasingTrack | yrec25_custom_install_lm.py:51-61 | on a track with non-increasing X_cen, the TAMS is the row where X_cen first reaches Xmin |
| EepDetectors.ZahbNotFoundWithoutHelium | yrec25_custom_install_lm.py:96-99 | with Y_cen <= 0.5 throughout, the ZAHB is not found (-1) |
| HrdMetric.SquaredStep | yrec25_custom_install_lm.py:121-122 | the squared scaled step between consecutive rows is non-negative |
| HrdMetric.DefaultScalesStep | yrec25_custom_install_lm.py:121-122 | with the default scales teff_scale = 5 and lum_scale = 1 (lines 21-22), a change in log Teff weighs 25 times the same change in log L in the squared step |
| HrdMetric.PathLengthMonotone | yrec25_custom_install_lm.py:120-123 | the cumulative distance never decreases along the track |
| HrdMetric.HrdDistanceMonotone | yrec25_custom_install_lm.py:118-125 | the metric has one entry per row, starts at 0 and is non-decreasing |
| HrdMetric.HrdDistanceOfPrefix | yrec25_custom_install_lm.py:118-125 | the metric of a prefix of a track is the prefix of its metric |
| HrdMetric.HRD | yrec25_custom_install_lm.py:103-125 | the array built by the loop is the cumulative path length: fresh, one entry per row, 0 first, non-decreasing |
| FilenameParser.FindFrom | yrec25_custom_install_lm.py:144 | `str.find`: -1 iff the pattern does not occur; otherwise its first occurrence |
| FilenameParser.DigitsValue | yrec25_custom_install_lm.py:140 | a w-digit field reads as a value below 10^w |
| FilenameParser.RemoveAllShape | yrec25_custom_install_lm.py:135 | `replace('.track', '')` never lengthens the name, and leaves a name in which `.track` does not occur unchanged |
| FilenameParser.RemoveSuffix | yrec25_custom_install_lm.py:135 | a name with no other '.' loses exactly its trailing `.track` |
| FilenameParser.SliceContents | yrec25_custom_install_lm.py:139 | Python slicing `[lo:hi]`, as used for both fields (lines 139 and 146): within range it is the subsequence; otherwise it is cut at the end of the string, and it is empty when lo >= hi or lo >= the length |
| FilenameParser.MetIndexFirstToken | yrec25_custom_install_lm.py:144 | `find('feh') + 3` is 2 exactly when `feh` does not occur; otherwise it is the position just after the first `feh` |
| FilenameParser.ParseFilename | yrec25_custom_install_lm.py:134-152 | succeeds iff the stem has at least 2 characters, the sign position lies inside it, and at least one character follows the sign; the error is an empty mass field iff the stem has at most 1 character, the sign past the end iff the sign position is at or beyond the end, and an empty [Fe/H] field iff the sign is the last character; alpha is always 0 |
| FilenameParser.ParsedKeyRange | yrec25_custom_install_lm.py:139-147 | a decoded mass lies in [0, 9.999] and a decoded [Fe/H] in [-9.99, 9.99] |
| FilenameParser.DigitsRoundTrip | yrec25_custom_install_lm.py:139-140 | reading back a zero-padded decimal field gives the number written |
| FilenameParser.ParseTrackFileName | yrec25_custom_install_lm.py:134-152 | round trip: for a separator with no '.' and no `feh` of its own, the name of (mass/1000, ±[Fe/H]/100) decodes to exactly that key with alpha 0 |
| FilenameParser.ParseSolarExample | yrec25_custom_install_lm.py:134-152 | `m0500abcfehp050.track` decodes to (0.5, +0.5, 0) |
| FilenameParser.ParseMetalPoorExample | yrec25_custom_install_lm.py:134-152 | `m1200xxfehm030.track` decodes to (1.2, -0.3, 0) |
| FilenameParser.SignWithoutDigits | yrec25_custom_install_lm.py:146-147 | a name whose stem ends with its sign character fails on the empty [Fe/H] field |
| FilenameParser.EmptyMetFieldExample | yrec25_custom_install_lm.py:134-152 | `m0500fehp.track` fails on the empty [Fe/H] field |
| FilenameParser.MissingTokenFallback | yrec25_custom_install_lm.py:144-147 | a name without `feh` still decodes, with [Fe/H] read from positions 3-5 of the stem |
| GridAssembly.TagRowsKeys | yrec25_custom_install_lm.py:165-172 | tagging keeps every row in order and gives the track exactly the keys (mass, met, 0..N-1), strictly increasing |
| GridAssembly.FromYrecTagsRows | yrec25_custom_install_lm.py:155-174 | `from_yrec` succeeds iff the name decodes; then it keeps the rows and keys them with the decoded mass and [Fe/H] |
| GridAssembly.KeyLeTotalOrder | yrec25_custom_install_lm.py:191 | the order of the (initial_mass, initial_met, step) index is lexicographic: reflexive, total, antisymmetric and transitive |
| GridAssembly.SortIndex | yrec25_custom_install_lm.py:191 | `sort_index`: a permutation of the rows in ascending key order with the same keys, strictly ascending when keys are distinct |
| GridAssembly.SortIndexStable | yrec25_custom_install_lm.py:191 | `sort_index` is stable: for every key, the rows with that key keep their relative order |
| GridAssembly.SortedUnique | yrec25_custom_install_lm.py:191 | a strictly sorted sequence is the only sorted arrangement of its rows |
| GridAssembly.TrackFiles | yrec25_custom_install_lm.py:179 | the file list holds only listing entries whose name contains `.track` |
| GridAssembly.TrackFilesAppend | yrec25_custom_install_lm.py:179 | the comprehension keeps listing order: filtering a concatenated listing gives the concatenation of the filtered parts |
| GridAssembly.TrackFilesOne | yrec25_custom_install_lm.py:179 | a single entry is kept exactly when its name contains `.track` |
| GridAssembly.TrackFilesCount | yrec25_custom_install_lm.py:179 | the filter keeps every copy of a `.track` entry and nothing else |
| GridAssembly.LoadAllSucceeds | yrec25_custom_install_lm.py:187-189 | the loading loop succeeds iff every name decodes, and then yields one tagged frame per file, in order |
| GridAssembly.LoadAllStopsAtFailure | yrec25_custom_install_lm.py:187-189 | once a file fails, later files do not change the outcome |
| GridAssembly.LoadAllFirstFailure | yrec25_custom_install_lm.py:187-189 | a failed load reports the error of the first name that does not decode |
| GridAssembly.AllFromYrec | yrec25_custom_install_lm.py:177-195 | the loop's result is the specification `Assemble` of the filtered listing, and it is sorted |
| GridAssembly.AssembleOutcome | yrec25_custom_install_lm.py:177-191 | success iff there is a track file and every name decodes; no track file gives the empty-concat error; otherwise the first bad name's error |
| GridAssembly.ConcatLength | yrec25_custom_install_lm.py:191 | concatenation keeps every row |
| GridAssembly.ConcatKeys | yrec25_custom_install_lm.py:165-191 | the concatenated keys are exactly (mass, [Fe/H], s) for each track and each s below its length |
| GridAssembly.ConcatDistinct | yrec25_custom_install_lm.py:165-191 | tracks with distinct (mass, [Fe/H]) give rows with distinct keys |
| GridAssembly.AssembleSortedPermutation | yrec25_custom_install_lm.py:187-191 | the grid is sorted, is a permutation of the concatenated tagged rows, has the total row count, and has exactly the keys of the tracks |
| GridAssembly.AssembleStable | yrec25_custom_install_lm.py:187-191 | rows of the grid that share a key are in concatenation order, that is, in file order |
| GridAssembly.ConcatPermutation | yrec25_custom_install_lm.py:187-191 | reordering the tracks only reorders the concatenated rows |
| GridAssembly.DecodePermutation | yrec25_custom_install_lm.py:187-189 | reordering the files reorders their decoded tracks, and all names still decode |
| GridAssembly.TrackFilesPermutation | yrec25_custom_install_lm.py:179 | a reordered listing yields a reordering of the same track files |
| GridAssembly.AssembleOutcomeOrderIndependent | yrec25_custom_install_lm.py:177-191 | whether assembly succeeds does not depend on file order |
| GridAssembly.AssembleOrderIndependent | yrec25_custom_install_lm.py:177-191 | with distinct (mass, [Fe/H]) per file, any order of the files gives the same grid |
| GridAssembly.ListingOrderIndependent | yrec25_custom_install_lm.py:177-195 | `os.listdir` order never changes success, and with distinct tracks it never changes the grid |

## Left out

- File and directory I/O: `read_columns`, `pd.read_csv`, `os.listdir` and
  `os.path`. A track file is given as its name and its already-read rows,
  and a listing as a sequence of such files.
- The positional assignment of column labels (`df.columns = columns`). A
  `Row` is the ten named columns; the row payload of the grid is a type
  parameter. When a file's column count differs from the number of labels,
  that assignment raises (line 163) and `all_from_yrec` aborts. This error
  is not modelled, because rows are given already read and labelled.
- `install`, and its pickling and hand-off to the external EEP and
  interpolation code. How the external code chains the detectors is not part
  of this model; `EepDetectors.PrimaryEepsOrdered` states the chain on
  hypothesis.
- The `eep_params` dictionary as a dictionary. Its column aliases are the
  fields of `Row`, its scales are `Tracks.DefaultScales`, and its
  `intervals` are only consumed by the external code.
- Floating point. All quantities are mathematical reals. `np.sqrt` is a
  parameter `root` that is only assumed non-negative on non-negative
  arguments. NaN handling by `any`/`idxmax` is not modelled.
- `tqdm` progress display: it changes no data.
- `pandas` label-based `.loc[i0:]`. The model takes a track's labels to be
  its positions. In the assembled grid a row's label is the tuple
  (initial_mass, initial_met, step) set by `from_yrec` (lines 170-172); the
  labels equal positions only in one track's slice of the grid indexed by
  `step` alone, which is how the detectors receive a track.
- EepDetectors.ZAMS: requires i0 < track length. The source raises on an
  empty slice (`iloc[0]`), and that exception is not modelled.
- EepDetectors.RGBTip: requires i0 < track length. `idxmax` of an empty
  series raises, and that exception is not modelled.
- EepDetectors.ZAHB: requires i0 < track length. The source raises on
  `Zc_tr.iloc[0]` of an empty slice, and that exception is not modelled.
- FilenameParser.ParseFilename: requires that the fields `float()` reads be
  ASCII decimal digits. A field holding any other character makes `float()`
  raise `ValueError` (lines 140 and 147), and that aborts `all_from_yrec`.
  The model does not report this error. It excludes such names instead:
  `DigitFields` for one name, `GridAssembly.DecimalNames` for a listing.
  Other `float()` syntax (sign, point, exponent, whitespace, `inf`/`nan`)
  is not modelled either. The empty field is modelled, as an error.
