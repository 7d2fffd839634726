# ross_sea: histogram matching of Ross Sea satellite images, in Dafny

ross_sea compares sea-ice images of the Ross Sea taken by two instruments,
VIIRS ("VIR" files) and MODIS ("MOD" files). This project models the core
of that comparison and proves properties of the model:

- histogram matching (`hist_match`): each distinct source value is sent to
  the template value at the same empirical quantile;
- the empirical CDF (`ecdf`);
- the day-image reduction (`day_image`): the files of one day are folded
  into one image by histogram matching;
- the pairing loop of `unified_day_image`: the i-th VIIRS file is matched
  onto the i-th MODIS file when their dates are close;
- the file-name helpers of tools/data.py: `file_names`, `parse_date`,
  `date_dff`;
- the image models of image_2d.py and image_nd.py: titles, instrument,
  NaN percentage, ice surface and percentages, `np.dstack`, and the colour
  channel tables.

Numbers are exact `real`s; a pixel that may be NaN is `Sample = NaN | Num(v)`.
Arrays are `NdArray(shape, data)`, with data the row-major flat list, and the
type `Array<T>` ties the length of the data to the product of the shape.

Modules, one per source file, plus three of shared definitions:

- `Common`: Python slicing, `in` on strings, `strip` and `lower`;
- `NdArrays`: arrays and row-major index arithmetic;
- `Distribution`: `np.unique`, counts, `cumsum`, quantiles and `np.interp`;
- `Analysis`: app/reports/analysis.py;
- `Data`: tools/data.py;
- `Images2D`: app/models/image_2d.py;
- `ImagesND`: app/models/image_nd.py;
- `SicReport`: the loop of `unified_day_image` in app/reports/sic_report.py.

`day_image` and the pairing loop are methods with loops. Each is proved to
compute a recursive specification function (`DayImageWith`, `Pairs`), and
the properties are lemmas about those functions. Both loops take the
matching function as a parameter `matcher`, and the pairing loop also takes
the date parser as a parameter `date`. The entry points `DayImage` and
`UnifiedDayImage` plug in `HistMatch` and `ParseDate`. Most lemmas hold for
any matcher and any date parser.

Three behaviours of the code shape the model:

- **The last file of the day is merged.** The loop of `day_image` returns
  at analysis.py:38-39 when it reaches index n-1. By then the last file has
  already been the template at index n-2 (analysis.py:57-66). So the last
  file is merged when it passes the NaN test; it can never be the seed.
  `DayImageMergesLast` states this.
- **The NaN test is inverted as written.** `nan_percentage` counts the
  pixels that are not NaN and divides with Python 2 integer division
  (image_2d.py:42-43). `NanTestInverted` and the "Findings" section say what
  that does to `day_image`.
- **Exits become error values.** Where the program calls `sys.exit`, the
  model returns an error instead. An empty listing in `day_image`
  (analysis.py:31-33) gives `NoFiles`. A pairing loop that kept no pair
  (sic_report.py:254-256) gives `NoPicturesProcessed`. The exit when
  `day_image` gets no instrument (analysis.py:25-27) is not modelled; see
  "Left out".

## Model

| member | source | states |
|---|---|---|
| Common.SliceBound | app/models/image_2d.py:19 | Python's clamping of a slice bound: negative bounds count from the end, and out-of-range bounds clamp to 0 or the length |
| Common.StripLeft | app/models/image_nd.py:122 | `lstrip()`: the result is a suffix of the input that does not start with white space, and every character removed is white space |
| Common.StripRight | app/models/image_nd.py:122 | `rstrip()`: the result is a prefix of the input that does not end with white space, and every character removed is white space |
| Common.Lower | app/models/image_nd.py:122 | `lower()`: same length; exactly the ASCII capitals are lowered |
| Common.StripIdempotent | app/models/image_nd.py:122 | stripping twice is stripping once |
| Distribution.Unique | app/reports/analysis.py:184-186 | the values of `np.unique` are strictly increasing, are exactly the elements of the input, and are no more than the input; non-empty input gives non-empty values |
| Distribution.InverseIndex | app/reports/analysis.py:184-185 | `return_inverse`: one index per element, and each index points at that element's value in the list of distinct values |
| Distribution.Counts | app/reports/analysis.py:184-186 | `return_counts`: entry k is the number of occurrences of value k |
| Distribution.Cumsum | app/reports/analysis.py:191 | `np.cumsum`: entry k is the sum of the first k+1 counts |
| Distribution.CumsumOfCounts | app/reports/analysis.py:191 | the cumulative count of distinct value k is the number of elements at most that value |
| Distribution.Quantiles | app/reports/analysis.py:191-194 | `cumsum(counts) / cumsum[-1]`: entry k is the share of elements at most distinct value k |
| Distribution.QuantilesIncrease | app/reports/analysis.py:191-194 | the quantiles are strictly increasing, since every count is at least one |
| Distribution.QuantilesEndAtOne | app/reports/analysis.py:192 | the last quantile is 1 |
| Distribution.InterpBounds | app/reports/analysis.py:198 | `np.interp` over non-decreasing values stays between the first and the last value, clamping outside the abscissa |
| Distribution.InterpMonotone | app/reports/analysis.py:198 | over non-decreasing values, `np.interp` is monotone in x |
| Distribution.InterpAtKnot | app/reports/analysis.py:198 | at a knot `xp[k]`, `np.interp` gives `fp[k]` |
| Distribution.InterpFirst | app/reports/analysis.py:198 | strictly between the first two knots, `np.interp` is the linear interpolation of the first segment |
| Distribution.InterpTail | app/reports/analysis.py:198 | at or past the second knot, the first knot can be dropped |
| Distribution.IncreasingBySet | app/reports/analysis.py:184-186 | two strictly increasing lists with the same elements are equal, so the distinct values depend only on the set of elements |
| Analysis.UniqueEnds | app/reports/analysis.py:184-186 | the first and last distinct values are the minimum and the maximum |
| Analysis.HistMatch | app/reports/analysis.py:163-200 | an empty source fails (at `s_quantiles[-1]`), and so does an empty template; otherwise the result has the source's shape and length |
| Analysis.InterpAll | app/reports/analysis.py:198 | `np.interp` of a whole array: entry k is the interpolation of entry k |
| Analysis.Gather | app/reports/analysis.py:200 | fancy indexing `table[idx]`: entry i is `table[idx[i]]` |
| Analysis.HistMatchAt | app/reports/analysis.py:184-200 | output i is the template value at the quantile of source value i, so equal source values get equal outputs |
| Analysis.HistMatchRange | app/reports/analysis.py:186-198 | every output lies between the template's minimum and maximum |
| Analysis.HistMatchMonotone | app/reports/analysis.py:184-200 | `source[i] <= source[j]` implies `out[i] <= out[j]` |
| Analysis.HistMatchIdentity | app/reports/analysis.py:184-200 | matching a non-empty image onto itself gives it back |
| Analysis.HistMatchTemplateMultiset | app/reports/analysis.py:180-198 | the result depends on the template only through its multiset of values |
| Analysis.Ecdf | app/reports/analysis.py:203-210 | an empty input fails at `ecdf[-1]`; otherwise the values are the distinct elements, strictly increasing; the cumulative shares are strictly increasing, as many as the values, end at 1, and entry k is the share of elements at most value k |
| Analysis.FirstAccepted | app/reports/analysis.py:42-51 | the position of the first accepted scene, with all earlier ones rejected; `None` if every scene is rejected |
| Analysis.Seed | app/reports/analysis.py:36-53 | the seed is the first accepted file before the last; the last file is never the seed |
| Analysis.DayImage | app/reports/analysis.py:10-66 | `day_image` with `hist_match` computes `DayImageSpec` |
| Analysis.DayImageLoop | app/reports/analysis.py:31-66 | the loop, with its `continue` and early return, computes `DayImageWith` for any matcher: no files is an error, no seed gives `None`, otherwise the fold of the later accepted files onto the seed |
| Analysis.SeedAt | app/reports/analysis.py:42-53 | an accepted file before the last, after only rejected files, is the seed |
| Analysis.FoldFailure | app/reports/analysis.py:66 | a failed match ends the fold with that failure |
| Analysis.FoldSplit | app/reports/analysis.py:55-66 | the fold over two adjacent runs of files is the fold over the first, then the second |
| Analysis.FoldRejected | app/reports/analysis.py:61-63 | rejected templates leave the running image unchanged |
| Analysis.FoldShape | app/reports/analysis.py:66 | folding with `hist_match` keeps the running image's shape |
| Analysis.DayImageNone | app/reports/analysis.py:35-53 | the result is `None` exactly when every file but the last is rejected; in particular a single file always gives `None` |
| Analysis.DayImageMergesLast | app/reports/analysis.py:36-66 | when the last file is accepted, the result is the running image of the earlier files matched onto the last file |
| Analysis.DayImageWith | app/reports/analysis.py:23-66 | the specification of the loop for any matcher: no files fail with `NoFiles` and only then; without a seed the result is `None`; a day image needs a seed (its full behaviour is given by `DayImageNone`, `DayImageMergesLast` and `SeedAt`) |
| Analysis.DayImageSpec | app/reports/analysis.py:42-66 | with `hist_match`, a day image has the shape of its seed file |
| Analysis.DayImageExample | app/reports/analysis.py:23-66 | files with 50%, 2% and 1% NaN: the first is skipped, the second seeds and the third is merged, giving `hist_match(second, third)` |
| Data.InstrumentCode | tools/data.py:10-20 | `INSTRUMENT[INSTRUMENT_MAP[name]]` is defined exactly for "vir", "mod" and "both", giving "VIR", "MOD" and "both" |
| Data.LexLeTotal | tools/data.py:77 | the string order of `sorted` is total |
| Data.LexLeAntisymmetric | tools/data.py:77 | the string order of `sorted` is antisymmetric |
| Data.LexLeTransitive | tools/data.py:77 | the string order of `sorted` is transitive |
| Data.Insert | tools/data.py:77 | inserting into a sorted list keeps it sorted and adds exactly the one element |
| Data.Sort | tools/data.py:77-79 | `sorted`: the result is sorted and is a permutation of the input |
| Data.SortedUnique | tools/data.py:77-79 | a sorted permutation is unique, so `Sort` is `sorted` whatever algorithm computes it |
| Data.Filter | tools/data.py:79 | the comprehension keeps each name holding the code as often as it is listed, and no other name |
| Data.FileNames | tools/data.py:62-79 | an id other than 0, 1 and 2 fails with the `KeyError` of `INSTRUMENT`, but only when the listing is non-empty; otherwise the result is sorted and a sub-multiset of the listing |
| Data.FileNamesBoth | tools/data.py:76-77 | id 2 returns the whole listing, sorted |
| Data.FileNamesInstrument | tools/data.py:78-79 | ids 0 and 1 (`INSTRUMENT`, lines 10-14) return exactly the names holding "VIR" or "MOD", sorted |
| Data.Split | tools/data.py:97 | `split('_')`: at least one part, no part holds the separator, and joining the parts gives back the input (empty parts kept) |
| Data.SplitJoin | tools/data.py:97 | splitting a join of separator-free parts gives back the parts |
| Data.ParseShowNat | tools/data.py:98 | `int()` reads back the decimal digits of any natural number |
| Data.ParseInt | tools/data.py:98 | `int()` of a piece: a piece it reads ends in a digit, and a negative value comes with a leading minus sign (the values are given by `ParseShowNat`, `ParseSignedDigits` and `ParseIntDigits`, the refusals by `ParseIntRejects`) |
| Data.ParseDigitString | tools/data.py:98 | `int()` of a digit string, leading zeros allowed, is its value |
| Data.ParseSignedDigits | tools/data.py:98 | `int()` of a sign, any white space, then digits is the signed value of the digits, as Python 2 skips white space after the sign |
| Data.ParseIntDigits | tools/data.py:98 | `int()` ignores white space around the digits |
| Data.ParseIntRejects | tools/data.py:98 | `int()` refuses an empty or blank piece, a lone sign, and a piece not ending in a digit |
| Data.ParseDate | tools/data.py:82-103 | the date part splits into exactly three pieces or the call fails with the unpacking error; on success the year, day of year, hour (first two characters) and minute (the rest) are the `int`s of the pieces, and the other fields are (mon 0, mday 0, sec 0, wday 0, isdst -1); when there are three pieces and all four are `int`s, the call succeeds |
| Data.DatePartOf | tools/data.py:96 | `filename[2:-13]` of a two-character head, a date and a 13-character tail is the date |
| Data.SplitThree | tools/data.py:97 | three digit strings joined by '_' split back into those three |
| Data.ParseDateLayout | tools/data.py:96-103 | a name laid out as head, `YEAR_JDAY_HHMM` in digits and a 13-character tail parses to `(year, 0, 0, hh, mm, 0, 0, jday, -1)` |
| Data.DateDiffMetric | tools/data.py:106-115 | `date_dff` is non-negative and symmetric, and zero from a date to itself, whatever `mktime` is |
| Data.DateDiff | tools/data.py:106-115 | `date_dff`: the absolute difference of the two `mktime` values, in minutes, so never negative |
| Data.DateDiffIgnoresDayOfYear | tools/data.py:115 | two parsed dates that differ only in day of year (and week) are zero minutes apart, since `mktime` ignores those fields |
| Data.CalendarDate | tools/data.py:101-103 | the corrected date: `mktime` sees the day of year as a day of January, with every other field kept |
| Data.DateDiffCountsDays | tools/data.py:106-115 | with the corrected date, two dates that differ only in day of year are 1440 minutes apart per day, for any `mktime` under which a day lasts 86400 seconds |
| Images2D.Sensor | app/models/image_2d.py:14-174 | the `SENSOR` key of each class (lines 14, 57, 96, 150, 160, 167, 174); only the base class has none |
| Images2D.SensorInjective | app/models/image_2d.py:57-174 | the classes have pairwise different sensor keys |
| Images2D.Title | app/models/image_2d.py:19 | `filename[2:15]`, clamped for short names |
| Images2D.Instrument | app/models/image_2d.py:32-39 | SST is always VIRS and TEMP always MODIS (lines 152-153, 176-177); otherwise VIRS iff the name holds "VIR", else MODIS iff it holds "MOD", else the exit (`None`) |
| Images2D.VirsName | app/models/image_2d.py:33-34 | a name holding "VIR" anywhere is a VIRS image, except for TEMP |
| Images2D.CountNumbers | app/models/image_2d.py:42 | `count_nonzero(~isnan(image))`: the size minus the number of NaN pixels, so equal to the size iff there is no NaN |
| Images2D.NanPercentage | app/models/image_2d.py:41-43 | an empty image divides by zero; otherwise the result is 100 iff no pixel is NaN, and 0 iff some pixel is |
| Images2D.NanTestInverted | app/models/image_2d.py:41-43 | through `day_image`'s limit, a NaN-free image is rejected and an image with any NaN is accepted |
| Images2D.NanShare | app/models/image_2d.py:41-43 | the NaN share in percent: the number of NaN pixels over the size, times 100; in [0, 100], and 0 iff there is no NaN; an empty image fails |
| Images2D.NanShareTest | app/reports/analysis.py:49-63 | with the NaN share, a NaN-free image is always accepted and an all-NaN image never is |
| Images2D.NanShareLimit | app/reports/analysis.py:49-63 | with the NaN share, `day_image` uses a file exactly when at most a tenth of its pixels are NaN |
| Images2D.Surface | app/models/image_2d.py:104-125 | `image > level`: same shape, and pixel i is set iff it is a number above the level (NaN never is) |
| Images2D.SurfaceInt | app/models/image_2d.py:123-124 | `boolean=False`: the same mask as 1 and 0 |
| Images2D.SurfaceMonotone | app/models/image_2d.py:122 | raising the level only clears pixels of the mask |
| Images2D.CountTrue | app/models/image_2d.py:138 | the number of set pixels of the mask, and the size minus it is the number of clear ones; positive iff one is set, below the size iff one is clear |
| Images2D.SicPercentage | app/models/image_2d.py:127-143 | succeeds iff both classes occur (otherwise `freqs[1]` is out of range); the timestamp is the title, and the shares are the ice and non-ice counts over the size, in percent |
| Images2D.SicSharesSum | app/models/image_2d.py:140-141 | the ice and other shares add up to 100 |
| Images2D.LmPercentage | app/models/image_2d.py:65-80 | a bad date fails first; then it succeeds iff there are two distinct values; the shares are the counts of the second-smallest and the smallest value over the size |
| Images2D.LmSharesSum | app/models/image_2d.py:75-78 | the two shares add up to 100 exactly when the image holds exactly two distinct values |
| ImagesND.Sensor | app/models/image_nd.py:12-136 | the `SENSOR` key of each class (lines 12, 84, 109, 136); only the base class has none |
| ImagesND.NewImageND | app/models/image_nd.py:14-23 | the constructor exits iff the dimensions are below 3, and otherwise keeps kind, name and dimensions |
| ImagesND.ProductStackShape | app/models/image_nd.py:44 | the stacked shape has as many elements as the input |
| ImagesND.SourceAt | app/models/image_nd.py:44 | output position (i, j, k, l) of `np.dstack` reads input position (k, i, j, l) |
| ImagesND.SourceOnto | app/models/image_nd.py:44 | every input position is read by some output position |
| ImagesND.Stacked | app/models/image_nd.py:44 | the flat elements of the stacked slices; as many as the input |
| ImagesND.StackedAt | app/models/image_nd.py:44 | element (i, j, k, l) of the stack is element (k, i, j, l) of the input |
| ImagesND.StackedElements | app/models/image_nd.py:44 | stacking neither loses nor invents an element |
| ImagesND.DStack | app/models/image_nd.py:44 | `np.dstack` of the first-axis slices: fails on zero slices; shape (b, c, a) for an (a, b, c) input and (b, c, a*d, ...) beyond; the data is the stacked input |
| ImagesND.DStackAt | app/models/image_nd.py:44 | element (i, j, k, l) of the result is element (k, i, j, l) of the input |
| ImagesND.DStack3D | app/models/image_nd.py:44 | for a three-axis input, `out[i][j][k] == in[k][i][j]` with shape (b, c, a) |
| ImagesND.DStackElements | app/models/image_nd.py:44 | the result holds exactly the input's elements |
| ImagesND.Image | app/models/image_nd.py:25-44 | an array that is missing or has fewer axes than `dimensions` exits; otherwise `image()` is the `np.dstack` of the array |
| ImagesND.ImageND.Title | app/models/image_nd.py:23 | `filename[2:15]`: at most 13 characters, and characters 2 to 14 of a long enough name |
| ImagesND.NanPercentageValues | app/models/image_nd.py:46-48 | fails iff the image is invalid, has no slices or is empty; otherwise 100 iff the stored array holds no NaN and 0 iff it holds one |
| ImagesND.NanPercentage | app/models/image_nd.py:46-48 | an invalid image fails with `InvalidImage`, and a percentage is always 0 or 100 (its cases are given by `NanPercentageValues`) |
| ImagesND.Plane | app/models/image_nd.py:98 | `y[:, :, k]`: out of range fails; the shape drops the third axis |
| ImagesND.PlaneData | app/models/image_nd.py:98 | the flat elements of plane k: as many as a plane holds |
| ImagesND.PlaneDataAt | app/models/image_nd.py:98 | element (ij, l) of plane k is element (ij, k, l) of the array seen as shape (b * c, n, e), for any number of trailing axes |
| ImagesND.PlaneOfDStack | app/models/image_nd.py:44-98 | plane k of the stacked three-axis array is slice k of the input |
| ImagesND.ChannelIndex | app/models/image_nd.py:75-158 | Iband maps exactly "red", "green", "blue" to 0, 1, 2; Mband maps the stripped, lower-cased name to 2, 1, 0; Fc to 0, 1, 2; any other name, and the base class, give none |
| ImagesND.ChannelTables | app/models/image_nd.py:97-156 | Mband's red is the others' blue and the reverse; green is axis 1 for all three |
| ImagesND.ChannelIgnoresPadding | app/models/image_nd.py:122-149 | Mband and Fc ignore white space around the name |
| ImagesND.ChannelCapitals | app/models/image_nd.py:97-149 | "RED" is red for Mband and Fc but unknown for Iband |
| ImagesND.Channel | app/models/image_nd.py:75-104 | an unknown name gives `None` without loading; a known one fails with `InvalidImage` on an invalid array, and for a stored array of three axes succeeds exactly when its index is below the number of slices, giving that slice |
| ImagesND.PlaneOfStored | app/models/image_nd.py:98 | plane k of the stack of a three-axis array exists exactly when k is below the number of slices, and is slice k |
| ImagesND.Rgb | app/models/image_nd.py:64-73 | success gives the red, green and blue channels, in that order; the call fails exactly when a channel fails, with the error of the first failing one in red, green, blue order |
| ImagesND.RgbPlain | app/models/image_nd.py:64-79 | the base class gives three `None`s |
| ImagesND.IbandRgb | app/models/image_nd.py:64-102 | for a valid three-axis Iband array, red, green and blue are slices 0, 1 and 2 of the stored array |
| SicReport.PairAt | app/reports/sic_report.py:242-251 | one turn, in the source's order: succeeds exactly when the MODIS file exists, both dates parse, and a close pair's match succeeds; the pair is kept iff the dates are at most `interval` minutes apart (inclusive); a kept pair is the match of the VIRS image onto the MODIS image, titled "vir title and modis title" |
| SicReport.Pairs | app/reports/sic_report.py:237-251 | after n turns, `processed` and `titles` have the same length, at most n, and n MODIS files existed |
| SicReport.Selected | app/reports/sic_report.py:245 | the close positions below n, in strictly ascending order |
| SicReport.Virs | app/reports/sic_report.py:231 | the VIRS list: sorted, and holding exactly the names of the listing that contain "VIR", with their multiplicities |
| SicReport.Modis | app/reports/sic_report.py:232 | the MODIS list: sorted, and holding exactly the names of the listing that contain "MOD", with their multiplicities |
| SicReport.UnifiedDayImage | app/reports/sic_report.py:231-256 | the listing, the pairing loop and the "No pictures were processed" exit compute `UnifiedDayImageSpec` |
| SicReport.PairFiles | app/reports/sic_report.py:237-251 | the loop, with its never-firing guard (lines 239-240), computes `Pairs` over all VIRS files |
| SicReport.PairsFailed | app/reports/sic_report.py:242-249 | once a turn fails, the run ends with that failure |
| SicReport.PairsSucceed | app/reports/sic_report.py:238-251 | a run of the loop succeeds exactly when every one of its turns does |
| SicReport.PairsContents | app/reports/sic_report.py:237-251 | on success, VIRS file i is paired only with MODIS file i and both dates parse; the results are exactly the close pairs in ascending order, each the match of the VIRS image onto the MODIS image with its title |
| SicReport.MissingModisFails | app/reports/sic_report.py:243 | fewer MODIS than VIRS files always ends in an error |
| SicReport.NoClosePairs | app/reports/sic_report.py:245-256 | without a close pair the run fails, and if the loop got through, with the "No pictures were processed" exit |
| SicReport.NegativeInterval | app/reports/sic_report.py:245 | a negative interval keeps no pair |
| SicReport.UnifiedLengths | app/reports/sic_report.py:250-256 | a successful run has one title per processed image, and at least one image |

## Left out

- Loading `.mat` files (`mat_file`, `loadmat`, `mat_generator`) and `os.listdir`. The directory listing is an argument. The pixel arrays are arguments (`Scene.image`, `raw`) or a function parameter `load`.
- Choosing the lense in `day_image` (analysis.py:43-46, 56-59). With a lense other than "mw_sic" or "lm", `matched` stays `None` and `.nan_percentage()` raises `AttributeError`. The model has one kind of scene.
- The `instrument is None` exit of `day_image` (analysis.py:25-27) is left out. The empty-listing `sys.exit(1)` (analysis.py:31-33) is modelled as `NoFiles`.
- `day_image` takes its files as scenes, each with its NaN percentage as a field. So the model has neither the `data.file_names(INSTRUMENT_MAP.get(instrument))` call (analysis.py:29, a `KeyError` for an unknown instrument on a non-empty listing) nor the `ZeroDivisionError` of `nan_percentage` on an empty file.
- The plotting: `single_histmatch_analysis`, `histmatch_plot`, all other report functions, and the figure after the loop of `unified_day_image` (sic_report.py:258-288). `show()` is also left out.
- app/reports/color_report.py, `LMImage.silhoutte` and the scipy filters: foreign numerics and plotting.
- The command line in app.py, scripts/data_download.py, examples.py and setup.py.
- `time.mktime`: it depends on the time zone, so it is a function parameter over the fields that C's `mktime` reads (section 7.23.2.3 of ISO C99). Its `OverflowError` is not modelled, nor Python 2.7's year handling: a year below 1900 outside 0..99 raises `ValueError`, and years 0..99 are moved to 1969..2068. Both lie inside the `mktime` parameter.
- IEEE floating point: rounding in `cumsum`, division and `np.interp`, and NaN in `np.unique`. Values are exact reals, and `hist_match` inputs hold no NaN.
- ImagesND.Image: the exit message at image_nd.py:41-43 reads the missing attribute `self.sensor`, so the program raises `AttributeError` instead of exiting. Both are modelled as the one error `InvalidImage`.
- ImagesND.Channel: a `None` channel name makes `strip()` raise in Mband and Fc. Names are always strings here.
- Data.ParseDate: `int()` is modelled on ASCII digits, a sign (with white space allowed after it) and the white-space characters of `IsSpace`. Python 2's `long` results and other white space are not modelled.
- `unified_day_image`'s `lense` parameter is not used by the loop, and the loop always builds `SICImage`s. It is not modelled.
- The default `interval=20` of `unified_day_image` (sic_report.py:221): the interval is always an argument of the model.
- SicReport.PairFiles: the date parser and the matcher are parameters. `UnifiedDayImage` supplies `ParseDate` and `HistMatch`.

## Findings

| source | as written | input that shows it | evidently intended | confidence | as-written member | corrected member |
|---|---|---|---|---|---|---|
| app/models/image_2d.py:42-43 | counts the non-NaN pixels and divides with Python 2 integer division, so the result is 100 with no NaN and 0 otherwise; image_nd.py:47-48 is the same | an image with no NaN gives 100, which `day_image`'s `> 10` limit rejects; an image of NaN only gives 0 and is accepted | the share of NaN pixels in percent, so that clean files are used and files with more than 10% NaN are skipped | high; not executed | Images2D.NanPercentage, Images2D.NanTestInverted | Images2D.NanShare, Images2D.NanShareLimit |
| tools/data.py:101-103 | `parse_date` puts the day of year in `tm_yday` and sets `tm_mon` and `tm_mday` to 0. `mktime` ignores `tm_yday`, so every date falls on the same day of its year | two files of the same year and time of day on different days are 0 minutes apart in `date_dff`, so `unified_day_image` pairs them | dates that differ by the day of year as well | medium; not executed | Data.ParseDate, Data.DateDiffIgnoresDayOfYear | Data.CalendarDate, Data.DateDiffCountsDays |

The day-image model takes each file's percentage as part of its scene
(`Scene.nanPct`). The day-image lemmas therefore hold whichever percentage
feeds them. `NanShareTest` and `NanShareLimit` show how the corrected one
behaves there. In the same way, the pairing loop takes its date parser as a
parameter, so its lemmas also hold for the corrected date.
