# gps_xyt in Dafny

This project models the decision and integer logic of `gps_xyt`. That program converts GPS tracks
(GPX files) into a local `x, y, t` frame per reference axis and per named event. An axis is a
GeoJSON `LineString` from endpoint A to endpoint B. Each of its properties whose value parses as an
ISO 8601 interval is a named event. For every track segment and every (axis, event) pair, the
program does four things:

- it keeps the samples whose timestamp lies in the event's closed interval;
- it gives each kept sample its time relative to the interval start;
- it projects the kept samples with an oblique Mercator projection centred on A, with the bearing
  from A to B as the central line;
- it writes one CSV artifact `<out>/<event>/<segment identity>.csv`.

The projection refuses some bearings. For south-facing bearings it uses the opposite bearing and
negates the result.

The model has one module per component:

- `Naming` (naming.dfy): `_sanitize`, the decimal rendering of enumeration indices, the stem of a
  `.gpx` file name and the `<gpx>-<track>-segment<i>` identity of a segment.
- `TrackStore` (track_store.dfy): `_load_gpx` on a parsed GPX document. The columns are built by
  appending in loops, and the nested track/segment loop is proved against a specification function.
- `ReferenceCatalog` (reference_catalog.dfy): `_extract_refs` over GeoJSON features. It models the
  skips and the exceptions for a missing geometry, unusable coordinates and `null` properties. The
  exceptions that are not modelled are listed under "Left out".
- `Slicer` (slicer.dfy): `_extract_rel_tslice` on integer epoch seconds.
- `Reprojector` (reprojector.dfy): the azimuth case decision of `_reproject`
  (`Unsupported | Standard | SouthFacing`), the substituted bearing `(alpha - 180) % 360`, and the
  negation. The projection and the azimuth are function parameters.
- `Pipeline` (pipeline.dfy): `gps_to_xyt`. Writing an artifact is appending it to the `written`
  sequence. The nested loops are methods proved against `RunSteps`.
- `Wrappers` (wrappers.dfy): `Option` and `Result`.

The code and its intended design differ in five places. In the first four, the model follows the
code:

- An unsupported geometry raises in `_reproject` and ends the whole run (`Pipeline.RunStepsExact`).
  It does not end only the one (segment, axis, event) triple. Artifacts written before the failure
  remain.
- Nothing checks that an interval's end is not before its start. With the corrected slicer, such an
  interval selects nothing (`Slicer.ReversedIntervalIsEmpty`). The slicer as written raises on it,
  as on any window without a sample (see the last item).
- Nothing checks that an axis has two distinct endpoints.
- Segment identities are not unique in general (`Naming.NamedTrackCanCollideWithFallback`). Two
  tracks with the same name produce the same identities. So does a track named `track1` next to an
  unnamed second track. Identities are unique within one track and among unnamed tracks. Because
  an artifact's file is `<out>/<prop>/<name>.csv`, a later artifact with a colliding identity and the
  same property overwrites the earlier file. So does a second axis that carries the same property
  name, for example a start line and a finish line that both name the event `race`, since the path
  does not include the axis. Only the last artifact written to a key survives
  (`Pipeline.FilesHoldLastWrite`); property names that differ only in how they spell the same
  path, such as `race` and `race/`, share a file as well, which the model does not capture (see
  "Left out").
- The slicer as written raises `IndexError` when no sample is in the window (see "Findings"). So the
  `continue` for an empty slice (gps_xyt.py:27-29) is never reached, and the first such pair ends
  the run. This is modelled as written: `Pipeline.StepAsWritten`,
  `Pipeline.AsWrittenRunNeedsSampleInEveryWindow` and `Pipeline.AsWrittenRunStopsAtEmptyWindow`.
  The driver `Pipeline.GpsToXyt` uses the corrected slicer, which returns the empty slice that the
  caller skips.

## Model

| member | source | states |
|---|---|---|
| `Naming.ReplaceAll` | gps_xyt.py:37 | `str.replace` for one character keeps the length; each position holds `to` where the input held `from`, and the input character elsewhere |
| `Naming.Sanitize` | gps_xyt.py:35-37 | the three chained replaces keep the length; every `/`, `.` and space becomes `-`; every other character is unchanged |
| `Naming.SanitizeIsSafe` | gps_xyt.py:35-37 | a sanitised name contains no `/`, `.` or space |
| `Naming.SanitizeIdempotent` | gps_xyt.py:35-37 | sanitising twice equals sanitising once |
| `Naming.SanitizeKeepsSafe` | gps_xyt.py:35-37 | a name without separators, dots and spaces is left unchanged |
| `Naming.Decimal` | gps_xyt.py:53 | `"{}".format(i)` of an index is a non-empty string of digits with no leading zero |
| `Naming.DecimalRoundTrip` | gps_xyt.py:53 | reading a rendered index back as a decimal number gives the index |
| `Naming.DecimalInjective` | gps_xyt.py:55 | distinct indices render as distinct strings |
| `Naming.TrackLabel` | gps_xyt.py:50-53 | a present, non-empty track name gives its sanitised form; a missing or empty name gives `track<i_t>`; either way the label is non-empty and contains no `/`, `.` or space |
| `Naming.SegmentName` | gps_xyt.py:55-56 | the identity reads, position by position, the gpx name, `-`, the track label, `-segment` and the rendered segment index |
| `Naming.SegmentNameHasNoSeparator` | gps_xyt.py:44-56 | if the gpx stem has no `/`, the identity has none, so as a file name it stays inside the output directory |
| `Naming.SegmentNamesDistinctWithinTrack` | gps_xyt.py:54-56 | two segments of the same track with equal identities have equal segment indices |
| `Naming.UnnamedSegmentNamesDistinct` | gps_xyt.py:49-56 | for unnamed tracks, equal identities imply equal track index and equal segment index |
| `Naming.NamedTrackCanCollideWithFallback` | gps_xyt.py:49-56 | a track named `track1` at position 0 and an unnamed track at position 1 give the same segment identity |
| `Naming.LastIndexOf` | gps_xyt.py:44 | `rfind` gives -1 or a position holding the character, with no later occurrence |
| `Naming.EndsWith` | gps_xyt.py:18 | `str.endswith` holds if and only if the string is some prefix followed by the suffix |
| `Naming.Stem` | gps_xyt.py:44 | `splitext(name)[0]` is a prefix of the name; when it is shorter, the name continues with the last `.` of the name |
| `Naming.GpxStem` | gps_xyt.py:44 | `splitext` of a `*.gpx` name drops `.gpx`, unless only dots precede it; then the whole name is kept |
| `TrackStore.Columns` | gps_xyt.py:57-63 | the three appended columns have one entry per point: latitude, longitude and time of that point |
| `TrackStore.SegmentRecordAt` | gps_xyt.py:54-65 | a yielded record has parallel columns as long as the segment's point list |
| `TrackStore.TrackRecords` | gps_xyt.py:54-65 | a track yields one record per segment, in segment order |
| `TrackStore.LoadGpx` | gps_xyt.py:39-65 | the nested loops over tracks and segments yield exactly `Records`, the track-by-track concatenation |
| `TrackStore.RecordsCount` | gps_xyt.py:49-65 | there is one record per segment over all tracks |
| `TrackStore.RecordsMembership` | gps_xyt.py:49-65 | a record is yielded if and only if it is the record (identity and columns) of some segment of some track |
| `TrackStore.RecordsComplete` | gps_xyt.py:49-65 | the record of every segment of every track is yielded |
| `TrackStore.RecordsSound` | gps_xyt.py:49-65 | every yielded record is the record of some segment of some track |
| `TrackStore.Records` | gps_xyt.py:49-65 | every yielded record has columns of equal length, which the slicer's assertion needs |
| `ReferenceCatalog.PropRefs` | gps_xyt.py:94-102 | a property list yields at most one reference per entry |
| `ReferenceCatalog.PropRefsExact` | gps_xyt.py:83-102 | a reference is yielded from a property list if and only if some entry's value parses to its interval; its A and B are the first and last positions with `[lng, lat]` swapped |
| `ReferenceCatalog.FeatureRefsExact` | gps_xyt.py:75-102 | a feature raises if and only if it is a `Feature` whose geometry is missing, or a `LineString` with unusable endpoints or `null` properties; otherwise it yields exactly the references `Yields` describes |
| `ReferenceCatalog.FeatureRefs` | gps_xyt.py:75-102 | a feature that yields references has an object of properties and yields at most one reference per property |
| `ReferenceCatalog.ExtractRefs` | gps_xyt.py:67-102 | when the listing fails, its error is the one raised by the first failing feature: that feature raises it, and every feature before it yields normally |
| `ReferenceCatalog.ExtractRefsExact` | gps_xyt.py:75-102 | listing the references fails if and only if some feature raises; otherwise a reference is listed if and only if some feature yields it |
| `Slicer.KeptFrom` | gps_xyt.py:123 | the indices from `from` on, each in range and in the window, strictly increasing, and including every in-window index |
| `Slicer.KeptIndices` | gps_xyt.py:123 | the index array holds exactly the positions whose timestamp is in `[start, end]`, strictly increasing |
| `Slicer.ExtractRelTslice` | gps_xyt.py:111-124 | three outputs of equal length; output `k` is the latitude, longitude and `t - start` of the `k`-th kept index; each relative time lies in `[0, end - start]`; the result is empty if and only if no sample is in the window |
| `Slicer.IncreasingWithSameMembersEqual` | gps_xyt.py:123 | two strictly increasing index sequences with the same members are equal |
| `Slicer.KeptIndicesUnique` | gps_xyt.py:123 | any strictly increasing selection of exactly the in-window positions equals the index array, so nothing is reordered or repeated |
| `Slicer.ExtractRelTsliceAsWritten` | gps_xyt.py:123-124 | the code as written raises if and only if no sample is in the window, and otherwise gives the corrected slice |
| `Slicer.AsWrittenFailsOnEmptyWindow` | gps_xyt.py:27-29 | a sample at 100 against the window `[0, 10]`: the written code raises, while the corrected slice is empty |
| `Slicer.CorrectedAgreesWhereWrittenSucceeds` | gps_xyt.py:123-124 | the corrected slicer returns the empty slice exactly where the written one raises, and agrees with it elsewhere |
| `Slicer.ReversedIntervalIsEmpty` | gps_xyt.py:123 | with the corrected slicer, an interval whose end precedes its start selects nothing, without an error (the slicer as written raises on it) |
| `Reprojector.Classify` | gps_xyt.py:143-148 | Unsupported if and only if the guard holds; Standard if and only if supported and `alpha <= 90 or alpha > 270`; SouthFacing if and only if supported and `90 < alpha <= 270` |
| `Reprojector.Mod360` | gps_xyt.py:159 | Python's `% 360` gives a value in `[0, 360)` that differs from the input by whole turns |
| `Reprojector.IsUnsupported` | gps_xyt.py:143 | the guard: bearing 0 or 180, bearing 90 or 270 on the equator, or a pole as origin |
| `Reprojector.SubstitutedBearing` | gps_xyt.py:159 | `(alpha - 180) % 360` lies in `[0, 360)` and differs from `alpha - 180` by whole turns |
| `Reprojector.Mod360Unique` | gps_xyt.py:159 | that value is the only one in `[0, 360)` that differs from the input by whole turns |
| `Reprojector.SubstitutedBearingFacesNorth` | gps_xyt.py:156-159 | for `90 < alpha <= 270` the substituted bearing is the opposite direction and lies in `[0, 90] ∪ (270, 360)` |
| `Reprojector.SubstitutedCaseIsStandard` | gps_xyt.py:143-159 | a supported south-facing bearing becomes a supported standard bearing after substitution |
| `Reprojector.ProjectAll` | gps_xyt.py:155 | one projected point per input point, each the projection of that point's `(lng, lat)` |
| `Reprojector.Negate` | gps_xyt.py:167-168 | each negated coordinate plus the original is zero, and the lengths are kept |
| `Reprojector.NegateInvolutive` | gps_xyt.py:167-168 | negating twice gives back the coordinates |
| `Reprojector.Reproject` | gps_xyt.py:126-170 | fails if and only if the guard holds; otherwise one `(x, y)` per input point; Standard gives the projection with `alpha`; SouthFacing gives the negated projection with the substituted bearing |
| `Reprojector.SouthFacingIsNegatedSubstitute` | gps_xyt.py:156-168 | a south-facing result equals the negation of the supported result for the substituted bearing |
| `Reprojector.Bearing200IsNegatedBearing20` | gps_xyt.py:156-168 | bearing 200 gives the negated projection with bearing 20 |
| `Reprojector.ReversedAxisNegates` | gps_xyt.py:148-168 | reversing a supported axis (bearing + 180 mod 360) gives a supported south-facing case and negates every coordinate |
| `Pipeline.GpxFileNames` | gps_xyt.py:15-19 | a name is selected if and only if some listing entry with that name is a regular file ending in `.gpx` |
| `Pipeline.SelectGpxFiles` | gps_xyt.py:15-19 | the appending loop over the listing yields exactly `GpxFileNames` |
| `Pipeline.AllSegments` | gps_xyt.py:23-24 | every segment loaded from the selected files has columns of equal length |
| `Pipeline.Step` | gps_xyt.py:25-33 | a pair is skipped if and only if no sample is in its interval; a failure means an unsupported geometry; an emitted artifact is keyed by `(prop, name)`, non-empty, with relative times in `[0, end - start]`; its `t` column is the slice's relative times, and its `x` and `y` columns are the reprojection of the slice's points with the axis start as origin and the axis azimuth as bearing; a non-empty slice on a supported axis always emits |
| `Pipeline.StepAsWritten` | gps_xyt.py:25-33 | the loop body as written never skips; it raises the slicer's `IndexError` when no sample is in the interval, and otherwise does what `Step` does |
| `Pipeline.Pairs` | gps_xyt.py:23-25 | pairing well-formed segments with references gives well-formed pairs |
| `Pipeline.PairsMembership` | gps_xyt.py:23-25 | a (segment, reference) pair is visited if and only if the segment is loaded and the reference is listed |
| `Pipeline.Row` | gps_xyt.py:25 | one segment is paired with every reference, in listing order |
| `Pipeline.StepAsWrittenWith` | gps_xyt.py:25-33 | the as-written loop body with a run's azimuth and projection fixed applies to every well-formed segment and agrees with `StepAsWritten` |
| `Pipeline.StepWith` | gps_xyt.py:25-33 | the loop body with a run's azimuth and projection fixed applies to every well-formed segment and agrees with `Step` |
| `Pipeline.Steps` | gps_xyt.py:25-33 | one outcome per pair, in order |
| `Pipeline.StepsAt` | gps_xyt.py:25-33 | the outcome at each position is the loop body applied to the pair at that position |
| `Pipeline.StepsAppend` | gps_xyt.py:23-33 | the outcomes of two pair lists in turn are the outcomes of the first followed by those of the second |
| `Pipeline.Emitted` | gps_xyt.py:33 | an artifact is among the emitted ones if and only if some outcome emits it |
| `Pipeline.RunSteps` | gps_xyt.py:23-33 | a run fails if and only if some outcome raises, and then with the error of such an outcome; it writes at most one artifact per outcome |
| `Pipeline.FailIndexAt` | gps_xyt.py:23-33 | the first raising outcome is at `k` when the outcome at `k` raises and none before it does |
| `Pipeline.FailIndex` | gps_xyt.py:30 | the position of the first outcome that raises, or the length when none raises |
| `Pipeline.RunStepsExact` | gps_xyt.py:23-33 | a run writes the artifacts of the outcomes before the first error and fails with that error; with no error, it writes every artifact and does not fail |
| `Pipeline.RunStepsAppend` | gps_xyt.py:23-33 | running two outcome lists in turn acts on the second only if the first did not fail |
| `Pipeline.RunStopsAtFirstFailure` | gps_xyt.py:23-33 | a run ends at the first raising pair, with that pair's error, keeping the artifacts written before it |
| `Pipeline.AsWrittenRunNeedsSampleInEveryWindow` | gps_xyt.py:23-33 | as written, a run in which some (segment, reference) pair has no sample in its interval fails, so a run completes only if every pair has one |
| `Pipeline.AsWrittenRunStopsAtEmptyWindow` | gps_xyt.py:23-33 | as written, the first pair whose interval holds no sample ends the run with the slicer's error, keeping what was written before it |
| `Pipeline.WrittenExact` | gps_xyt.py:25-33 | in a run that does not fail, an artifact is written if and only if some pair has a non-empty slice and a supported geometry that produce it |
| `Pipeline.StepsOfPairsFrom` | gps_xyt.py:23-25 | the outcomes from segment `s` on are that segment's row, then the rest |
| `Pipeline.LoadSegments` | gps_xyt.py:23-24 | loading the files one after another yields exactly `AllSegments` |
| `Pipeline.ProcessRow` | gps_xyt.py:25-33 | for any loop body, the loop over references for one segment writes and fails exactly as `RunSteps` on that row |
| `Pipeline.ProcessPairs` | gps_xyt.py:23-33 | for any loop body, the loops over segments and references write and fail exactly as `RunSteps` on all pairs |
| `Pipeline.GpsToXytSpec` | gps_xyt.py:14-33 | nothing is written when listing the references fails, and the run then fails with that error; with no `.gpx` file and a successful listing, nothing is written and nothing fails |
| `Pipeline.Files` | gps_xyt.py:32-33 | the files left after a sequence of writes, keyed by `(prop, name)` rather than by the joined path: a key has a file if and only if some write used it, and the file holds an artifact written to that key |
| `Pipeline.FilesHoldLastWrite` | gps_xyt.py:172-178 | the file of a key holds the last artifact written to that key; earlier artifacts with the same key are overwritten |
| `Pipeline.GpsToXyt` | gps_xyt.py:14-33 | the driver's written artifacts and failure equal `GpsToXytSpec` |
| `Pipeline.SingleWindowScenario` | gps_xyt.py:23-33 | for any azimuth function that gives 45 on the axis `(10, 20) → (11, 21)`, samples at -10, 5 and 50 against `[0, 30]` give exactly one artifact, keyed by the event and the segment, with relative times `[5]` and with `x` and `y` the projection of the sample at 5, with the axis start as origin and bearing 45 |

## Left out

- Directory listing, file opening, directory creation and CSV writing (gps_xyt.py:16-19, 46-47, 72-73, 172-178). The listing is an input sequence of entries, in a given order. Writing an artifact is appending it to `written`.
- Output paths: `os.path.join(out_dir, prop, name + '.csv')` is not modelled; an artifact carries its key `(prop, name)`. Property names are not sanitised in the source, so a property name that is an absolute path would be joined outside the output directory.
- The parsers `gpxpy.parse`, `json.load` and `aniso8601.parse_interval` are not modelled. Their results are given as values: `Gpx`, `Feature` and a partial function `parse`, where `None` stands for `ValueError`. Parsing errors that abort the run are not modelled.
- Missing `features`, `type` or `coordinates` keys in the GeoJSON, and non-string property values, are not modelled. A missing or `null` geometry and `null` properties are modelled.
- `_to_epoch` / `calendar.timegm` is not modelled. Timestamps are already integer epoch seconds; sub-second truncation and time zone handling are not modelled.
- The Vincenty azimuth (`pygc.great_distance`) and the pyproj transform are not modelled; they are function parameters. Projected coordinates, the origin mapping to `(0, 0)` and pyproj errors beyond the guard are not verified.
- Floating point: latitudes, longitudes, bearings and coordinates are exact reals, so the comparisons with 0, 90, 180 and 270 are exact. numpy's 64-bit integer overflow of timestamps is not modelled.
- `print(ex)` diagnostics (gps_xyt.py:99).
- `Pipeline.Step`: the driver `Pipeline.GpsToXyt` uses the corrected slicer. As written, the first pair whose interval holds no sample raises `IndexError` and ends the run (`Pipeline.AsWrittenRunStopsAtEmptyWindow`). The corrected driver instead skips that pair and goes on.
- `Pipeline.WrittenExact`: `written` is the sequence of writes, not the directory left afterwards. Writes with the same `(prop, name)` overwrite each other's file, and only the last survives. `Pipeline.Files` and `Pipeline.FilesHoldLastWrite` describe the directory when distinct keys give distinct paths.
- `Pipeline.Files`: the map is keyed by `(prop, name)`, not by the path `os.path.join(out_dir, prop, name + '.csv')` (gps_xyt.py:32). Path joining and the file system's path resolution are not modelled. Property names that differ but lead to the same file, such as `race`, `race/`, `./race` or `x/../race`, are distinct keys here, while in the source they share one file.
- `Pipeline.FilesHoldLastWrite`: it holds per key, not per file. When two keys lead to the same file, the last write to either key wins in the source, which the lemma does not state.
- A date-only interval such as `2017-05-01/2017-05-02`: `aniso8601.parse_interval` returns `datetime.date` values, and `_to_epoch` raises `AttributeError` on them because `date` has no `utctimetuple` (gps_xyt.py:109, 119). This happens at the first pair that uses that reference, and it ends the run. In the model, `parse` returns integer bounds on success, so such an event is processed like one with times.
- A GPX point without a time: gpxpy gives `None`, `_to_epoch` raises `AttributeError` (gps_xyt.py:109, 121), and the run aborts. In the model every point has an integer time.
- `Pipeline.GpsToXyt`: all segments are loaded before the pairs are processed. In the source, loading and processing interleave file by file. The two agree because loading a parsed document cannot fail in the model.
- `Slicer.ExtractRelTslice`: the source's `assert len(lats) == len(lngs) == len(t_dts)` is a precondition. Every loaded record meets it (`TrackStore.Records`).
- `Reprojector.Reproject`: it requires equal-length latitude and longitude arrays, as the slicer always supplies.
- example.py is not part of this model; it only calls `gps_to_xyt` with fixed paths.

## Findings

| source | as written | input that shows it | evidently intended | confidence | as-written member | corrected member |
|---|---|---|---|---|---|---|
| gps_xyt.py:123-124 | `idx = np.array([...])` of an empty list is a float64 array. numpy raises `IndexError` when a float array is used as an index. So the slicer raises whenever no sample is in the window, and the whole run stops. | one sample at epoch second 100, window `[0, 10]` (`Slicer.AsWrittenFailsOnEmptyWindow`) | an empty slice, which the caller skips as "no data for this time interval" (gps_xyt.py:27-29) | high, from numpy's indexing rules; not executed | `Slicer.ExtractRelTsliceAsWritten` | `Slicer.ExtractRelTslice` |
