/** The driver `gps_to_xyt` (gps_xyt.py:14-33): select the `.gpx` entries of a
    directory listing, list the references, load every segment, and for every
    (segment, reference) pair slice the segment to the reference's interval and,
    when the slice is not empty, reproject it and write one artifact keyed by
    `(prop, name)`. The listing, file parsing, the azimuth and the projection
    are parameters; writing an artifact is appending it to `written`. */
module Pipeline {
  import opened Wrappers
  import opened Naming
  import opened TrackStore
  import opened ReferenceCatalog
  import opened Slicer
  import opened Reprojector

  /** An entry of the directory listing and whether it is a regular file. */
  datatype DirEntry = DirEntry(name: string, isFile: bool)

  /** One CSV artifact `<out>/<prop>/<name>.csv` with columns `x`, `y`, `t`. */
  datatype Output = Output(prop: string, name: string, xs: seq<real>, ys: seq<real>, ts: seq<int>)

  /** What aborts a run: the reference listing, an unsupported geometry, or (in
      the code as written) an empty index array in the slicer. */
  datatype Failure =
    | RefsFailed(refError: RefError)
    | ReprojectFailed(reprojectError: ReprojectError)
    | SliceFailed(sliceError: SliceError)

  /** The outcome of one (segment, reference) pair. */
  datatype StepResult = Skip | Emit(out: Output) | Fail(error: Failure)

  /** The geodesic azimuth from A to B in degrees (pygc's Vincenty solution). */
  type Azimuth = (real, real, real, real) -> real

  /** A projection: oblique Mercator parameters, longitude and latitude to metres. */
  type Projection = (Omerc, real, real) -> XY

  /** The filter of gps_xyt.py:18. */
  predicate IsGpxEntry(e: DirEntry) {
    EndsWith(e.name, ".gpx") && e.isFile
  }

  /** The `.gpx` file names of a listing, in listing order. */
  function GpxFileNames(entries: seq<DirEntry>): (names: seq<string>)
    ensures forall n :: n in names <==> exists k :: 0 <= k < |entries| && entries[k].name == n && IsGpxEntry(entries[k])
    ensures |names| <= |entries|
  {
    if entries == [] then []
    else
      var init, last := entries[..|entries| - 1], entries[|entries| - 1];
      assert forall k :: 0 <= k < |init| ==> init[k] == entries[k];
      GpxFileNames(init) + (if IsGpxEntry(last) then [last.name] else [])
  }

  /** The loop of gps_xyt.py:15-19 collecting the `.gpx` files. */
  method SelectGpxFiles(entries: seq<DirEntry>) returns (files: seq<string>)
    ensures files == GpxFileNames(entries)
  {
    files := [];
    for k := 0 to |entries|
      invariant files == GpxFileNames(entries[..k])
    {
      assert entries[..k + 1][..k] == entries[..k];
      if IsGpxEntry(entries[k]) {
        files := files + [entries[k].name];
      }
    }
    assert entries[..|entries|] == entries;
  }

  /** The segment records of the given files, file by file; each file's records
      are named after its stem (gps_xyt.py:44). */
  function AllSegments(files: seq<string>, parseGpx: string -> Gpx): (segs: seq<SegmentRecord>)
    ensures forall k :: 0 <= k < |segs| ==> WellFormed(segs[k])
  {
    if files == [] then []
    else
      var n := |files| - 1;
      AllSegments(files[..n], parseGpx) + Records(Stem(files[n]), parseGpx(files[n]).tracks)
  }

  /** One (segment, reference) pair, the body of the loop at gps_xyt.py:25-33. */
  function Step(seg: SegmentRecord, ref: Ref, azimuth: Azimuth, proj: Projection): (r: StepResult)
    requires WellFormed(seg)
    ensures r.Skip? <==> forall i :: 0 <= i < |seg.ts| ==> !InWindow(seg.ts[i], ref.interval.startT, ref.interval.endT)
    ensures r.Fail? ==> r.error == ReprojectFailed(UnsupportedGeometry)
                        && IsUnsupported(ref.aLat, azimuth(ref.aLat, ref.aLng, ref.bLat, ref.bLng))
    ensures r.Emit? ==> && r.out.prop == ref.prop && r.out.name == seg.name
                        && |r.out.xs| == |r.out.ys| == |r.out.ts| > 0
                        && forall k :: 0 <= k < |r.out.ts| ==> 0 <= r.out.ts[k] <= ref.interval.endT - ref.interval.startT
    ensures r.Emit? ==>
      var slice := ExtractRelTslice(seg.lats, seg.lngs, seg.ts, ref.interval.startT, ref.interval.endT);
      && r.out.ts == slice.tsRel
      && Reproject(proj, slice.lats, slice.lngs, ref.aLat, ref.aLng, azimuth(ref.aLat, ref.aLng, ref.bLat, ref.bLng))
         == Ok(Projected(r.out.xs, r.out.ys))
    ensures !r.Skip? && !IsUnsupported(ref.aLat, azimuth(ref.aLat, ref.aLng, ref.bLat, ref.bLng)) ==> r.Emit?
  {
    var slice := ExtractRelTslice(seg.lats, seg.lngs, seg.ts, ref.interval.startT, ref.interval.endT);
    if |slice.tsRel| == 0 then Skip
    else
      var alpha := azimuth(ref.aLat, ref.aLng, ref.bLat, ref.bLng);
      match Reproject(proj, slice.lats, slice.lngs, ref.aLat, ref.aLng, alpha)
      case Err(e) => Fail(ReprojectFailed(e))
      case Ok(p) => Emit(Output(ref.prop, seg.name, p.xs, p.ys, slice.tsRel))
  }

  /** The loop body as written: the slicer of gps_xyt.py:123-124 raises on an
      empty window, so the pair never reaches the `continue` of gps_xyt.py:27-29;
      with a sample in the window it does what `Step` does. */
  function StepAsWritten(seg: SegmentRecord, ref: Ref, azimuth: Azimuth, proj: Projection): (r: StepResult)
    requires WellFormed(seg)
    ensures !r.Skip?
    ensures r == if forall i :: 0 <= i < |seg.ts| ==> !InWindow(seg.ts[i], ref.interval.startT, ref.interval.endT)
                 then Fail(SliceFailed(IndexArrayNotInteger))
                 else Step(seg, ref, azimuth, proj)
  {
    match ExtractRelTsliceAsWritten(seg.lats, seg.lngs, seg.ts, ref.interval.startT, ref.interval.endT)
    case Err(e) => Fail(SliceFailed(e))
    case Ok(slice) =>
      if |slice.tsRel| == 0 then Skip
      else
        var alpha := azimuth(ref.aLat, ref.aLng, ref.bLat, ref.bLng);
        match Reproject(proj, slice.lats, slice.lngs, ref.aLat, ref.aLng, alpha)
        case Err(e) => Fail(ReprojectFailed(e))
        case Ok(p) => Emit(Output(ref.prop, seg.name, p.xs, p.ys, slice.tsRel))
  }

  /** Every segment of a pair list is well formed. */
  predicate AllWellFormed(pairs: seq<(SegmentRecord, Ref)>) {
    forall k :: 0 <= k < |pairs| ==> WellFormed(pairs[k].0)
  }

  /** The pairs in loop order: for each segment, every reference. */
  function Pairs(segs: seq<SegmentRecord>, refs: seq<Ref>): (pairs: seq<(SegmentRecord, Ref)>)
    ensures (forall k :: 0 <= k < |segs| ==> WellFormed(segs[k])) ==> AllWellFormed(pairs)
  {
    if segs == [] then [] else Row(segs[0], refs) + Pairs(segs[1..], refs)
  }

  /** One segment paired with every reference. */
  function Row(seg: SegmentRecord, refs: seq<Ref>): (row: seq<(SegmentRecord, Ref)>)
    ensures |row| == |refs| && forall j :: 0 <= j < |refs| ==> row[j] == (seg, refs[j])
  {
    seq(|refs|, j requires 0 <= j < |refs| => (seg, refs[j]))
  }

  /** The artifacts written and the exception, if any, that ended the run. */
  datatype Run = Run(written: seq<Output>, failure: Option<Failure>)

  function Prepend(ws: seq<Output>, r: Run): Run {
    Run(ws + r.written, r.failure)
  }

  /** The file an artifact is written to, `<out>/<prop>/<name>.csv` (gps_xyt.py:177-178). */
  function Key(o: Output): (string, string) {
    (o.prop, o.name)
  }

  /** The CSV files left in the output directory after the writes `ws`, in order,
      keyed by `(prop, name)`: each write overwrites the file of the same key, so a
      key holds the last artifact written to it. Keys stand for files only where
      distinct keys join to distinct paths. */
  function Files(ws: seq<Output>): (files: map<(string, string), Output>)
    ensures forall key :: key in files <==> exists i :: 0 <= i < |ws| && Key(ws[i]) == key
    ensures forall key :: key in files ==> Key(files[key]) == key && files[key] in ws
  {
    if ws == [] then map[]
    else
      var init := ws[..|ws| - 1];
      assert forall i :: 0 <= i < |init| ==> init[i] == ws[i];
      Files(init)[Key(ws[|ws| - 1]) := ws[|ws| - 1]]
  }

  /** A file holds the artifact of the last write to its key: an earlier artifact
      with the same key, such as that of a colliding segment identity or of a
      second axis carrying the same property, does not survive. */
  lemma {:induction false} FilesHoldLastWrite(ws: seq<Output>, i: nat)
    requires i < |ws|
    requires forall j :: i < j < |ws| ==> Key(ws[j]) != Key(ws[i])
    ensures Files(ws)[Key(ws[i])] == ws[i]
    decreases |ws|
  {
    if i < |ws| - 1 {
      var init := ws[..|ws| - 1];
      assert init[i] == ws[i];
      FilesHoldLastWrite(init, i);
    }
  }

  /** The body of the pair loop as a value: defined on every pair whose segment is well formed. */
  type PairStep = (SegmentRecord, Ref) --> StepResult

  ghost predicate Applicable(step: PairStep) {
    forall seg, ref :: WellFormed(seg) ==> step.requires(seg, ref)
  }

  /** `Step` with the azimuth and the projection of a run fixed. */
  function StepWith(azimuth: Azimuth, proj: Projection): (step: PairStep)
    ensures Applicable(step)
    ensures forall seg, ref :: WellFormed(seg) ==> step(seg, ref) == Step(seg, ref, azimuth, proj)
  {
    (seg: SegmentRecord, ref: Ref) requires WellFormed(seg) => Step(seg, ref, azimuth, proj)
  }

  /** `StepAsWritten` with the azimuth and the projection of a run fixed. */
  function StepAsWrittenWith(azimuth: Azimuth, proj: Projection): (step: PairStep)
    ensures Applicable(step)
    ensures forall seg, ref :: WellFormed(seg) ==> step(seg, ref) == StepAsWritten(seg, ref, azimuth, proj)
  {
    (seg: SegmentRecord, ref: Ref) requires WellFormed(seg) => StepAsWritten(seg, ref, azimuth, proj)
  }

  /** The outcome of every pair, in order. */
  function Steps(pairs: seq<(SegmentRecord, Ref)>, step: PairStep): (steps: seq<StepResult>)
    requires AllWellFormed(pairs) && Applicable(step)
    ensures |steps| == |pairs|
  {
    if pairs == [] then [] else [step(pairs[0].0, pairs[0].1)] + Steps(pairs[1..], step)
  }

  /** The outcome at position `k` is that of the pair at position `k`. */
  lemma {:induction false} StepsAt(pairs: seq<(SegmentRecord, Ref)>, step: PairStep, k: nat)
    requires AllWellFormed(pairs) && Applicable(step) && k < |pairs|
    ensures Steps(pairs, step)[k] == step(pairs[k].0, pairs[k].1)
    decreases k
  {
    if k > 0 {
      StepsAt(pairs[1..], step, k - 1);
    }
  }

  /** Acting on outcomes in order: skips write nothing, an artifact is written,
      and the first error ends the run with what was written so far. */
  function RunSteps(steps: seq<StepResult>): (r: Run)
    ensures r.failure.Some? <==> exists j :: 0 <= j < |steps| && steps[j].Fail?
    ensures r.failure.Some? ==> exists j :: 0 <= j < |steps| && steps[j] == Fail(r.failure.value)
    ensures |r.written| <= |steps|
  {
    if steps == [] then Run([], None)
    else match steps[0]
      case Skip => RunSteps(steps[1..])
      case Emit(o) => Prepend([o], RunSteps(steps[1..]))
      case Fail(e) => Run([], Some(e))
  }

  /** The artifacts of all outcomes that carry one, in order, as if nothing failed. */
  function Emitted(steps: seq<StepResult>): (outs: seq<Output>)
    ensures forall o :: o in outs <==> Emit(o) in steps
  {
    if steps == [] then []
    else
      var rest := Emitted(steps[1..]);
      assert forall s :: s in steps <==> s == steps[0] || s in steps[1..];
      match steps[0]
      case Emit(o) => [o] + rest
      case _ => rest
  }

  /** The position of the first outcome that is an error, or `|steps|` when none is. */
  function FailIndex(steps: seq<StepResult>): (k: nat)
    ensures k <= |steps|
    ensures forall j :: 0 <= j < k ==> !steps[j].Fail?
    ensures k < |steps| ==> steps[k].Fail?
  {
    if steps == [] then 0
    else if steps[0].Fail? then 0
    else 1 + FailIndex(steps[1..])
  }

  /** The first failing outcome is at `k` when the outcome at `k` fails and none before it does. */
  lemma {:induction false} FailIndexAt(steps: seq<StepResult>, k: nat)
    requires k < |steps| && steps[k].Fail?
    requires forall j :: 0 <= j < k ==> !steps[j].Fail?
    ensures FailIndex(steps) == k
    decreases k
  {
    if k > 0 {
      FailIndexAt(steps[1..], k - 1);
    }
  }

  /** A run writes the artifacts of the outcomes before the first error and fails
      with that error; with no error it writes every artifact and does not fail. */
  lemma {:induction false} RunStepsExact(steps: seq<StepResult>)
    ensures var k := FailIndex(steps);
      RunSteps(steps) == Run(Emitted(steps[..k]), if k < |steps| then Some(steps[k].error) else None)
    decreases |steps|
  {
    if steps != [] {
      var k := FailIndex(steps);
      if !steps[0].Fail? {
        var tail := steps[1..];
        RunStepsExact(tail);
        var k' := FailIndex(tail);
        assert k == k' + 1;
        assert steps[..k][1..] == tail[..k'];
        assert steps[..k][0] == steps[0];
      } else {
        assert steps[..0] == [];
      }
    }
  }

  /** Running two lists of outcomes one after the other: the second is acted on
      only if the first did not fail. */
  lemma {:induction false} RunStepsAppend(a: seq<StepResult>, b: seq<StepResult>)
    ensures RunSteps(a + b)
         == if RunSteps(a).failure.Some? then RunSteps(a) else Prepend(RunSteps(a).written, RunSteps(b))
    decreases |a|
  {
    if a == [] {
      assert a + b == b;
    } else {
      assert (a + b)[1..] == a[1..] + b;
      assert (a + b)[0] == a[0];
      RunStepsAppend(a[1..], b);
    }
  }

  /** The whole of `gps_to_xyt` as a value. */
  function GpsToXytSpec(entries: seq<DirEntry>, parseGpx: string -> Gpx, features: seq<Feature>,
                        parse: string -> Option<Interval>, azimuth: Azimuth, proj: Projection): (r: Run)
    ensures r.written != [] ==> ExtractRefs(features, parse).Ok?
    ensures ExtractRefs(features, parse).Err? ==> r.failure == Some(RefsFailed(ExtractRefs(features, parse).error))
    ensures ExtractRefs(features, parse).Ok? && GpxFileNames(entries) == [] ==> r == Run([], None)
  {
    match ExtractRefs(features, parse)
    case Err(e) => Run([], Some(RefsFailed(e)))
    case Ok(refs) => RunSteps(Steps(Pairs(AllSegments(GpxFileNames(entries), parseGpx), refs), StepWith(azimuth, proj)))
  }

  /** Exactly the combinations of a segment and a reference are visited. */
  lemma {:induction false} PairsMembership(segs: seq<SegmentRecord>, refs: seq<Ref>, seg: SegmentRecord, ref: Ref)
    ensures (seg, ref) in Pairs(segs, refs) <==> seg in segs && ref in refs
    decreases |segs|
  {
    if segs != [] {
      PairsMembership(segs[1..], refs, seg, ref);
      var row := Row(segs[0], refs);
      if ref in refs {
        var j :| 0 <= j < |refs| && refs[j] == ref;
        assert row[j] == (segs[0], ref);
      }
      assert seg in segs <==> seg == segs[0] || seg in segs[1..];
    }
  }

  /** An artifact is written for a pair exactly when its slice is non-empty and its
      geometry supported, keyed by the pair's `(prop, name)`; a run that does not fail
      writes the artifact of every such pair. */
  lemma WrittenExact(pairs: seq<(SegmentRecord, Ref)>, azimuth: Azimuth, proj: Projection, o: Output)
    requires AllWellFormed(pairs)
    ensures RunSteps(Steps(pairs, StepWith(azimuth, proj))).failure.None? ==>
      (o in RunSteps(Steps(pairs, StepWith(azimuth, proj))).written <==>
       exists k :: 0 <= k < |pairs| && Step(pairs[k].0, pairs[k].1, azimuth, proj) == Emit(o))
  {
    var step := StepWith(azimuth, proj);
    WrittenExactFor(pairs, step, o);
    if exists k :: 0 <= k < |pairs| && step(pairs[k].0, pairs[k].1) == Emit(o) {
      var k :| 0 <= k < |pairs| && step(pairs[k].0, pairs[k].1) == Emit(o);
      assert Step(pairs[k].0, pairs[k].1, azimuth, proj) == Emit(o);
    }
  }

  /** Some sample of the segment lies in the reference's interval. */
  predicate WindowHasSample(seg: SegmentRecord, ref: Ref) {
    exists i :: 0 <= i < |seg.ts| && InWindow(seg.ts[i], ref.interval.startT, ref.interval.endT)
  }

  /** The driver as written completes only when every (segment, reference) pair
      has a sample in its interval: a pair without one raises `IndexError`. */
  lemma AsWrittenRunNeedsSampleInEveryWindow(pairs: seq<(SegmentRecord, Ref)>, azimuth: Azimuth, proj: Projection, k: nat)
    requires AllWellFormed(pairs) && k < |pairs|
    requires !WindowHasSample(pairs[k].0, pairs[k].1)
    ensures RunSteps(Steps(pairs, StepAsWrittenWith(azimuth, proj))).failure.Some?
  {
    var step := StepAsWrittenWith(azimuth, proj);
    var steps := Steps(pairs, step);
    StepsAt(pairs, step, k);
    assert steps[k] == Fail(SliceFailed(IndexArrayNotInteger));
  }

  /** A run ends at the first failing outcome, with that outcome's error. */
  lemma RunStopsAtFirstFailure(pairs: seq<(SegmentRecord, Ref)>, step: PairStep, k: nat)
    requires AllWellFormed(pairs) && Applicable(step) && k < |pairs|
    requires forall j :: 0 <= j < k ==> !step(pairs[j].0, pairs[j].1).Fail?
    requires step(pairs[k].0, pairs[k].1).Fail?
    ensures var steps := Steps(pairs, step);
      RunSteps(steps) == Run(Emitted(steps[..k]), Some(step(pairs[k].0, pairs[k].1).error))
  {
    var steps := Steps(pairs, step);
    forall j | 0 <= j <= k
      ensures steps[j] == step(pairs[j].0, pairs[j].1)
    {
      StepsAt(pairs, step, j);
    }
    FailIndexAt(steps, k);
    RunStepsExact(steps);
  }

  /** As written, the first pair whose interval holds no sample ends the run
      with the slicer's error, keeping what was written before it. */
  lemma AsWrittenRunStopsAtEmptyWindow(pairs: seq<(SegmentRecord, Ref)>, azimuth: Azimuth, proj: Projection, k: nat)
    requires AllWellFormed(pairs) && k < |pairs|
    requires forall j :: 0 <= j < k ==> !StepAsWritten(pairs[j].0, pairs[j].1, azimuth, proj).Fail?
    requires !WindowHasSample(pairs[k].0, pairs[k].1)
    ensures var steps := Steps(pairs, StepAsWrittenWith(azimuth, proj));
      RunSteps(steps) == Run(Emitted(steps[..k]), Some(SliceFailed(IndexArrayNotInteger)))
  {
    var step := StepAsWrittenWith(azimuth, proj);
    assert step(pairs[k].0, pairs[k].1) == Fail(SliceFailed(IndexArrayNotInteger));
    RunStopsAtFirstFailure(pairs, step, k);
  }

  /** `WrittenExact` for any step value. */
  lemma WrittenExactFor(pairs: seq<(SegmentRecord, Ref)>, step: PairStep, o: Output)
    requires AllWellFormed(pairs) && Applicable(step)
    ensures RunSteps(Steps(pairs, step)).failure.None? ==>
      (o in RunSteps(Steps(pairs, step)).written <==>
       exists k :: 0 <= k < |pairs| && step(pairs[k].0, pairs[k].1) == Emit(o))
  {
    var steps := Steps(pairs, step);
    RunStepsExact(steps);
    assert steps[..|steps|] == steps;
    if Emit(o) in steps {
      var k :| 0 <= k < |steps| && steps[k] == Emit(o);
      StepsAt(pairs, step, k);
    }
    if exists k :: 0 <= k < |pairs| && step(pairs[k].0, pairs[k].1) == Emit(o) {
      var k :| 0 <= k < |pairs| && step(pairs[k].0, pairs[k].1) == Emit(o);
      StepsAt(pairs, step, k);
    }
  }

  /** The segments of all files, loaded one file after another. */
  method LoadSegments(files: seq<string>, parseGpx: string -> Gpx) returns (segs: seq<SegmentRecord>)
    ensures segs == AllSegments(files, parseGpx)
  {
    segs := [];
    for f := 0 to |files|
      invariant segs == AllSegments(files[..f], parseGpx)
    {
      var records := LoadGpx(Stem(files[f]), parseGpx(files[f]));
      assert files[..f + 1][..f] == files[..f];
      segs := segs + records;
    }
    assert files[..|files|] == files;
  }

  /** The outcomes of two pair lists one after the other. */
  lemma {:induction false} StepsAppend(a: seq<(SegmentRecord, Ref)>, b: seq<(SegmentRecord, Ref)>, step: PairStep)
    requires AllWellFormed(a) && AllWellFormed(b) && Applicable(step)
    ensures AllWellFormed(a + b)
    ensures Steps(a + b, step) == Steps(a, step) + Steps(b, step)
    decreases |a|
  {
    if a == [] {
      assert a + b == b;
    } else {
      assert (a + b)[0] == a[0];
      assert (a + b)[1..] == a[1..] + b;
      StepsAppend(a[1..], b, step);
    }
  }

  lemma PrependTwice(a: seq<Output>, b: seq<Output>, r: Run)
    ensures Prepend(a, Prepend(b, r)) == Prepend(a + b, r)
  {
    assert a + (b + r.written) == (a + b) + r.written;
  }

  /** The outcomes of the pairs from segment `s` on: that segment's row, then the rest. */
  lemma StepsOfPairsFrom(segs: seq<SegmentRecord>, refs: seq<Ref>, s: nat, step: PairStep)
    requires forall k :: 0 <= k < |segs| ==> WellFormed(segs[k])
    requires Applicable(step) && s < |segs|
    ensures Steps(Pairs(segs[s..], refs), step)
         == Steps(Row(segs[s], refs), step) + Steps(Pairs(segs[s + 1..], refs), step)
  {
    assert segs[s..][1..] == segs[s + 1..];
    var row, later := Row(segs[s], refs), Pairs(segs[s + 1..], refs);
    assert Pairs(segs[s..], refs) == row + later;
    StepsAppend(row, later, step);
  }

  /** Acting on the outcomes from position `r` on: the outcome at `r`, then the rest. */
  lemma RunStepsFrom(steps: seq<StepResult>, r: nat)
    requires r < |steps|
    ensures RunSteps(steps[r..]) == match steps[r]
      case Skip => RunSteps(steps[r + 1..])
      case Emit(o) => Prepend([o], RunSteps(steps[r + 1..]))
      case Fail(e) => Run([], Some(e))
  {
    assert steps[r..][0] == steps[r];
    assert steps[r..][1..] == steps[r + 1..];
  }

  /** The innermost loop (gps_xyt.py:25-33): one segment against every reference. */
  method ProcessRow(seg: SegmentRecord, refs: seq<Ref>, step: PairStep)
    returns (written: seq<Output>, failure: Option<Failure>)
    requires WellFormed(seg) && Applicable(step)
    ensures Run(written, failure) == RunSteps(Steps(Row(seg, refs), step))
  {
    ghost var steps := Steps(Row(seg, refs), step);
    assert steps[0..] == steps;
    written := [];
    for r := 0 to |refs|
      invariant RunSteps(steps) == Prepend(written, RunSteps(steps[r..]))
    {
      var outcome := step(seg, refs[r]);
      StepsAt(Row(seg, refs), step, r);
      RunStepsFrom(steps, r);
      match outcome
      case Skip =>
      case Emit(o) =>
        PrependTwice(written, [o], RunSteps(steps[r + 1..]));
        written := written + [o];
      case Fail(e) =>
        return written, Some(e);
    }
    failure := None;
  }

  /** The loops of gps_xyt.py:24-33 over segments and references. */
  method ProcessPairs(segs: seq<SegmentRecord>, refs: seq<Ref>, step: PairStep)
    returns (written: seq<Output>, failure: Option<Failure>)
    requires forall k :: 0 <= k < |segs| ==> WellFormed(segs[k])
    requires Applicable(step)
    ensures Run(written, failure) == RunSteps(Steps(Pairs(segs, refs), step))
  {
    ghost var all := Steps(Pairs(segs, refs), step);
    assert segs[0..] == segs;
    written := [];
    for s := 0 to |segs|
      invariant RunSteps(all) == Prepend(written, RunSteps(Steps(Pairs(segs[s..], refs), step)))
    {
      StepsOfPairsFrom(segs, refs, s, step);
      RunStepsAppend(Steps(Row(segs[s], refs), step), Steps(Pairs(segs[s + 1..], refs), step));
      var rowWritten, rowFailure := ProcessRow(segs[s], refs, step);
      written := written + rowWritten;
      if rowFailure.Some? {
        return written, rowFailure;
      }
    }
    failure := None;
  }

  /** `gps_to_xyt`: collect the files, list the references, load the segments,
      then visit every (segment, reference) pair. */
  method GpsToXyt(entries: seq<DirEntry>, parseGpx: string -> Gpx, features: seq<Feature>,
                  parse: string -> Option<Interval>, azimuth: Azimuth, proj: Projection)
    returns (written: seq<Output>, failure: Option<Failure>)
    ensures Run(written, failure) == GpsToXytSpec(entries, parseGpx, features, parse, azimuth, proj)
  {
    var files := SelectGpxFiles(entries);
    var listed := ExtractRefs(features, parse);
    if listed.Err? {
      return [], Some(RefsFailed(listed.error));
    }
    var segs := LoadSegments(files, parseGpx);
    written, failure := ProcessPairs(segs, listed.value, StepWith(azimuth, proj));
  }

  /** A segment with samples at -10, 5 and 50 seconds against an event window
      [0, 30] on an axis of bearing 45: only the sample at 5 is kept, and exactly one
      artifact is written, with relative time 5 and that sample projected with the
      axis start as origin and bearing 45. */
  lemma SingleWindowScenario(proj: Projection, azimuth: Azimuth)
    requires azimuth(10.0, 20.0, 11.0, 21.0) == 45.0
    ensures var seg := SegmentRecord("run-track0-segment0", [1.0, 2.0, 3.0], [4.0, 5.0, 6.0], [-10, 5, 50]);
            var ref := Ref("race", 10.0, 20.0, 11.0, 21.0, Interval(0, 30));
            var r := RunSteps(Steps(Pairs([seg], [ref]), StepWith(azimuth, proj)));
            && r.failure.None?
            && |r.written| == 1
            && r.written[0].prop == "race" && r.written[0].name == "run-track0-segment0"
            && r.written[0].ts == [5]
            && r.written[0].xs == [proj(Omerc(10.0, 20.0, 45.0), 5.0, 2.0).x]
            && r.written[0].ys == [proj(Omerc(10.0, 20.0, 45.0), 5.0, 2.0).y]
  {
    var seg := SegmentRecord("run-track0-segment0", [1.0, 2.0, 3.0], [4.0, 5.0, 6.0], [-10, 5, 50]);
    var ref := Ref("race", 10.0, 20.0, 11.0, 21.0, Interval(0, 30));
    var p := proj(Omerc(10.0, 20.0, 45.0), 5.0, 2.0);
    var step := StepWith(azimuth, proj);
    ScenarioStep(proj, azimuth);
    assert Pairs([seg], [ref]) == [(seg, ref)];
    assert Steps([(seg, ref)], step) == [Emit(Output("race", "run-track0-segment0", [p.x], [p.y], [5]))];
  }

  /** The one pair of `SingleWindowScenario`. */
  lemma ScenarioStep(proj: Projection, azimuth: Azimuth)
    requires azimuth(10.0, 20.0, 11.0, 21.0) == 45.0
    ensures var p := proj(Omerc(10.0, 20.0, 45.0), 5.0, 2.0);
      Step(SegmentRecord("run-track0-segment0", [1.0, 2.0, 3.0], [4.0, 5.0, 6.0], [-10, 5, 50]),
           Ref("race", 10.0, 20.0, 11.0, 21.0, Interval(0, 30)), azimuth, proj)
      == Emit(Output("race", "run-track0-segment0", [p.x], [p.y], [5]))
  {
    var seg := SegmentRecord("run-track0-segment0", [1.0, 2.0, 3.0], [4.0, 5.0, 6.0], [-10, 5, 50]);
    var p := proj(Omerc(10.0, 20.0, 45.0), 5.0, 2.0);
    assert ExtractRelTslice(seg.lats, seg.lngs, seg.ts, 0, 30) == Slice([2.0], [5.0], [5]) by {
      KeptIndicesUnique(seg.ts, 0, 30, [1]);
    }
    assert Reproject(proj, [2.0], [5.0], 10.0, 20.0, 45.0) == Ok(Projected([p.x], [p.y])) by {
      assert Classify(10.0, 45.0) == Standard;
      var r := Reproject(proj, [2.0], [5.0], 10.0, 20.0, 45.0);
      assert XY(r.value.xs[0], r.value.ys[0]) == p;
      assert r.value.xs == [p.x] && r.value.ys == [p.y];
    }
  }
}
