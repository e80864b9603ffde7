/** The GPX loader `_load_gpx` (gps_xyt.py:39-65): every segment of every track
    of a parsed GPX document becomes one record holding its identity and its
    latitude, longitude and timestamp columns. Reading and parsing the file are
    not modelled; the loader starts from the parsed document. */
module TrackStore {
  import opened Wrappers
  import opened Naming

  /** A track point as the loader reads it; `time` is in epoch seconds. */
  datatype GpxPoint = GpxPoint(latitude: real, longitude: real, time: int)

  datatype GpxSegment = GpxSegment(points: seq<GpxPoint>)

  /** A track; `name` is `None` when the document gives none. */
  datatype GpxTrack = GpxTrack(name: Option<string>, segments: seq<GpxSegment>)

  datatype Gpx = Gpx(tracks: seq<GpxTrack>)

  /** One tuple `name, lats, lngs, ts` yielded by the loader (gps_xyt.py:65). */
  datatype SegmentRecord = SegmentRecord(name: string, lats: seq<real>, lngs: seq<real>, ts: seq<int>)

  /** The three columns have one entry per point. */
  predicate WellFormed(r: SegmentRecord) {
    |r.lats| == |r.lngs| == |r.ts|
  }

  /** The columns built by the loop of gps_xyt.py:57-63. */
  method Columns(points: seq<GpxPoint>) returns (lats: seq<real>, lngs: seq<real>, ts: seq<int>)
    ensures |lats| == |points| && |lngs| == |points| && |ts| == |points|
    ensures forall i :: 0 <= i < |points| ==>
      lats[i] == points[i].latitude && lngs[i] == points[i].longitude && ts[i] == points[i].time
  {
    lats, lngs, ts := [], [], [];
    for i := 0 to |points|
      invariant |lats| == i && |lngs| == i && |ts| == i
      invariant forall j :: 0 <= j < i ==>
        lats[j] == points[j].latitude && lngs[j] == points[j].longitude && ts[j] == points[j].time
    {
      lats := lats + [points[i].latitude];
      lngs := lngs + [points[i].longitude];
      ts := ts + [points[i].time];
    }
  }

  /** The record the loader yields for segment `iS` of track `iT`. */
  function SegmentRecordAt(gpxName: string, iT: nat, track: GpxTrack, iS: nat): (r: SegmentRecord)
    requires iS < |track.segments|
    ensures WellFormed(r) && |r.ts| == |track.segments[iS].points|
  {
    var points := track.segments[iS].points;
    SegmentRecord(SegmentName(gpxName, TrackLabel(track.name, iT), iS),
                  seq(|points|, i requires 0 <= i < |points| => points[i].latitude),
                  seq(|points|, i requires 0 <= i < |points| => points[i].longitude),
                  seq(|points|, i requires 0 <= i < |points| => points[i].time))
  }

  /** The records of one track, segment by segment. */
  function TrackRecords(gpxName: string, iT: nat, track: GpxTrack): (rs: seq<SegmentRecord>)
    ensures |rs| == |track.segments|
    ensures forall iS :: 0 <= iS < |rs| ==> rs[iS] == SegmentRecordAt(gpxName, iT, track, iS)
  {
    seq(|track.segments|, iS requires 0 <= iS < |track.segments| => SegmentRecordAt(gpxName, iT, track, iS))
  }

  /** The records of the given tracks, track by track, in document order. */
  function Records(gpxName: string, tracks: seq<GpxTrack>): (rs: seq<SegmentRecord>)
    ensures forall k :: 0 <= k < |rs| ==> WellFormed(rs[k])
  {
    if tracks == [] then []
    else Records(gpxName, tracks[..|tracks| - 1]) + TrackRecords(gpxName, |tracks| - 1, tracks[|tracks| - 1])
  }

  /** Number of segments over all tracks. */
  function SegmentCount(tracks: seq<GpxTrack>): nat {
    if tracks == [] then 0 else SegmentCount(tracks[..|tracks| - 1]) + |tracks[|tracks| - 1].segments|
  }

  /** The columns built point by point make up the record of that segment. */
  lemma RecordOfColumns(gpxName: string, iT: nat, track: GpxTrack, iS: nat,
                        lats: seq<real>, lngs: seq<real>, ts: seq<int>)
    requires iS < |track.segments|
    requires var points := track.segments[iS].points;
      |lats| == |points| && |lngs| == |points| && |ts| == |points| &&
      forall i :: 0 <= i < |points| ==>
        lats[i] == points[i].latitude && lngs[i] == points[i].longitude && ts[i] == points[i].time
    ensures SegmentRecord(SegmentName(gpxName, TrackLabel(track.name, iT), iS), lats, lngs, ts)
         == SegmentRecordAt(gpxName, iT, track, iS)
  {
    var r := SegmentRecordAt(gpxName, iT, track, iS);
    assert r.lats == lats && r.lngs == lngs && r.ts == ts;
  }

  /** Extending a prefix by one element. */
  lemma PrefixGrows<T>(s: seq<T>, k: nat)
    requires k < |s|
    ensures s[..k + 1] == s[..k] + [s[k]]
  {
  }

  /** `_load_gpx` on a parsed document: nested loops over tracks and segments,
      one record appended per segment. */
  method LoadGpx(gpxName: string, gpx: Gpx) returns (records: seq<SegmentRecord>)
    ensures records == Records(gpxName, gpx.tracks)
  {
    records := [];
    for iT := 0 to |gpx.tracks|
      invariant records == Records(gpxName, gpx.tracks[..iT])
    {
      var track := gpx.tracks[iT];
      var trackName := TrackLabel(track.name, iT);
      for iS := 0 to |track.segments|
        invariant records == Records(gpxName, gpx.tracks[..iT]) + TrackRecords(gpxName, iT, track)[..iS]
      {
        var lats, lngs, ts := Columns(track.segments[iS].points);
        var record := SegmentRecord(SegmentName(gpxName, trackName, iS), lats, lngs, ts);
        RecordOfColumns(gpxName, iT, track, iS, lats, lngs, ts);
        PrefixGrows(TrackRecords(gpxName, iT, track), iS);
        records := records + [record];
      }
      assert gpx.tracks[..iT + 1][..iT] == gpx.tracks[..iT];
      assert TrackRecords(gpxName, iT, track)[..|track.segments|] == TrackRecords(gpxName, iT, track);
    }
    assert gpx.tracks[..|gpx.tracks|] == gpx.tracks;
  }

  /** One record per segment. */
  lemma {:induction false} RecordsCount(gpxName: string, tracks: seq<GpxTrack>)
    ensures |Records(gpxName, tracks)| == SegmentCount(tracks)
    decreases |tracks|
  {
    if tracks != [] {
      RecordsCount(gpxName, tracks[..|tracks| - 1]);
    }
  }

  /** The record of segment `iS` of track `iT` is among those yielded. */
  lemma {:induction false} RecordsComplete(gpxName: string, tracks: seq<GpxTrack>, iT: nat, iS: nat)
    requires iT < |tracks| && iS < |tracks[iT].segments|
    ensures SegmentRecordAt(gpxName, iT, tracks[iT], iS) in Records(gpxName, tracks)
    decreases |tracks|
  {
    var n := |tracks| - 1;
    if iT == n {
      assert TrackRecords(gpxName, n, tracks[n])[iS] == SegmentRecordAt(gpxName, iT, tracks[iT], iS);
    } else {
      var init := tracks[..n];
      assert init[iT] == tracks[iT];
      RecordsComplete(gpxName, init, iT, iS);
    }
  }

  /** Every yielded record is the record of some segment of some track. */
  lemma {:induction false} RecordsSound(gpxName: string, tracks: seq<GpxTrack>, r: SegmentRecord)
    requires r in Records(gpxName, tracks)
    ensures exists iT, iS :: 0 <= iT < |tracks| && 0 <= iS < |tracks[iT].segments|
                          && r == SegmentRecordAt(gpxName, iT, tracks[iT], iS)
    decreases |tracks|
  {
    var n := |tracks| - 1;
    var init := tracks[..n];
    if r in Records(gpxName, init) {
      RecordsSound(gpxName, init, r);
      var iT, iS :| 0 <= iT < |init| && 0 <= iS < |init[iT].segments|
                  && r == SegmentRecordAt(gpxName, iT, init[iT], iS);
      assert init[iT] == tracks[iT];
    } else {
      var rs := TrackRecords(gpxName, n, tracks[n]);
      var iS :| 0 <= iS < |rs| && rs[iS] == r;
    }
  }

  /** A record is yielded exactly when it is the record of some segment of some
      track: identity `<gpx>-<track label>-segment<i_s>` and that segment's columns. */
  lemma RecordsMembership(gpxName: string, tracks: seq<GpxTrack>, r: SegmentRecord)
    ensures r in Records(gpxName, tracks) <==>
      exists iT, iS :: 0 <= iT < |tracks| && 0 <= iS < |tracks[iT].segments|
                    && r == SegmentRecordAt(gpxName, iT, tracks[iT], iS)
  {
    if r in Records(gpxName, tracks) {
      RecordsSound(gpxName, tracks, r);
    }
    if exists iT, iS :: 0 <= iT < |tracks| && 0 <= iS < |tracks[iT].segments|
                     && r == SegmentRecordAt(gpxName, iT, tracks[iT], iS) {
      var iT, iS :| 0 <= iT < |tracks| && 0 <= iS < |tracks[iT].segments|
                  && r == SegmentRecordAt(gpxName, iT, tracks[iT], iS);
      RecordsComplete(gpxName, tracks, iT, iS);
    }
  }
}
