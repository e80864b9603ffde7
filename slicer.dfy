/** The temporal slicer `_extract_rel_tslice` (gps_xyt.py:111-124): keep the
    samples whose epoch second lies in the closed interval `[startT, endT]`, in
    their original order, and give each its time relative to `startT`.
    Timestamps are integer epoch seconds, the values `_to_epoch` produces. */
module Slicer {
  import opened Wrappers

  /** A timestamp lies in the closed interval (both ends inclusive). */
  predicate InWindow(t: int, startT: int, endT: int) {
    startT <= t && t <= endT
  }

  predicate StrictlyIncreasing(idx: seq<nat>) {
    forall k, l :: 0 <= k < l < |idx| ==> idx[k] < idx[l]
  }

  /** The indices `i >= from` of samples inside the window, in increasing order. */
  function KeptFrom(ts: seq<int>, startT: int, endT: int, from: nat): (idx: seq<nat>)
    requires from <= |ts|
    ensures forall k :: 0 <= k < |idx| ==> from <= idx[k] < |ts| && InWindow(ts[idx[k]], startT, endT)
    ensures forall i :: from <= i < |ts| && InWindow(ts[i], startT, endT) ==> i in idx
    ensures StrictlyIncreasing(idx)
    decreases |ts| - from
  {
    if from == |ts| then []
    else if InWindow(ts[from], startT, endT) then [from] + KeptFrom(ts, startT, endT, from + 1)
    else KeptFrom(ts, startT, endT, from + 1)
  }

  /** The index array `idx` of gps_xyt.py:123: exactly the positions whose
      timestamp is in the window, strictly increasing, so nothing is re-sorted. */
  function KeptIndices(ts: seq<int>, startT: int, endT: int): (idx: seq<nat>)
    ensures forall k :: 0 <= k < |idx| ==> idx[k] < |ts| && InWindow(ts[idx[k]], startT, endT)
    ensures forall i :: 0 <= i < |ts| ==> (i in idx <==> InWindow(ts[i], startT, endT))
    ensures StrictlyIncreasing(idx)
  {
    KeptFrom(ts, startT, endT, 0)
  }

  /** The three parallel outputs of the slicer. */
  datatype Slice = Slice(lats: seq<real>, lngs: seq<real>, tsRel: seq<int>)

  /** `_extract_rel_tslice` with an empty index array read as an empty selection. */
  function ExtractRelTslice(lats: seq<real>, lngs: seq<real>, ts: seq<int>, startT: int, endT: int): (r: Slice)
    requires |lats| == |lngs| == |ts|
    ensures |r.lats| == |r.lngs| == |r.tsRel| == |KeptIndices(ts, startT, endT)|
    ensures forall k :: 0 <= k < |r.tsRel| ==>
      var i := KeptIndices(ts, startT, endT)[k];
      r.lats[k] == lats[i] && r.lngs[k] == lngs[i] && r.tsRel[k] == ts[i] - startT
    ensures forall k :: 0 <= k < |r.tsRel| ==> 0 <= r.tsRel[k] <= endT - startT
    ensures r.tsRel == [] <==> forall i :: 0 <= i < |ts| ==> !InWindow(ts[i], startT, endT)
  {
    var idx := KeptIndices(ts, startT, endT);
    assert |idx| > 0 ==> idx[0] in idx;
    Slice(seq(|idx|, k requires 0 <= k < |idx| => lats[idx[k]]),
          seq(|idx|, k requires 0 <= k < |idx| => lngs[idx[k]]),
          seq(|idx|, k requires 0 <= k < |idx| => ts[idx[k]] - startT))
  }

  lemma HeadIsMember(b: seq<nat>)
    ensures |b| > 0 ==> b[0] in b
  {
  }

  /** Two strictly increasing index sequences with the same members are equal:
      the kept indices are determined by which samples lie in the window. */
  lemma {:induction false} IncreasingWithSameMembersEqual(a: seq<nat>, b: seq<nat>)
    requires StrictlyIncreasing(a) && StrictlyIncreasing(b)
    requires forall x :: x in a <==> x in b
    ensures a == b
    decreases |a|
  {
    if a == [] {
      HeadIsMember(b);
    } else {
      assert a[0] in b;
      assert b != [];
      assert b[0] in a;
      // Both heads are the least member.
      assert a[0] == b[0] by {
        var i :| 0 <= i < |b| && b[i] == a[0];
        var j :| 0 <= j < |a| && a[j] == b[0];
        assert b[0] <= b[i];
        assert a[0] <= a[j];
      }
      forall x ensures x in a[1..] <==> x in b[1..] {
        if x in a[1..] {
          assert x != a[0] && x in b;
          var j :| 0 <= j < |b| && b[j] == x;
          assert b[1..][j - 1] == x;
        }
        if x in b[1..] {
          assert x != b[0] && x in a;
          var j :| 0 <= j < |a| && a[j] == x;
          assert a[1..][j - 1] == x;
        }
      }
      IncreasingWithSameMembersEqual(a[1..], b[1..]);
      assert a == [a[0]] + a[1..] && b == [b[0]] + b[1..];
    }
  }

  /** Any strictly increasing selection of exactly the in-window positions is
      the slicer's index array: the slice is the window restriction of the
      track, in original order, and nothing else. */
  lemma KeptIndicesUnique(ts: seq<int>, startT: int, endT: int, idx: seq<nat>)
    requires StrictlyIncreasing(idx)
    requires forall k :: 0 <= k < |idx| ==> idx[k] < |ts|
    requires forall i :: 0 <= i < |ts| ==> (i in idx <==> InWindow(ts[i], startT, endT))
    ensures idx == KeptIndices(ts, startT, endT)
  {
    var kept := KeptIndices(ts, startT, endT);
    forall x ensures x in idx <==> x in kept {
      if x in idx {
        var k :| 0 <= k < |idx| && idx[k] == x;
      }
      if x in kept {
        var k :| 0 <= k < |kept| && kept[k] == x;
      }
    }
    IncreasingWithSameMembersEqual(idx, kept);
  }

  /** Why the slicer as written can fail: numpy rejects the index array. */
  datatype SliceError = IndexArrayNotInteger

  /** `_extract_rel_tslice` exactly as written. The comprehension of gps_xyt.py:123
      is wrapped in `np.array`; an empty list becomes a float64 array, and numpy
      raises `IndexError` when a float array is used as an index (gps_xyt.py:124).
      So the call fails precisely when no sample lies in the window. */
  function ExtractRelTsliceAsWritten(lats: seq<real>, lngs: seq<real>, ts: seq<int>, startT: int, endT: int)
    : (r: Result<Slice, SliceError>)
    requires |lats| == |lngs| == |ts|
    ensures r.Err? <==> forall i :: 0 <= i < |ts| ==> !InWindow(ts[i], startT, endT)
    ensures r.Ok? ==> r.value == ExtractRelTslice(lats, lngs, ts, startT, endT)
  {
    var idx := KeptIndices(ts, startT, endT);
    assert |idx| > 0 ==> idx[0] in idx;
    if idx == [] then Err(IndexArrayNotInteger) else Ok(ExtractRelTslice(lats, lngs, ts, startT, endT))
  }

  /** A sample outside the window: the written code raises where an empty slice
      was meant, so the caller's "no data for this time interval" branch
      (gps_xyt.py:27-29) is never taken. */
  lemma AsWrittenFailsOnEmptyWindow()
    ensures ExtractRelTsliceAsWritten([1.0], [2.0], [100], 0, 10).Err?
    ensures ExtractRelTslice([1.0], [2.0], [100], 0, 10) == Slice([], [], [])
  {
  }

  /** The corrected slicer agrees with the written one whenever the window holds
      a sample, and returns the empty slice exactly where the written one fails. */
  lemma CorrectedAgreesWhereWrittenSucceeds(lats: seq<real>, lngs: seq<real>, ts: seq<int>, startT: int, endT: int)
    requires |lats| == |lngs| == |ts|
    ensures ExtractRelTsliceAsWritten(lats, lngs, ts, startT, endT).Err?
        <==> ExtractRelTslice(lats, lngs, ts, startT, endT) == Slice([], [], [])
    ensures ExtractRelTsliceAsWritten(lats, lngs, ts, startT, endT).Ok?
        ==> ExtractRelTsliceAsWritten(lats, lngs, ts, startT, endT).value == ExtractRelTslice(lats, lngs, ts, startT, endT)
  {
    var r := ExtractRelTslice(lats, lngs, ts, startT, endT);
    if r.tsRel == [] {
      assert r.lats == [] && r.lngs == [];
    }
  }

  /** An interval whose end precedes its start selects nothing; it is not an error. */
  lemma ReversedIntervalIsEmpty(lats: seq<real>, lngs: seq<real>, ts: seq<int>, startT: int, endT: int)
    requires |lats| == |lngs| == |ts|
    requires endT < startT
    ensures ExtractRelTslice(lats, lngs, ts, startT, endT) == Slice([], [], [])
  {
  }
}
