/** The two filters applied before plotting: conditions whose averaged data
    hold a NaN are dropped, and markers whose onset lies outside the recorded
    time range are dropped. */
module Validity {
  import opened Bytes
  import opened Seqs
  import opened Markers

  /** A dictionary in insertion order, as Python iterates it: its keys are distinct. */
  predicate DistinctKeys<K(==), V>(d: seq<(K, V)>) {
    forall i, j :: 0 <= i < j < |d| ==> d[i].0 != d[j].0
  }

  /** `check_for_nans`: keep the conditions whose data hold no NaN, in their
      original order. Whether a data set holds a NaN is the parameter `hasNaN`. */
  method CheckForNaNs<V(==)>(evokedDict: seq<(string, V)>, hasNaN: V -> bool) returns (valid: seq<(string, V)>)
    ensures valid == Filter(evokedDict, (e: (string, V)) => !hasNaN(e.1))
  {
    valid := [];
    for i := 0 to |evokedDict|
      invariant valid == Filter(evokedDict[..i], (e: (string, V)) => !hasNaN(e.1))
    {
      var (cond, evoked) := evokedDict[i];
      assert evokedDict[..i + 1][..i] == evokedDict[..i];
      if !hasNaN(evoked) {
        valid := valid + [(cond, evoked)];
      }
    }
    assert evokedDict[..|evokedDict|] == evokedDict;
  }

  /** A condition survives exactly when it was present with NaN-free data. */
  lemma NaNFilterMembership<V>(evokedDict: seq<(string, V)>, hasNaN: V -> bool, cond: string, evoked: V)
    ensures (cond, evoked) in Filter(evokedDict, (e: (string, V)) => !hasNaN(e.1))
            <==> (cond, evoked) in evokedDict && !hasNaN(evoked)
  {
    FilterMembership(evokedDict, (e: (string, V)) => !hasNaN(e.1), (cond, evoked));
  }

  /** Filtering a dictionary gives a dictionary: no key appears twice. */
  lemma {:induction false} FilterKeepsDistinctKeys<V>(d: seq<(string, V)>, keep: ((string, V)) -> bool)
    requires DistinctKeys(d)
    ensures DistinctKeys(Filter(d, keep))
    decreases |d|
  {
    if d != [] {
      var init := d[..|d| - 1];
      var last := d[|d| - 1];
      assert DistinctKeys(init);
      FilterKeepsDistinctKeys(init, keep);
      var r0 := Filter(init, keep);
      if keep(last) {
        forall k | 0 <= k < |r0|
          ensures r0[k].0 != last.0
        {
          var j :| 0 <= j < |init| && init[j] == r0[k];
        }
      }
    }
  }

  /** The NaN-free conditions form a dictionary ordered as the input. */
  lemma NaNFilterShape<V>(evokedDict: seq<(string, V)>, hasNaN: V -> bool)
    requires DistinctKeys(evokedDict)
    ensures DistinctKeys(Filter(evokedDict, (e: (string, V)) => !hasNaN(e.1)))
    ensures IsSubseq(Filter(evokedDict, (e: (string, V)) => !hasNaN(e.1)), evokedDict)
  {
    FilterKeepsDistinctKeys(evokedDict, (e: (string, V)) => !hasNaN(e.1));
    FilterIsSubseq(evokedDict, (e: (string, V)) => !hasNaN(e.1));
  }

  /** `raw.times[-1]`: the time of the last sample, absent for an empty recording. */
  function LastTime(nSamples: nat): (t: Option<real>)
    ensures t.Some? <==> nSamples > 0
    ensures t.Some? ==> t.value * SFreq == (nSamples - 1) as real
  {
    if nSamples == 0 then None else Some((nSamples - 1) as real / SFreq)
  }

  /** `0 <= on <= raw.times[-1]`. */
  predicate WithinRecording(m: Marker, lastTime: real) {
    0.0 <= Onset(m) <= lastTime
  }

  /** The markers inside the recorded time range, in order. The comprehension
      reads `raw.times[-1]` once per marker, so it fails (`None`) only when
      there is a marker to test and the recording has no sample. */
  function ValidMarkers(markers: seq<Marker>, nSamples: nat): (r: Option<seq<Marker>>)
    ensures r.Some? <==> nSamples > 0 || markers == []
  {
    if markers == [] then Some([])
    else match LastTime(nSamples)
      case None => None
      case Some(last) => Some(Filter(markers, m => WithinRecording(m, last)))
  }

  /** The range test of line 121 on sample indices: the marker's sample lies
      inside a recording of `nSamples` samples. */
  function InRange(nSamples: nat): Marker -> bool {
    (m: Marker) => m.sampleIndex < nSamples
  }

  /** The time test is a sample test: a marker is inside the recording
      exactly when its sample index is below the number of samples. */
  lemma WithinRecordingIff(m: Marker, nSamples: nat)
    requires nSamples > 0
    ensures WithinRecording(m, LastTime(nSamples).value) <==> m.sampleIndex < nSamples
  {
  }

  /** The kept markers are exactly the input markers with a sample index
      below the number of samples, in their original order, repeats included. */
  lemma ValidMarkersSpec(markers: seq<Marker>, nSamples: nat)
    requires nSamples > 0 || markers == []
    ensures var r := ValidMarkers(markers, nSamples).value;
            && r == Filter(markers, InRange(nSamples))
            && IsSubseq(r, markers)
            && (forall k :: 0 <= k < |r| ==> r[k].sampleIndex < nSamples)
            && (forall m :: m in r <==> m in markers && m.sampleIndex < nSamples)
  {
    if markers == [] {
      return;
    }
    var last := LastTime(nSamples).value;
    var keep := m => WithinRecording(m, last);
    FilterIsSubseq(markers, keep);
    forall m
      ensures m in Filter(markers, keep) <==> m in markers && m.sampleIndex < nSamples
    {
      FilterMembership(markers, keep, m);
      WithinRecordingIff(m, nSamples);
    }
    forall k | 0 <= k < |Filter(markers, keep)|
      ensures Filter(markers, keep)[k].sampleIndex < nSamples
    {
      WithinRecordingIff(Filter(markers, keep)[k], nSamples);
    }
    forall k | 0 <= k < |markers|
      ensures keep(markers[k]) == InRange(nSamples)(markers[k])
    {
      WithinRecordingIff(markers[k], nSamples);
    }
    FilterCongruent(markers, keep, InRange(nSamples));
  }

  /** When every marker lies inside the recording, none is dropped. */
  lemma AllWithinKept(markers: seq<Marker>, nSamples: nat)
    requires forall k :: 0 <= k < |markers| ==> markers[k].sampleIndex < nSamples
    ensures ValidMarkers(markers, nSamples) == Some(markers)
  {
    if markers == [] {
      return;
    }
    assert markers[0].sampleIndex < nSamples;
    var last := LastTime(nSamples).value;
    forall k | 0 <= k < |markers|
      ensures WithinRecording(markers[k], last)
    {
      WithinRecordingIff(markers[k], nSamples);
    }
    FilterAllPass(markers, m => WithinRecording(m, last));
  }
}
