/** Conversion of markers into an MNE-style event array: one row
    `[sample, 0, code]` per marker, with label codes 1, 2, 3, ... handed out
    in order of first appearance. */
module Events {
  import opened Markers

  /** One row of the event array. */
  datatype EventRow = EventRow(sample: int, middle: int, code: nat)

  /** Some marker of `ms` carries the label `t`. */
  ghost predicate HasLabel(ms: seq<Marker>, t: string) {
    exists k :: 0 <= k < |ms| && ms[k].text == t
  }

  /** The labels that occur among `ms`. */
  function LabelsOf(ms: seq<Marker>): (s: set<string>)
    ensures forall k :: 0 <= k < |ms| ==> ms[k].text in s
    decreases |ms|
  {
    if ms == [] then {} else LabelsOf(ms[..|ms| - 1]) + {ms[|ms| - 1].text}
  }

  /** Conversely, every collected label is the label of some marker. */
  lemma {:induction false} LabelsOfOccur(ms: seq<Marker>)
    ensures forall t :: t in LabelsOf(ms) ==> HasLabel(ms, t)
    decreases |ms|
  {
    if ms != [] {
      var init := ms[..|ms| - 1];
      LabelsOfOccur(init);
      forall t | t in LabelsOf(ms)
        ensures HasLabel(ms, t)
      {
        if t != ms[|ms| - 1].text {
          assert t in LabelsOf(init);
          assert HasLabel(init, t);
          var k :| 0 <= k < |init| && init[k].text == t;
          assert ms[k] == init[k];
        }
      }
    }
  }

  /** Reference definition of `event_id` after reading `ms`: a label met for
      the first time gets the next free code. */
  function CodesFor(ms: seq<Marker>): (codes: map<string, nat>)
    decreases |ms|
  {
    if ms == [] then map[]
    else
      var prev := CodesFor(ms[..|ms| - 1]);
      var t := ms[|ms| - 1].text;
      if t in prev then prev else prev[t := |prev| + 1]
  }

  /** The sample index `int(onset * sfreq)` of a marker. */
  function SampleOf(m: Marker): (s: int)
    ensures s == m.sampleIndex
  {
    (Onset(m) * SFreq).Floor
  }

  /** The codes are given to exactly the labels that occur. */
  lemma {:induction false} CodesKeys(ms: seq<Marker>)
    ensures CodesFor(ms).Keys == LabelsOf(ms)
    decreases |ms|
  {
    if ms != [] {
      CodesKeys(ms[..|ms| - 1]);
    }
  }

  /** `codes` has a label whose code is `c`. */
  ghost predicate HasCode(codes: map<string, nat>, c: nat) {
    exists t :: t in codes && codes[t] == c
  }

  /** The codes of `codes` are exactly 1 .. number of labels, each used once. */
  ghost predicate Dense(codes: map<string, nat>) {
    && (forall t :: t in codes ==> 1 <= codes[t] <= |codes|)
    && (forall t, u :: t in codes && u in codes && t != u ==> codes[t] != codes[u])
    && (forall c: nat :: 1 <= c <= |codes| ==> HasCode(codes, c))
  }

  lemma {:induction false} CodesDense(ms: seq<Marker>)
    ensures Dense(CodesFor(ms))
    decreases |ms|
  {
    if ms != [] {
      var prev := CodesFor(ms[..|ms| - 1]);
      var t := ms[|ms| - 1].text;
      CodesDense(ms[..|ms| - 1]);
      if t !in prev {
        var codes := prev[t := |prev| + 1];
        assert CodesFor(ms) == codes;
        assert |codes| == |prev| + 1;
        forall c: nat | 1 <= c <= |codes|
          ensures HasCode(codes, c)
        {
          if c <= |prev| {
            assert HasCode(prev, c);
            var u :| u in prev && prev[u] == c;
            assert u in codes && codes[u] == c;
          } else {
            assert t in codes && codes[t] == c;
          }
        }
      }
    }
  }

  /** Codes already handed out never change as more markers are read. */
  lemma {:induction false} CodesStable(ms: seq<Marker>, i: nat)
    requires i <= |ms|
    ensures forall t :: t in CodesFor(ms[..i]) ==> t in CodesFor(ms) && CodesFor(ms)[t] == CodesFor(ms[..i])[t]
    decreases |ms|
  {
    if i < |ms| {
      var init := ms[..|ms| - 1];
      assert init[..i] == ms[..i];
      CodesStable(init, i);
    } else {
      assert ms[..i] == ms;
    }
  }

  /** A label first met at marker `i` gets code 1 + the number of distinct
      labels before it. */
  lemma FirstSeenCode(ms: seq<Marker>, i: nat)
    requires i < |ms| && ms[i].text !in LabelsOf(ms[..i])
    ensures ms[i].text in CodesFor(ms)
    ensures CodesFor(ms)[ms[i].text] == |LabelsOf(ms[..i])| + 1
  {
    var p := ms[..i + 1];
    assert p[..i] == ms[..i];
    CodesKeys(ms[..i]);
    assert |CodesFor(ms[..i]).Keys| == |CodesFor(ms[..i])|;
    CodesStable(ms, i + 1);
  }

  /** A later occurrence of a label reuses that label's code. */
  lemma RepeatKeepsCode(ms: seq<Marker>, i: nat, j: nat)
    requires i < j < |ms| && ms[i].text == ms[j].text
    ensures ms[i].text in CodesFor(ms[..j])
    ensures CodesFor(ms[..j + 1]) == CodesFor(ms[..j])
  {
    assert ms[..j][i] == ms[i];
    CodesKeys(ms[..j]);
    assert ms[..j + 1][..j] == ms[..j];
  }

  /** `markers_to_events`: the event rows, in marker order, and `event_id`. */
  method MarkersToEvents(markers: seq<Marker>) returns (events: seq<EventRow>, eventId: map<string, nat>)
    ensures eventId == CodesFor(markers)
    ensures |events| == |markers|
    ensures forall k :: 0 <= k < |markers| ==>
              markers[k].text in eventId
              && events[k] == EventRow(markers[k].sampleIndex, 0, eventId[markers[k].text])
  {
    eventId := map[];
    events := [];
    for i := 0 to |markers|
      invariant eventId == CodesFor(markers[..i])
      invariant |events| == i
      invariant forall k :: 0 <= k < i ==>
                  markers[k].text in eventId
                  && events[k] == EventRow(markers[k].sampleIndex, 0, eventId[markers[k].text])
    {
      var desc := markers[i].text;
      assert markers[..i + 1][..i] == markers[..i];
      if desc !in eventId {
        eventId := eventId[desc := |eventId| + 1];
      }
      var sampleIdx := SampleOf(markers[i]);
      events := events + [EventRow(sampleIdx, 0, eventId[desc])];
    }
    assert markers[..|markers|] == markers;
  }
}
