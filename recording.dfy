/** The loading pipeline: find the boundary, decode the sample matrix, read
    the markers from the tail and keep those inside the recording as
    annotations. */
module Recording {
  import opened Bytes
  import Boundary
  import Samples
  import opened Markers
  import Validity
  import Seqs

  /** What the pipeline hands to the plotting stage. */
  datatype Loaded = Loaded(offset: nat, signal: seq<seq<int>>, annotations: seq<Marker>)

  /** Samples per channel of the matrix decoded from `offset` on. */
  function SampleCount(file: seq<byte>, offset: nat): (n: nat)
    ensures n == (if offset < |file| then (|file| - offset) / 2 else 0) / Samples.ChannelCount
    ensures forall c :: 0 <= c < Samples.ChannelCount ==> |Samples.SignalMatrix(file, offset)[c]| == n
  {
    Samples.SignalMatrixAt(file, offset);
    |Samples.SignalMatrix(file, offset)[0]|
  }

  /** The boundary the pipeline uses, with the default scan parameters. */
  function PipelineOffset(file: seq<byte>): nat {
    Boundary.ScanOffset(Boundary.Head(file, Boundary.DefaultMaxScan), Boundary.DefaultMinOffset)
  }

  /** A file that holds the marker tail has at least one full sample cycle
      after the boundary: the boundary lies at least 1024 bytes before the end
      of the head read, or is the default 1024. */
  lemma PipelineHasSamples(file: seq<byte>)
    requires TailLength <= |file|
    ensures SampleCount(file, PipelineOffset(file)) > 0
  {
    var data := Boundary.Head(file, Boundary.DefaultMaxScan);
    Boundary.ScanOffsetIsScanResult(data, Boundary.DefaultMinOffset);
    assert PipelineOffset(file) + 1024 <= |file|;
  }

  /** The loading steps of the main program. It fails only when the file is
      shorter than the marker tail. The annotations are the tail's markers
      whose sample lies inside the decoded recording, in file order. */
  method Load(file: seq<byte>) returns (r: Option<Loaded>)
    ensures r.Some? <==> TailLength <= |file|
    ensures r.Some? ==>
              && r.value.offset == PipelineOffset(file)
              && r.value.signal == Samples.SignalMatrix(file, r.value.offset)
    ensures r.Some? ==>
              var tail := file[|file| - TailLength..];
              r.value.annotations
              == Seqs.Filter(MarkersOf(tail, FindAll(tail)), Validity.InRange(SampleCount(file, r.value.offset)))
    ensures r.Some? ==>
              forall k :: 0 <= k < |r.value.annotations| ==>
                && r.value.annotations[k].text in Tokens
                && forall c :: 0 <= c < Samples.ChannelCount ==>
                     r.value.annotations[k].sampleIndex < |r.value.signal[c]|
  {
    var offset := Boundary.DetectBinaryOffset(file, Boundary.DefaultMinOffset, Boundary.DefaultMaxScan);
    var signal := Samples.SignalMatrix(file, offset);
    var nSamples := SampleCount(file, offset);
    var tail := ReadTail(file, TailLength);
    if tail.None? {
      return None;
    }
    var markers := ExtractMarkers(tail.value);
    PipelineHasSamples(file);
    Validity.ValidMarkersSpec(markers, nSamples);
    var annotations := Validity.ValidMarkers(markers, nSamples).value;
    forall k | 0 <= k < |annotations|
      ensures annotations[k].text in Tokens
    {
      assert annotations[k] in markers;
    }
    r := Some(Loaded(offset, signal, annotations));
  }
}
