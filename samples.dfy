/** Decoding of the multiplexed sample region: the bytes after the boundary
    are little-endian int16 words, one word per channel per sampling instant.
    The flat word stream is cut to whole cycles and de-interleaved into one
    row per channel (`data.reshape(n_samples, n_channels).T`). */
module Samples {
  import opened Bytes

  /** Number of channels in the reference deployment (Fp1 … Pz). */
  const ChannelCount: nat := 19

  /** The int16 words in `bs`; an odd trailing byte is not a word. */
  function DecodeWords(bs: seq<byte>): (ws: seq<int>)
    ensures |ws| == |bs| / 2
    ensures forall k :: 0 <= k < |ws| ==> ws[k] == Int16LE(bs[2 * k], bs[2 * k + 1])
    decreases |bs|
  {
    if |bs| < 2 then [] else [Int16LE(bs[0], bs[1])] + DecodeWords(bs[2..])
  }

  /** `np.fromfile(file, dtype=int16, offset=offset)`. */
  function WordsFrom(file: seq<byte>, offset: nat): (ws: seq<int>)
    ensures |ws| == if offset < |file| then (|file| - offset) / 2 else 0
    ensures forall k :: 0 <= k < |ws| ==> Int16Min <= ws[k] <= Int16Max
  {
    if offset < |file| then DecodeWords(file[offset..]) else []
  }

  /** `data[: n_samples * n_channels]` with `n_samples = len(data) // n_channels`. */
  function WholeCycles(flat: seq<int>): (t: seq<int>)
    ensures t <= flat
    ensures |t| == (|flat| / ChannelCount) * ChannelCount
    ensures |flat| - |t| < ChannelCount
    ensures |flat| % ChannelCount == 0 ==> t == flat
  {
    flat[..(|flat| / ChannelCount) * ChannelCount]
  }

  /** `reshape(n_samples, n_channels)`: consecutive rows of one word per channel. */
  function Rows(flat: seq<int>): (rows: seq<seq<int>>)
    ensures forall s :: 0 <= s < |rows| ==> |rows[s]| == ChannelCount
    decreases |flat|
  {
    if |flat| < ChannelCount then []
    else [flat[..ChannelCount]] + Rows(flat[ChannelCount..])
  }

  lemma {:induction false} RowsAt(flat: seq<int>)
    ensures |Rows(flat)| == |flat| / ChannelCount
    ensures forall s, c :: 0 <= s < |Rows(flat)| && 0 <= c < ChannelCount ==>
              s * ChannelCount + c < |flat| && Rows(flat)[s][c] == flat[s * ChannelCount + c]
    decreases |flat|
  {
    if |flat| >= ChannelCount {
      var rest := flat[ChannelCount..];
      RowsAt(rest);
      var rows := Rows(flat);
      forall s, c | 0 <= s < |rows| && 0 <= c < ChannelCount
        ensures s * ChannelCount + c < |flat| && rows[s][c] == flat[s * ChannelCount + c]
      {
        if s > 0 {
          assert rows[s] == Rows(rest)[s - 1];
        }
      }
    }
  }

  /** `.T`: row `c` of the result collects column `c` of `rows`. */
  function Transpose(rows: seq<seq<int>>): (cols: seq<seq<int>>)
    requires forall s :: 0 <= s < |rows| ==> |rows[s]| == ChannelCount
    ensures |cols| == ChannelCount
    ensures forall c :: 0 <= c < ChannelCount ==> |cols[c]| == |rows|
  {
    seq(ChannelCount, c requires 0 <= c < ChannelCount =>
      seq(|rows|, s requires 0 <= s < |rows| => rows[s][c]))
  }

  /** Lines 102-105: the channel-major sample matrix of a flat word stream. */
  function Deinterleave(flat: seq<int>): (m: seq<seq<int>>)
    ensures |m| == ChannelCount
    ensures forall c :: 0 <= c < ChannelCount ==> |m[c]| == |flat| / ChannelCount
  {
    var cut := WholeCycles(flat);
    RowsAt(cut);
    Transpose(Rows(cut))
  }

  /** Sample `s` of channel `c` is word `s * n_channels + c` of the stream. */
  lemma DeinterleaveAt(flat: seq<int>)
    ensures forall c, s :: 0 <= c < ChannelCount && 0 <= s < |flat| / ChannelCount ==>
              s * ChannelCount + c < |flat| && Deinterleave(flat)[c][s] == flat[s * ChannelCount + c]
  {
    RowsAt(WholeCycles(flat));
  }

  /** Re-multiplex a channel-major matrix of `ns` samples per channel: word `k`
      is sample `k / n_channels` of channel `k % n_channels`. */
  function Interleave(m: seq<seq<int>>, ns: nat): (flat: seq<int>)
    requires |m| == ChannelCount && forall c :: 0 <= c < ChannelCount ==> |m[c]| == ns
    ensures |flat| == ns * ChannelCount
  {
    seq(ns * ChannelCount, k requires 0 <= k < ns * ChannelCount =>
      m[k % ChannelCount][k / ChannelCount])
  }

  /** Round trip: re-multiplexing the decoded matrix gives back the stream cut
      to whole cycles; nothing but the partial last cycle is lost. */
  lemma InterleaveDeinterleave(flat: seq<int>)
    ensures Interleave(Deinterleave(flat), |flat| / ChannelCount) == WholeCycles(flat)
  {
    DeinterleaveAt(flat);
    var r := Interleave(Deinterleave(flat), |flat| / ChannelCount);
    var cut := WholeCycles(flat);
    forall k | 0 <= k < |r|
      ensures r[k] == cut[k]
    {
      assert (k / ChannelCount) * ChannelCount + k % ChannelCount == k;
    }
  }

  /** Lines 100-105: the sample matrix of a recording whose data starts at `offset`. */
  function SignalMatrix(file: seq<byte>, offset: nat): (m: seq<seq<int>>)
  {
    Deinterleave(WordsFrom(file, offset))
  }

  /** The matrix has one row per channel, each of `⌊words / n_channels⌋`
      samples, and sample `s` of channel `c` is the int16 stored at byte
      `offset + 2 * (s * n_channels + c)`. */
  lemma SignalMatrixAt(file: seq<byte>, offset: nat)
    ensures var words := if offset < |file| then (|file| - offset) / 2 else 0;
            && |SignalMatrix(file, offset)| == ChannelCount
            && (forall c :: 0 <= c < ChannelCount ==>
                  |SignalMatrix(file, offset)[c]| == words / ChannelCount)
            && forall c, s :: 0 <= c < ChannelCount && 0 <= s < words / ChannelCount ==>
                 && offset + 2 * (s * ChannelCount + c) + 1 < |file|
                 && SignalMatrix(file, offset)[c][s]
                    == Int16LE(file[offset + 2 * (s * ChannelCount + c)],
                               file[offset + 2 * (s * ChannelCount + c) + 1])
  {
    var flat := WordsFrom(file, offset);
    DeinterleaveAt(flat);
    if offset < |file| {
      var region := file[offset..];
      forall k | 0 <= k < |flat|
        ensures offset + 2 * k + 1 < |file|
        ensures flat[k] == Int16LE(file[offset + 2 * k], file[offset + 2 * k + 1])
      {
        assert flat[k] == Int16LE(region[2 * k], region[2 * k + 1]);
      }
    }
  }

  /** Fewer words than one full cycle give one empty row per channel. */
  lemma ShortRegionIsEmpty(flat: seq<int>)
    requires |flat| < ChannelCount
    ensures forall c :: 0 <= c < ChannelCount ==> Deinterleave(flat)[c] == []
  {
  }
}
