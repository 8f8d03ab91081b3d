# EEG recording loader: a verified model

This project models the loading stage of `02_readAndPlotEEG.py`, a reader for
a proprietary EEG recording format. A recording file holds three regions:

- an ASCII header;
- a block of multiplexed little-endian int16 samples, 19 channels per sampling
  instant;
- a trailer in which each phase label ("Augen auf", "Augen zu", "HV Anfang",
  "HV Ende", "IGNORED") is preceded by a record whose first four bytes are the
  little-endian u32 sample index of the event.

The model covers each step of that stage:

- **Boundary**: where the header ends. A 1024-byte window slides in 32-byte
  steps over the first 20000 bytes. The first window with few printable bytes
  and a wide spread of byte values marks the start of the samples. The default
  is 1024 when no window qualifies.
- **Samples**: how the sample block becomes a channel × sample matrix. The
  words are read, cut to whole 19-word cycles and de-interleaved.
- **Markers**: how markers come out of the last 8192 bytes. The five-way
  alternation scans left to right without overlap, and an 8-byte look-back
  slice gives the sample index.
- **Events**: how markers become MNE-style event rows with first-seen label
  codes.
- **Validity**: the two filters. One drops conditions whose data hold a NaN.
  The other drops markers whose onset lies outside the recording.
- **Recording**: the loading pipeline of the main program, which ties the steps
  together.

Modules:

- `Bytes`: byte type and the int16 / u32 / latin-1 readings.
- `Seqs`: the order-preserving filter shared by the two filters.
- `Boundary`, `Samples`, `Markers`, `Events`, `Validity`, `Recording`: the
  steps above.

Several source operations are loops that build a result step by step:

- the boundary scan;
- marker extraction;
- `markers_to_events`;
- `check_for_nans`.

Each of these is a Dafny `method` with a loop and invariants. It is proved
equal to a recursive reference function, and the lemmas then prove what the
source promises about that function.

How the floating-point tests are stated:

- **Printable fraction below 0.2.** For a 1024-byte window this holds exactly
  when 5 × count < 1024. The model uses that integer test.
- **Standard deviation above 20.** Squared and multiplied by n², this becomes
  n·Σx² − (Σx)² > 400·n².
- **Onsets.** An onset is the sample index divided by 256 as an exact real.
  Dividing by a power of two is exact in binary floating point, so
  `int(onset * sfreq)` gives the index back. The model proves this for reals.

Notes on the source's behaviour, which the model reproduces:

- **Look-back slice.** A match is kept when `tail[start-8:start]` holds
  at least 4 bytes. A match starting before byte 8 gives a negative lower
  bound, which counts from the end of the buffer and leaves the slice empty.
  So exactly the matches at byte 8 or later yield a marker:
  `Markers.LookbackRule` and `Markers.MarkerOf`. A match at bytes 4 to 7,
  which has 4 bytes before it, is still skipped.
- **Sample index.** `int(onset * sfreq)` truncates; it does not round. For
  onsets of the form idx / 256 the two agree, and the index comes back exactly.
- **Short file.** On a file shorter than 8192 bytes, `f.seek(-8192, SEEK_END)`
  raises and the code has no fallback. `Markers.ReadTail` returns `None` in
  this case, and `Recording.Load` fails.
- **NaN test.** Only NaN is tested (`np.isnan`); infinite values pass. The
  test is the parameter `hasNaN`.
- **End of the boundary scan.** The candidates stop before `len(data) - 1024`,
  where `data` is the head actually read (at most 20000 bytes). On a shorter
  file the scan ends earlier.
- **Range filter on an empty recording.** The comprehension at line 121 reads
  `raw.times[-1]` once per marker. It fails on a recording with no sample
  only when there is a marker to test; an empty marker list gives `[]`.

## Model

| member | source | states |
|---|---|---|
| Bytes.Int16LE | 02_readAndPlotEEG.py:100 | a two-byte word reads as a value in [-32768, 32767], negative exactly when the high byte's top bit is set, congruent to lo + 256·hi modulo 65536 |
| Bytes.Int16DecodeEncode | 02_readAndPlotEEG.py:100 | every int16 value is read back from its two stored bytes |
| Bytes.Int16EncodeDecode | 02_readAndPlotEEG.py:100 | every byte pair is the encoding of the value it reads as: the reading loses nothing |
| Bytes.U32LE | 02_readAndPlotEEG.py:67 | `struct.unpack("<I")` gives a value below 2^32 whose low byte is the first byte and whose high byte is the fourth |
| Bytes.U32DecodeEncode | 02_readAndPlotEEG.py:67 | every u32 value is read back from its four little-endian bytes |
| Bytes.U32EncodeDecode | 02_readAndPlotEEG.py:67 | every four bytes are the little-endian encoding of the value they read as |
| Bytes.Latin1 | 02_readAndPlotEEG.py:63 | latin-1 decoding yields one character per byte, with code point equal to the byte |
| Boundary.PrintableCount | 02_readAndPlotEEG.py:30 | the number of printable bytes is at most the window length |
| Boundary.Head | 02_readAndPlotEEG.py:27-28 | `f.read(max_scan)` gives a prefix of the file of length min(len, max_scan), the whole file when it is shorter |
| Boundary.FirstQualifyingFrom | 02_readAndPlotEEG.py:36-44 | the reference scan from a candidate position returns the first qualifying candidate at or after it, or none when no later candidate qualifies |
| Boundary.ScanOffsetIsScanResult | 02_readAndPlotEEG.py:36-48 | the reference definition returns the first qualifying candidate of range(min_offset, len - 1024, 32), or 1024 when none qualifies |
| Boundary.ScanResultUnique | 02_readAndPlotEEG.py:36-48 | at most one offset meets that specification |
| Boundary.DetectBinaryOffset | 02_readAndPlotEEG.py:25-53 | the loop returns the first qualifying candidate, or 1024 when none qualifies, equal to the reference definition |
| Boundary.CountAllPrintable | 02_readAndPlotEEG.py:30 | an all-printable window counts every byte |
| Boundary.CountAtLeastPrefix | 02_readAndPlotEEG.py:30 | a window has at least as many printable bytes as any prefix of it |
| Boundary.TextWindowRejected | 02_readAndPlotEEG.py:37-42 | a window that starts 205 or more bytes before the end of an all-printable header does not qualify |
| Boundary.DetectedAfterTextHeader | 02_readAndPlotEEG.py:36-48 | a scan result other than the default 1024 starts less than 205 bytes before the end of a printable header, so at most 204 header bytes come before the samples; the default may lie inside a longer header |
| Boundary.ConstantSums | 02_readAndPlotEEG.py:39 | the byte sum and squared sum of a constant window are n·c and n·c² |
| Boundary.ConstantWindowRejected | 02_readAndPlotEEG.py:39-42 | a window of one repeated byte has zero spread and never qualifies |
| Seqs.Filter | 02_readAndPlotEEG.py:121 | the filtered list is no longer than the input, and each element passes the test and is taken from the input |
| Seqs.FilterKeepsPassing | 02_readAndPlotEEG.py:121 | every input element that passes the test is kept |
| Seqs.FilterMembership | 02_readAndPlotEEG.py:121 | an element is kept exactly when it is in the input and passes the test |
| Seqs.FilterIsSubseq | 02_readAndPlotEEG.py:121 | filtering keeps the input's order and values: the result is a subsequence of the input |
| Seqs.FilterCongruent | 02_readAndPlotEEG.py:121 | two tests that agree on every element select the same list, repeats included |
| Seqs.FilterAllPass | 02_readAndPlotEEG.py:121 | nothing is dropped when every element passes |
| Samples.DecodeWords | 02_readAndPlotEEG.py:100 | the word stream has ⌊bytes / 2⌋ words, and word k is the int16 at bytes 2k and 2k + 1 |
| Samples.WordsFrom | 02_readAndPlotEEG.py:100 | `np.fromfile(offset=...)` gives ⌊(len − offset) / 2⌋ int16 words read from the offset, each in the int16 range |
| Samples.WholeCycles | 02_readAndPlotEEG.py:103-104 | the cut keeps a prefix of n_samples · 19 words and loses fewer than 19, none when the count is a multiple of 19 |
| Samples.Rows | 02_readAndPlotEEG.py:105 | every reshaped row holds one word per channel |
| Samples.RowsAt | 02_readAndPlotEEG.py:105 | the reshape has ⌊words / 19⌋ rows, and entry (s, c) is word s·19 + c |
| Samples.Transpose | 02_readAndPlotEEG.py:105 | the transpose has 19 rows of one entry per sampling instant |
| Samples.Deinterleave | 02_readAndPlotEEG.py:102-105 | the matrix has 19 channels, each of ⌊words / 19⌋ samples |
| Samples.DeinterleaveAt | 02_readAndPlotEEG.py:102-105 | sample s of channel c is word s·19 + c of the stream |
| Samples.Interleave | 02_readAndPlotEEG.py:105 | re-multiplexing a 19 × n matrix gives 19·n words |
| Samples.InterleaveDeinterleave | 02_readAndPlotEEG.py:102-105 | re-multiplexing the decoded matrix gives back the stream cut to whole cycles: only the partial last cycle is lost |
| Samples.SignalMatrixAt | 02_readAndPlotEEG.py:100-105 | sample s of channel c is the int16 stored at byte offset + 2·(s·19 + c), for every sample of the 19 × ⌊words / 19⌋ matrix |
| Samples.ShortRegionIsEmpty | 02_readAndPlotEEG.py:103-105 | fewer than 19 words give 19 empty channels |
| Markers.ReadTail | 02_readAndPlotEEG.py:57-59 | seek-from-end gives the last 8192 bytes, a suffix of the file; it fails exactly when the file is shorter |
| Markers.Onset | 02_readAndPlotEEG.py:68 | the onset is non-negative, and onset × sfreq is the sample index |
| Markers.TokenAtFrom | 02_readAndPlotEEG.py:60 | the alternation returns a token that occurs at the position, and returns none only when no token from the tried alternatives occurs there |
| Markers.TokenLengths | 02_readAndPlotEEG.py:60 | every token is 7 to 9 bytes long |
| Markers.Scan | 02_readAndPlotEEG.py:62 | `finditer` yields matches inside the buffer, each one the pattern's match at its start, each ending before the next begins |
| Markers.ScanComplete | 02_readAndPlotEEG.py:62 | `finditer` skips nothing: the pattern matches nowhere before the first match, between matches or after the last |
| Markers.Pattern | 02_readAndPlotEEG.py:60 | the compiled alternation never matches the empty string and matches what the token alternation does |
| Markers.FindAll | 02_readAndPlotEEG.py:60-62 | every match is one of the five tokens, occurring at its start, chosen as the alternation chooses, and matches do not overlap |
| Markers.NoTokenAt | 02_readAndPlotEEG.py:60 | where the alternation fails, no token occurs |
| Markers.GapHasNoToken | 02_readAndPlotEEG.py:60-62 | where the pattern matches nowhere, no token occurs anywhere |
| Markers.FindAllComplete | 02_readAndPlotEEG.py:60-62 | outside the matches no token occurs in the tail: every occurrence not inside an earlier match is found |
| Markers.TokensDiffer | 02_readAndPlotEEG.py:60 | any two different tokens differ at a position both have |
| Markers.AtMostOneTokenAt | 02_readAndPlotEEG.py:60 | no token is a prefix of another, so at most one token occurs at a position and the choice of alternative is immaterial |
| Markers.PySlice | 02_readAndPlotEEG.py:65 | a Python slice is never longer than the sequence |
| Markers.LookbackRule | 02_readAndPlotEEG.py:65-67 | for a match, the look-back slice holds at least 4 bytes exactly when the match starts at byte 8 or later, and then its first four bytes are tail[start-8 .. start-4] |
| Markers.MarkerOf | 02_readAndPlotEEG.py:63-69 | a match yields a marker exactly when it starts at byte 8 or later; the marker carries the match text and a u32 index |
| Markers.MarkersOf | 02_readAndPlotEEG.py:62-69 | the markers are no more than the matches, and every index is below 2^32 |
| Markers.MarkersOfCount | 02_readAndPlotEEG.py:66-69 | there are exactly as many markers as matches starting at byte 8 or later |
| Markers.MarkersOfOrigin | 02_readAndPlotEEG.py:62-69 | every marker is the marker of one of the matches and is labelled with one of the five tokens |
| Markers.ExtractStep | 02_readAndPlotEEG.py:63-69 | the loop body's slice, length test, u32 read and latin-1 decode compute exactly the match's marker, or skip it |
| Markers.MarkerOfMatch | 02_readAndPlotEEG.py:63-69 | the loop body (slice, length test, u32 read, latin-1 decode) gives exactly the match's marker, or nothing when the match is skipped |
| Markers.MarkersOfMatches | 02_readAndPlotEEG.py:61-69 | the loop over the matches appends exactly the markers of the reference definition, in match order |
| Markers.ExtractMarkers | 02_readAndPlotEEG.py:55-70 | `extract_markers` returns the markers of the `finditer` matches, each labelled with one of the five tokens and indexed below 2^32 |
| Events.LabelsOf | 02_readAndPlotEEG.py:76-78 | every marker's label is among the labels collected |
| Events.LabelsOfOccur | 02_readAndPlotEEG.py:76-78 | every collected label is the label of some marker: with `LabelsOf`, the set is exactly the labels that occur |
| Events.SampleOf | 02_readAndPlotEEG.py:79 | `int(onset * sfreq)` gives back the recorded sample index exactly |
| Events.CodesKeys | 02_readAndPlotEEG.py:74-78 | `event_id` has a code for exactly the labels that occur |
| Events.CodesDense | 02_readAndPlotEEG.py:77-78 | the codes are 1 .. number of labels, each given to exactly one label |
| Events.CodesStable | 02_readAndPlotEEG.py:77-78 | a code once given never changes as more markers are read |
| Events.FirstSeenCode | 02_readAndPlotEEG.py:77-78 | a label first met after k distinct labels gets code k + 1 |
| Events.RepeatKeepsCode | 02_readAndPlotEEG.py:77-78 | a repeated label reuses its code and leaves the table unchanged |
| Events.MarkersToEvents | 02_readAndPlotEEG.py:72-81 | one row [sample index, 0, code of the label] per marker, in marker order, with `event_id` equal to the first-seen code table |
| Validity.CheckForNaNs | 02_readAndPlotEEG.py:83-91 | `check_for_nans` keeps exactly the conditions whose data hold no NaN, in their original order |
| Validity.NaNFilterMembership | 02_readAndPlotEEG.py:86-90 | a condition survives exactly when it is present with NaN-free data |
| Validity.FilterKeepsDistinctKeys | 02_readAndPlotEEG.py:85-90 | filtering a dictionary never repeats a key |
| Validity.NaNFilterShape | 02_readAndPlotEEG.py:85-91 | the NaN-free entries form a dictionary, ordered as the input |
| Validity.LastTime | 02_readAndPlotEEG.py:121 | `raw.times[-1]` exists exactly for a non-empty recording, and times sfreq it is the last sample number |
| Validity.ValidMarkers | 02_readAndPlotEEG.py:121 | the range filter fails exactly when there is a marker to test and the recording has no sample (no `raw.times[-1]`); an empty marker list gives an empty result |
| Validity.WithinRecordingIff | 02_readAndPlotEEG.py:121 | 0 ≤ onset ≤ times[-1] holds exactly when the sample index is below the number of samples |
| Validity.ValidMarkersSpec | 02_readAndPlotEEG.py:121 | the kept markers are exactly the filter of the input by "sample index below the number of samples": in order, repeats included, values unchanged |
| Validity.AllWithinKept | 02_readAndPlotEEG.py:121 | when every marker lies inside the recording, none is dropped (also for an empty recording with no marker) |
| Recording.SampleCount | 02_readAndPlotEEG.py:100-103 | every channel holds ⌊⌊(len − offset) / 2⌋ / 19⌋ samples |
| Recording.PipelineHasSamples | 02_readAndPlotEEG.py:99-103 | a file that holds the 8192-byte marker tail has at least one full 19-word cycle after the detected boundary |
| Recording.Load | 02_readAndPlotEEG.py:97-121 | loading fails exactly when the file is shorter than the marker tail. The boundary is the scan's result and the matrix is decoded from it. The annotations are exactly the tail's markers whose sample index lies inside the decoded recording, in file order, each one of the five tokens |

## Left out

- File I/O is not modelled. A file is its byte sequence. `open`, `seek` and
  `read` become `Boundary.Head` and `Markers.ReadTail`. A missing file is not
  modelled.
- The header re-read at lines 51-52 is read and discarded, so it is left out.
  It opens the global `EEG_FILE`, not the `filename` argument.
- Printed diagnostics are left out (`print`, lines 47, 50, 88, 98, 101, 122-124).
- Everything from MNE and matplotlib is left out:
  - the scaling by 0.195 to microvolts (line 108);
  - `create_info`, the montage, `RawArray`, `Annotations` with their 1-second
    durations, and plotting (lines 109-112, 127-134);
  - `raw.times` is modelled only as (n − 1) / sfreq.
- The failure of `raw.times[-1]` on a recording with no sample is modelled as
  `None` from `Validity.ValidMarkers`, reached only when there is a marker to
  test. MNE may already reject such an array in `RawArray`.
- Samples.WordsFrom: an offset at or past the end of the file is given an
  empty word stream. What `np.fromfile` does there is not modelled (it may
  raise). This case is reached only on a file shorter than the boundary. Such
  a file is also shorter than the marker tail, so the load fails; a
  successful load never reaches it (`Recording.PipelineHasSamples`).
- `np.isnan(...).any()` over an evoked data array is the parameter `hasNaN`.
  The `Evoked` object and its data are an abstract type `V`.
- Boundary.DetectBinaryOffset: the float mean and `np.std` are replaced by
  exact integer forms of the same inequalities. Float rounding of a statistic
  that lies within an ulp of a threshold is not modelled.
- `Samples.ChannelCount` is fixed at the 19 channels of `CHANNEL_NAMES`. The
  sampling rate is fixed at 256 Hz, and the marker tail at 8192 bytes.
- Samples.WordsFrom: the host is assumed little-endian. `np.int16` uses the
  native byte order.
- The regular-expression engine is modelled only for this pattern: five literal
  alternatives tried in order at each position, then resuming after the match.
- NumPy's memory layout (views, strides) is not modelled. The matrix is a
  sequence of channel rows.
- The epoching parameters `EPOCH_TMIN` and `EPOCH_TMAX` are unused in this
  file and are left out.
