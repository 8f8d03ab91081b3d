/** Header/data boundary detection: slide a 1024-byte window over the head of
    the file and take the first window that looks like packed binary samples
    (few printable bytes, widely spread byte values). Thresholds are stated
    in exact integer form instead of the float mean and standard deviation. */
module Boundary {
  import opened Bytes

  const Window: nat := 1024
  const Step: nat := 32
  const DefaultOffset: nat := 1024
  const DefaultMinOffset: nat := 200
  const DefaultMaxScan: nat := 20000

  /** Printable ASCII, or tab, line feed, carriage return. */
  predicate Printable(b: byte) {
    (32 <= b <= 126) || b == 9 || b == 10 || b == 13
  }

  function PrintableCount(w: seq<byte>): (n: nat)
    ensures n <= |w|
  {
    if w == [] then 0
    else PrintableCount(w[..|w| - 1]) + (if Printable(w[|w| - 1]) then 1 else 0)
  }

  function Sum(w: seq<byte>): nat {
    if w == [] then 0 else Sum(w[..|w| - 1]) + w[|w| - 1]
  }

  function SumSq(w: seq<byte>): nat {
    if w == [] then 0 else SumSq(w[..|w| - 1]) + (w[|w| - 1] as int) * w[|w| - 1]
  }

  /** Printable fraction below 0.2. For a 1024-byte window the float test
      count / 1024 < 0.2 holds exactly when 5 * count < 1024, i.e. count <= 204. */
  predicate FewPrintable(w: seq<byte>) {
    5 * PrintableCount(w) < |w|
  }

  /** Population standard deviation above 20, squared and multiplied out:
      Sum(x^2)/n - (Sum(x)/n)^2 > 400. */
  predicate HighSpread(w: seq<byte>) {
    |w| * SumSq(w) - Sum(w) * Sum(w) > 400 * |w| * |w|
  }

  /** The window starting at `i` looks like binary sample data. */
  predicate Qualifies(data: seq<byte>, i: nat) {
    i + Window <= |data| && FewPrintable(data[i..i + Window]) && HighSpread(data[i..i + Window])
  }

  /** The positions the scan examines: range(minOffset, len(data) - 1024, 32). */
  predicate IsCandidate(data: seq<byte>, minOffset: nat, i: int) {
    minOffset <= i < |data| - Window && (i - minOffset) % Step == 0
  }

  /** What the scan returns: the first qualifying candidate, or the default
      offset when no candidate qualifies. */
  ghost predicate IsScanResult(data: seq<byte>, minOffset: nat, offset: nat) {
    || (&& IsCandidate(data, minOffset, offset)
        && Qualifies(data, offset)
        && forall j: nat :: IsCandidate(data, minOffset, j) && j < offset ==> !Qualifies(data, j))
    || (&& offset == DefaultOffset
        && forall j: nat :: IsCandidate(data, minOffset, j) ==> !Qualifies(data, j))
  }

  /** The bytes `f.read(maxScan)` delivers. */
  function Head(file: seq<byte>, maxScan: nat): (data: seq<byte>)
    ensures |data| <= maxScan && data <= file
    ensures |file| >= maxScan ==> |data| == maxScan
    ensures |file| < maxScan ==> data == file
  {
    if |file| <= maxScan then file else file[..maxScan]
  }

  /** Reference definition: the first qualifying position among i, i + 32, ...
      below len(data) - 1024. */
  function FirstQualifying(data: seq<byte>, i: nat): Option<nat>
    decreases |data| - i
  {
    if i >= |data| - Window then None
    else if Qualifies(data, i) then Some(i)
    else FirstQualifying(data, i + Step)
  }

  /** The boundary by the reference definition, with the default fallback. */
  function ScanOffset(data: seq<byte>, minOffset: nat): nat {
    match FirstQualifying(data, minOffset)
    case Some(i) => i
    case None => DefaultOffset
  }

  lemma {:induction false} FirstQualifyingFrom(data: seq<byte>, minOffset: nat, i: nat)
    requires minOffset <= i && (i - minOffset) % Step == 0
    ensures match FirstQualifying(data, i)
            case Some(o) =>
              && IsCandidate(data, minOffset, o) && Qualifies(data, o)
              && forall j: nat :: IsCandidate(data, minOffset, j) && i <= j < o ==> !Qualifies(data, j)
            case None =>
              forall j: nat :: IsCandidate(data, minOffset, j) && i <= j ==> !Qualifies(data, j)
    decreases |data| - i
  {
    if i < |data| - Window && !Qualifies(data, i) {
      FirstQualifyingFrom(data, minOffset, i + Step);
      forall j: nat | IsCandidate(data, minOffset, j) && i < j
        ensures i + Step <= j
      {
        assert (j - i) % Step == 0;
      }
    }
  }

  /** The reference definition meets the scan's specification. */
  lemma ScanOffsetIsScanResult(data: seq<byte>, minOffset: nat)
    ensures IsScanResult(data, minOffset, ScanOffset(data, minOffset))
  {
    FirstQualifyingFrom(data, minOffset, minOffset);
  }

  /** The specification determines the offset: at most one value meets it. */
  lemma ScanResultUnique(data: seq<byte>, minOffset: nat, o1: nat, o2: nat)
    requires IsScanResult(data, minOffset, o1) && IsScanResult(data, minOffset, o2)
    ensures o1 == o2
  {
  }

  lemma {:induction false} CountAllPrintable(w: seq<byte>)
    requires forall k :: 0 <= k < |w| ==> Printable(w[k])
    ensures PrintableCount(w) == |w|
  {
    if w != [] {
      CountAllPrintable(w[..|w| - 1]);
    }
  }

  lemma {:induction false} CountAtLeastPrefix(w: seq<byte>, n: nat)
    requires n <= |w|
    ensures PrintableCount(w[..n]) <= PrintableCount(w)
    decreases |w|
  {
    if n < |w| {
      assert w[..|w| - 1][..n] == w[..n];
      CountAtLeastPrefix(w[..|w| - 1], n);
    } else {
      assert w[..n] == w;
    }
  }

  /** When the first `h` bytes are printable, no window starting 205 or more
      bytes before `h` qualifies: it holds at least 205 printable bytes. */
  lemma TextWindowRejected(data: seq<byte>, h: nat, i: nat)
    requires h <= |data|
    requires forall k :: 0 <= k < h ==> Printable(data[k])
    requires i + 205 <= h
    ensures !Qualifies(data, i)
  {
    if i + Window <= |data| {
      var w := data[i..i + Window];
      assert w[..205] == data[i..i + 205];
      CountAllPrintable(w[..205]);
      CountAtLeastPrefix(w, 205);
    }
  }

  /** Hence a scan result other than the default 1024 starts less than 205
      bytes before the end of a printable header: at most 204 header bytes
      are read as samples. The default itself may lie inside a longer header,
      when no window qualifies. */
  lemma DetectedAfterTextHeader(data: seq<byte>, minOffset: nat, h: nat, offset: nat)
    requires h <= |data|
    requires forall k :: 0 <= k < h ==> Printable(data[k])
    requires IsScanResult(data, minOffset, offset)
    ensures offset == DefaultOffset || offset + 205 > h
  {
    if offset != DefaultOffset && offset + 205 <= h {
      TextWindowRejected(data, h, offset);
    }
  }

  lemma {:induction false} ConstantSums(w: seq<byte>, c: byte)
    requires forall k :: 0 <= k < |w| ==> w[k] == c
    ensures Sum(w) == |w| * c && SumSq(w) == |w| * (c * c)
  {
    if w != [] {
      ConstantSums(w[..|w| - 1], c);
    }
  }

  /** A window of one repeated byte value has zero spread and never qualifies. */
  lemma ConstantWindowRejected(w: seq<byte>, c: byte)
    requires forall k :: 0 <= k < |w| ==> w[k] == c
    ensures !HighSpread(w)
  {
    ConstantSums(w, c);
    var n := |w|;
    assert n * (n * (c * c)) == (n * c) * (n * c);
  }

  /** The detected boundary for the scanned head `data`. */
  method DetectBinaryOffset(file: seq<byte>, minOffset: nat, maxScan: nat) returns (offset: nat)
    ensures IsScanResult(Head(file, maxScan), minOffset, offset)
    ensures offset == ScanOffset(Head(file, maxScan), minOffset)
  {
    var data := Head(file, maxScan);
    var found: Option<nat> := None;
    var i := minOffset;
    while i < |data| - Window
      invariant minOffset <= i && (i - minOffset) % Step == 0
      invariant forall j: nat :: IsCandidate(data, minOffset, j) && j < i ==> !Qualifies(data, j)
      decreases |data| - i
    {
      var win := data[i..i + Window];
      var count := PrintableCount(win);
      var sum := Sum(win);
      var sumSq := SumSq(win);
      if 5 * count < Window && Window * sumSq - sum * sum > 400 * Window * Window {
        assert |win| == Window && Qualifies(data, i);
        found := Some(i);
        break;
      }
      assert !Qualifies(data, i);
      i := i + Step;
    }
    if found.None? {
      offset := DefaultOffset;
    } else {
      offset := found.value;
    }
    assert IsScanResult(data, minOffset, offset);
    ScanOffsetIsScanResult(data, minOffset);
    ScanResultUnique(data, minOffset, offset, ScanOffset(data, minOffset));
  }
}
