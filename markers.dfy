/** The marker scan over the tail of the recording: the five literal phase
    labels are found left to right without overlap, and each match takes its
    sample index from the little-endian u32 that sits 8 bytes before it. */
module Markers {
  import opened Bytes
  import Seqs

  /** The alternatives of the pattern, in the order the pattern lists them. */
  const Tokens: seq<string> := ["Augen auf", "Augen zu", "HV Anfang", "HV Ende", "IGNORED"]

  /** Bytes of the tail the scan reads (the 8192 last bytes of the file). */
  const TailLength: nat := 8192

  /** `f.seek(-n, SEEK_END); f.read()`: the last `n` bytes of the file; the
      seek fails on a file shorter than `n`. */
  function ReadTail(file: seq<byte>, n: nat): (r: Option<seq<byte>>)
    ensures r.Some? <==> n <= |file|
    ensures r.Some? ==> |r.value| == n && file == file[..|file| - n] + r.value
  {
    if n <= |file| then Some(file[|file| - n..]) else None
  }

  /** Sampling rate of the device, in Hz. */
  const SFreq: real := 256.0

  /** Length of the look-back slice before a match. */
  const Lookback: nat := 8

  /** A match of one alternative of the pattern: where it starts and the
      latin-1 text it matched. */
  datatype Match = Match(start: nat, text: string)

  /** A marker: the recorded sample index and the label text. */
  datatype Marker = Marker(sampleIndex: nat, text: string)

  /** Onset time in seconds, `idx / sfreq`. */
  function Onset(m: Marker): (t: real)
    ensures t >= 0.0
    ensures t * SFreq == m.sampleIndex as real
  {
    m.sampleIndex as real / SFreq
  }

  /** Token `t` occurs in `tail` at position `p`. */
  predicate MatchesAt(tail: seq<byte>, p: nat, t: string) {
    p + |t| <= |tail| && Latin1(tail[p..p + |t|]) == t
  }

  /** The first alternative (from index `j` on) that matches at `p`, as the
      regular-expression alternation tries them. */
  function TokenAtFrom(tail: seq<byte>, p: nat, j: nat): (r: Option<string>)
    requires j <= |Tokens|
    ensures r.Some? ==> r.value in Tokens[j..] && MatchesAt(tail, p, r.value)
    ensures r.None? ==> forall i :: j <= i < |Tokens| ==> !MatchesAt(tail, p, Tokens[i])
    decreases |Tokens| - j
  {
    if j == |Tokens| then None
    else if MatchesAt(tail, p, Tokens[j]) then Some(Tokens[j])
    else TokenAtFrom(tail, p, j + 1)
  }

  function TokenAt(tail: seq<byte>, p: nat): Option<string> {
    TokenAtFrom(tail, p, 0)
  }

  lemma TokenLengths()
    ensures forall i :: 0 <= i < |Tokens| ==> 7 <= |Tokens[i]| <= 9
  {
  }

  /** A pattern, seen as what it matches at each position. */
  type Matcher = nat -> Option<string>

  /** The pattern never matches the empty string. */
  ghost predicate NonEmptyMatches(alt: Matcher) {
    forall p: nat :: alt(p).Some? ==> alt(p).value != []
  }

  function End(m: Match): nat {
    m.start + |m.text|
  }

  /** `finditer` of a pattern over a buffer of `len` bytes from position
      `pos`: at each position try the pattern; after a match resume where it
      ended, otherwise one byte further on. */
  function Scan(alt: Matcher, len: nat, pos: nat): (ms: seq<Match>)
    requires NonEmptyMatches(alt)
    ensures forall i :: 0 <= i < |ms| ==> pos <= ms[i].start < len && alt(ms[i].start) == Some(ms[i].text)
    ensures forall i :: 0 <= i < |ms| - 1 ==> End(ms[i]) <= ms[i + 1].start
    decreases len - pos
  {
    if pos >= len then []
    else match alt(pos)
      case Some(t) => [Match(pos, t)] + Scan(alt, len, pos + |t|)
      case None => Scan(alt, len, pos + 1)
  }

  /** The pattern matches nowhere in `[a, b)`. */
  ghost predicate Gap(alt: Matcher, a: nat, b: nat) {
    forall p: nat :: a <= p < b ==> alt(p) == None
  }

  /** The property ScanComplete gives a scan result `ms` from `pos`. */
  ghost predicate GapsBetween(alt: Matcher, len: nat, pos: nat, ms: seq<Match>) {
    && (ms == [] ==> Gap(alt, pos, len))
    && (ms != [] ==> Gap(alt, pos, ms[0].start) && Gap(alt, End(ms[|ms| - 1]), len))
    && forall i :: 0 <= i < |ms| - 1 ==> Gap(alt, End(ms[i]), ms[i + 1].start)
  }

  /** Nothing is skipped: before the first match, between consecutive matches
      and after the last one, the pattern matches nowhere. */
  lemma {:induction false} ScanComplete(alt: Matcher, len: nat, pos: nat)
    requires NonEmptyMatches(alt)
    ensures GapsBetween(alt, len, pos, Scan(alt, len, pos))
    decreases len - pos
  {
    if pos < len {
      if alt(pos).Some? {
        var t := alt(pos).value;
        ScanComplete(alt, len, pos + |t|);
        var rest := Scan(alt, len, pos + |t|);
        assert Scan(alt, len, pos) == [Match(pos, t)] + rest;
        GapsAfterMatch(alt, len, pos, t, rest);
      } else {
        ScanComplete(alt, len, pos + 1);
        GapsAfterMiss(alt, len, pos, Scan(alt, len, pos + 1));
      }
    }
  }

  lemma GapsAfterMatch(alt: Matcher, len: nat, pos: nat, t: string, rest: seq<Match>)
    requires GapsBetween(alt, len, pos + |t|, rest)
    ensures GapsBetween(alt, len, pos, [Match(pos, t)] + rest)
  {
    var ms := [Match(pos, t)] + rest;
    forall i | 0 <= i < |ms| - 1
      ensures Gap(alt, End(ms[i]), ms[i + 1].start)
    {
      if i > 0 {
        assert ms[i] == rest[i - 1] && ms[i + 1] == rest[i];
      }
    }
  }

  lemma GapsAfterMiss(alt: Matcher, len: nat, pos: nat, ms: seq<Match>)
    requires pos < len && alt(pos) == None
    requires GapsBetween(alt, len, pos + 1, ms)
    ensures GapsBetween(alt, len, pos, ms)
  {
  }

  /** The compiled alternation `Augen auf|Augen zu|HV Anfang|HV Ende|IGNORED`
      applied to `tail`. */
  function Pattern(tail: seq<byte>): (alt: Matcher)
    ensures NonEmptyMatches(alt)
    ensures forall p: nat :: alt(p) == TokenAt(tail, p)
  {
    TokenLengths();
    (p: nat) => TokenAt(tail, p)
  }

  /** `marker_re.finditer(tail)`: the matches in increasing position, none
      overlapping the next, each an occurrence of one of the five tokens. */
  function FindAll(tail: seq<byte>): (ms: seq<Match>)
    ensures forall i :: 0 <= i < |ms| ==>
              && ms[i].text in Tokens
              && MatchesAt(tail, ms[i].start, ms[i].text)
              && TokenAt(tail, ms[i].start) == Some(ms[i].text)
    ensures forall i :: 0 <= i < |ms| - 1 ==> End(ms[i]) <= ms[i + 1].start
  {
    Scan(Pattern(tail), |tail|, 0)
  }

  /** Where the alternation finds nothing, no token occurs. */
  lemma NoTokenAt(tail: seq<byte>, p: nat)
    requires TokenAt(tail, p) == None
    ensures forall t :: t in Tokens ==> !MatchesAt(tail, p, t)
  {
  }

  /** No token occurs anywhere in `[a, b)`. */
  ghost predicate NoTokenIn(tail: seq<byte>, a: nat, b: nat) {
    forall p: nat, t :: a <= p < b && t in Tokens ==> !MatchesAt(tail, p, t)
  }

  lemma GapHasNoToken(tail: seq<byte>, a: nat, b: nat)
    requires Gap(Pattern(tail), a, b)
    ensures NoTokenIn(tail, a, b)
  {
    forall p: nat, t | a <= p < b && t in Tokens
      ensures !MatchesAt(tail, p, t)
    {
      assert Pattern(tail)(p) == None;
      NoTokenAt(tail, p);
    }
  }

  /** Every occurrence of a token is found unless it starts inside an
      earlier match: outside the matches no token occurs. */
  lemma FindAllComplete(tail: seq<byte>)
    ensures var ms := FindAll(tail);
            && (ms == [] ==> NoTokenIn(tail, 0, |tail|))
            && (ms != [] ==> NoTokenIn(tail, 0, ms[0].start) && NoTokenIn(tail, End(ms[|ms| - 1]), |tail|))
            && forall i :: 0 <= i < |ms| - 1 ==> NoTokenIn(tail, End(ms[i]), ms[i + 1].start)
  {
    var alt := Pattern(tail);
    var ms := FindAll(tail);
    ScanComplete(alt, |tail|, 0);
    if ms == [] {
      GapHasNoToken(tail, 0, |tail|);
    } else {
      GapHasNoToken(tail, 0, ms[0].start);
      GapHasNoToken(tail, End(ms[|ms| - 1]), |tail|);
    }
    forall i | 0 <= i < |ms| - 1
      ensures NoTokenIn(tail, End(ms[i]), ms[i + 1].start)
    {
      GapHasNoToken(tail, End(ms[i]), ms[i + 1].start);
    }
  }

  /** Any two different tokens differ at a position both of them have. */
  lemma TokensDiffer(i: nat, j: nat)
    requires i < j < |Tokens|
    ensures exists k :: 0 <= k < |Tokens[i]| && k < |Tokens[j]| && Tokens[i][k] != Tokens[j][k]
  {
    var k := if i == 0 && j == 1 then 6 else if i == 2 && j == 3 then 3 else 0;
    assert Tokens[i][k] != Tokens[j][k];
  }

  /** No token is a prefix of another, so at most one alternative can match
      at any position. */
  lemma AtMostOneTokenAt(tail: seq<byte>, p: nat, t: string, u: string)
    requires t in Tokens && u in Tokens
    requires MatchesAt(tail, p, t) && MatchesAt(tail, p, u)
    ensures t == u
  {
    var i :| 0 <= i < |Tokens| && Tokens[i] == t;
    var j :| 0 <= j < |Tokens| && Tokens[j] == u;
    forall k | 0 <= k < |t| && k < |u|
      ensures t[k] == u[k]
    {
      assert t[k] as int == tail[p + k] && u[k] as int == tail[p + k];
    }
    if i < j {
      TokensDiffer(i, j);
    } else if j < i {
      TokensDiffer(j, i);
    }
  }

  /** Python's `s[lo:hi]` (step 1): a negative bound counts from the end, and
      both bounds are then clamped to `[0, len(s)]`. */
  function PySlice(s: seq<byte>, lo: int, hi: int): (r: seq<byte>)
    ensures |r| <= |s|
  {
    var l := Clamp(if lo < 0 then lo + |s| else lo, |s|);
    var h := Clamp(if hi < 0 then hi + |s| else hi, |s|);
    if l < h then s[l..h] else []
  }

  function Clamp(x: int, n: nat): (y: nat)
    ensures y <= n
  {
    if x < 0 then 0 else if x > n then n else x
  }

  /** For a match, the look-back slice `tail[start-8:start]` holds at least 4
      bytes exactly when the match starts at byte 8 or later, and then its
      first four bytes are `tail[start-8 .. start-4]`. A match nearer the
      start makes the lower bound negative, which wraps to the end and
      leaves the slice empty. */
  lemma LookbackRule(tail: seq<byte>, m: Match)
    requires m.text in Tokens && MatchesAt(tail, m.start, m.text)
    ensures |PySlice(tail, m.start - Lookback, m.start)| >= 4 <==> m.start >= Lookback
    ensures m.start >= Lookback ==>
              PySlice(tail, m.start - Lookback, m.start)[..4] == tail[m.start - Lookback..m.start - 4]
  {
    TokenLengths();
    var i :| 0 <= i < |Tokens| && Tokens[i] == m.text;
    assert m.start + 7 <= |tail|;
    var s := PySlice(tail, m.start - Lookback, m.start);
    if m.start < Lookback {
      // The lower bound wraps to |tail| - 8 + start, at least start - 1.
      assert Clamp(m.start - Lookback + |tail|, |tail|) + 1 >= m.start;
      assert |s| <= 1;
    } else {
      assert s == tail[m.start - Lookback..m.start];
    }
  }

  /** A match at position `start` in the tail yields a marker iff `start >= 8`. */
  predicate YieldsMarker(tail: seq<byte>, m: Match) {
    Lookback <= m.start <= |tail|
  }

  /** The marker a match yields, read the way the marker records are laid
      out: the u32 at `start - 8`, only when the match starts at byte 8 or
      later (and inside the tail, as every match does). */
  function MarkerOf(tail: seq<byte>, m: Match): (r: Option<Marker>)
    ensures r.Some? <==> YieldsMarker(tail, m)
    ensures r.Some? ==> r.value.text == m.text && r.value.sampleIndex < U32Bound
  {
    if YieldsMarker(tail, m) then
      var b := tail[m.start - Lookback..m.start - 4];
      Some(Marker(U32LE(b[0], b[1], b[2], b[3]), m.text))
    else None
  }

  /** `m` is an occurrence of one of the tokens in `tail`. */
  predicate Occurs(tail: seq<byte>, m: Match) {
    m.text in Tokens && MatchesAt(tail, m.start, m.text)
  }

  /** Every match of `ms` occurs in `tail` (stated element by element from
      the end, so that it unfolds only as far as a proof asks). */
  ghost predicate InTail(tail: seq<byte>, ms: seq<Match>)
    decreases |ms|
  {
    ms == [] || (InTail(tail, ms[..|ms| - 1]) && Occurs(tail, ms[|ms| - 1]))
  }

  lemma {:induction false} InTailAt(tail: seq<byte>, ms: seq<Match>, i: nat)
    requires InTail(tail, ms) && i < |ms|
    ensures Occurs(tail, ms[i])
    decreases |ms|
  {
    if i < |ms| - 1 {
      InTailAt(tail, ms[..|ms| - 1], i);
    }
  }

  lemma {:induction false} InTailIntro(tail: seq<byte>, ms: seq<Match>)
    requires forall i :: 0 <= i < |ms| ==> Occurs(tail, ms[i])
    ensures InTail(tail, ms)
    decreases |ms|
  {
    if ms != [] {
      InTailIntro(tail, ms[..|ms| - 1]);
    }
  }

  /** The markers of the matches `ms`, in match order. */
  function MarkersOf(tail: seq<byte>, ms: seq<Match>): (r: seq<Marker>)
    ensures |r| <= |ms|
    ensures forall k :: 0 <= k < |r| ==> r[k].sampleIndex < U32Bound
    decreases |ms|
  {
    if ms == [] then []
    else
      MarkersOf(tail, ms[..|ms| - 1])
      + (match MarkerOf(tail, ms[|ms| - 1]) case Some(mk) => [mk] case None => [])
  }

  /** There are exactly as many markers as matches that start at byte 8 or later. */
  lemma {:induction false} MarkersOfCount(tail: seq<byte>, ms: seq<Match>)
    ensures |MarkersOf(tail, ms)| == |Seqs.Filter(ms, m => YieldsMarker(tail, m))|
    decreases |ms|
  {
    if ms != [] {
      MarkersOfCount(tail, ms[..|ms| - 1]);
    }
  }

  /** Every marker comes from a match starting at byte 8 or later, carries
      that match's text, and so is one of the five tokens. */
  ghost predicate YieldedBy(tail: seq<byte>, ms: seq<Match>, mk: Marker) {
    exists i :: 0 <= i < |ms| && MarkerOf(tail, ms[i]) == Some(mk)
  }

  lemma {:induction false} MarkersOfOrigin(tail: seq<byte>, ms: seq<Match>)
    requires InTail(tail, ms)
    ensures forall k :: 0 <= k < |MarkersOf(tail, ms)| ==> YieldedBy(tail, ms, MarkersOf(tail, ms)[k])
    ensures forall k :: 0 <= k < |MarkersOf(tail, ms)| ==> MarkersOf(tail, ms)[k].text in Tokens
    decreases |ms|
  {
    if ms != [] {
      var init := ms[..|ms| - 1];
      var last := ms[|ms| - 1];
      MarkersOfOrigin(tail, init);
      var r0 := MarkersOf(tail, init);
      var r := MarkersOf(tail, ms);
      assert r == r0 + (match MarkerOf(tail, last) case Some(mk) => [mk] case None => []);
      forall k | 0 <= k < |r|
        ensures YieldedBy(tail, ms, r[k])
        ensures r[k].text in Tokens
      {
        if k < |r0| {
          assert YieldedBy(tail, init, r0[k]);
          var i :| 0 <= i < |init| && MarkerOf(tail, init[i]) == Some(r0[k]);
          assert ms[i] == init[i] && r[k] == r0[k];
          assert 0 <= i < |ms| && MarkerOf(tail, ms[i]) == Some(r[k]);
        } else {
          var i := |ms| - 1;
          assert 0 <= i < |ms| && MarkerOf(tail, ms[i]) == Some(r[k]);
        }
      }
    }
  }

  /** What the loop body of `extract_markers` computes for one match is
      the match's marker. */
  lemma ExtractStep(tail: seq<byte>, m: Match)
    requires m.text in Tokens && MatchesAt(tail, m.start, m.text)
    ensures var prefix := PySlice(tail, m.start - Lookback, m.start);
            if |prefix| >= 4 then
              MarkerOf(tail, m) == Some(Marker(U32LE(prefix[0], prefix[1], prefix[2], prefix[3]),
                                               Latin1(tail[m.start..m.start + |m.text|])))
            else MarkerOf(tail, m) == None
  {
    LookbackRule(tail, m);
  }

  lemma MarkersOfPrefix(tail: seq<byte>, ms: seq<Match>, i: nat)
    requires i < |ms|
    ensures MarkersOf(tail, ms[..i + 1])
            == MarkersOf(tail, ms[..i]) + (match MarkerOf(tail, ms[i]) case Some(mk) => [mk] case None => [])
  {
    assert ms[..i + 1][..i] == ms[..i];
  }

  /** The body of the loop of `extract_markers` for one match `m`: the
      look-back slice, its length test, the u32 read and the latin-1 decode.
      It gives the match's marker, or nothing when the match is skipped. */
  method MarkerOfMatch(tail: seq<byte>, m: Match) returns (mk: Option<Marker>)
    requires Occurs(tail, m)
    ensures mk == MarkerOf(tail, m)
  {
    var start := m.start;
    var prefix := PySlice(tail, start - Lookback, start);
    ExtractStep(tail, m);
    if |prefix| >= 4 {
      var idx := U32LE(prefix[0], prefix[1], prefix[2], prefix[3]);
      var text := Latin1(tail[start..start + |m.text|]);
      mk := Some(Marker(idx, text));
    } else {
      mk := None;
    }
  }

  /** The loop of `extract_markers` over the matches `ms` found in `tail`. */
  method MarkersOfMatches(tail: seq<byte>, ms: seq<Match>) returns (events: seq<Marker>)
    requires InTail(tail, ms)
    ensures events == MarkersOf(tail, ms)
  {
    events := [];
    for i := 0 to |ms|
      invariant events == MarkersOf(tail, ms[..i])
    {
      InTailAt(tail, ms, i);
      var mk := MarkerOfMatch(tail, ms[i]);
      MarkersOfPrefix(tail, ms, i);
      if mk.Some? {
        events := events + [mk.value];
      }
    }
    assert ms[..|ms|] == ms;
  }

  /** `extract_markers` on the tail bytes: one marker per match whose
      look-back slice holds at least 4 bytes, each one of the five tokens. */
  method ExtractMarkers(tail: seq<byte>) returns (events: seq<Marker>)
    ensures events == MarkersOf(tail, FindAll(tail))
    ensures forall k :: 0 <= k < |events| ==> events[k].text in Tokens && events[k].sampleIndex < U32Bound
  {
    var ms := FindAll(tail);
    InTailIntro(tail, ms);
    events := MarkersOfMatches(tail, ms);
    MarkersOfOrigin(tail, ms);
  }
}
