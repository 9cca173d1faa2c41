/** The segment model of scripts/add_syl_tier.py: a tier is a list of
    `(end time, text)` boundaries; `GetSegments` decodes it into labelled
    intervals (optionally dropping labels and restricting to a time window)
    and `SegsToTier` encodes intervals back, inserting empty filler
    boundaries for gaps. */
module Tiers {
  import opened Wrappers
  import opened Text

  /** One entry of a point tier: the end time of an interval and its text. */
  datatype Boundary = Boundary(time: real, text: string)

  /** The `Segment` named tuple. */
  datatype Segment = Segment(start: real, end: real, text: string)

  /** `EMPTY_SEGMENT`, the text of filler intervals. */
  const EmptySegment: string := ""

  /** The optional arguments of `get_segments`: `start`, `end` and `ignore`
      (an `ignore` of None behaves as the empty set). */
  datatype Query = Query(start: Option<real>, end: Option<real>, ignore: set<string>)

  /** `get_segments(boundslist)` with no optional argument. */
  const Everything: Query := Query(None, None, {})

  predicate Ignored(s: Segment, q: Query) {
    s.text in q.ignore
  }

  /** The segment starts or ends before the window's `start`. */
  predicate BeforeWindow(s: Segment, q: Query) {
    q.start.Some? && (s.start < q.start.value || s.end < q.start.value)
  }

  /** The segment starts or ends after the window's `end`. */
  predicate AfterWindow(s: Segment, q: Query) {
    q.end.Some? && (s.start > q.end.value || s.end > q.end.value)
  }

  /** The segment passes the two `continue` tests of the generator. */
  predicate Admitted(s: Segment, q: Query) {
    !Ignored(s, q) && !BeforeWindow(s, q)
  }

  /** The segment reaches the generator's `break`. */
  predicate Halts(s: Segment, q: Query) {
    Admitted(s, q) && AfterWindow(s, q)
  }

  /** The interval ending at boundary `b` when the previous boundary ended at `prev`. */
  function IntervalOf(prev: real, b: Boundary): Segment {
    Segment(prev, b.time, Strip(b.text))
  }

  /** The generator `get_segments`, started with previous time `prev`. */
  function DecodeFrom(prev: real, bs: seq<Boundary>, q: Query): (r: seq<Segment>)
    ensures |r| <= |bs|
    ensures forall i :: 0 <= i < |r| ==> Admitted(r[i], q) && !AfterWindow(r[i], q)
    decreases |bs|
  {
    if bs == [] then []
    else
      var seg := IntervalOf(prev, bs[0]);
      if !Admitted(seg, q) then DecodeFrom(bs[0].time, bs[1..], q)
      else if AfterWindow(seg, q) then []
      else [seg] + DecodeFrom(bs[0].time, bs[1..], q)
  }

  /** `get_segments(boundslist, start, end, ignore)`: the first interval starts
      at 0.0. No yielded segment has an ignored text or lies partly outside
      the window. */
  function GetSegments(bs: seq<Boundary>, q: Query): (r: seq<Segment>)
    ensures |r| <= |bs|
    ensures forall i :: 0 <= i < |r| ==> !Ignored(r[i], q)
    ensures forall i :: 0 <= i < |r| ==> !BeforeWindow(r[i], q) && !AfterWindow(r[i], q)
  {
    DecodeFrom(0.0, bs, q)
  }

  /** The time boundary `i` starts at: the previous boundary's, `prev` for the first. */
  function PrevTime(prev: real, bs: seq<Boundary>, i: nat): real
    requires i <= |bs|
  {
    if i == 0 then prev else bs[i - 1].time
  }

  /** The `zip([[0.0, ""]] + boundslist, boundslist)` pairing, before any filtering. */
  function IntervalsFrom(prev: real, bs: seq<Boundary>): (r: seq<Segment>)
    ensures |r| == |bs|
    decreases |bs|
  {
    if bs == [] then [] else [IntervalOf(prev, bs[0])] + IntervalsFrom(bs[0].time, bs[1..])
  }

  /** Interval i runs from the end of boundary i-1 (`prev` for the first) to
      the end of boundary i. */
  lemma {:induction false} IntervalsAt(prev: real, bs: seq<Boundary>)
    ensures forall i :: 0 <= i < |bs| ==> IntervalsFrom(prev, bs)[i] == IntervalOf(PrevTime(prev, bs, i), bs[i])
    decreases |bs|
  {
    if bs != [] {
      IntervalsAt(bs[0].time, bs[1..]);
      assert forall i :: 0 < i < |bs| ==> PrevTime(prev, bs, i) == PrevTime(bs[0].time, bs[1..], i - 1);
    }
  }

  function Intervals(bs: seq<Boundary>): seq<Segment> {
    IntervalsFrom(0.0, bs)
  }

  /** The position of the first interval that reaches the `break`, or the
      length when none does. */
  function StopIndex(segs: seq<Segment>, q: Query): (k: nat)
    ensures k <= |segs|
  {
    if segs == [] || Halts(segs[0], q) then 0 else 1 + StopIndex(segs[1..], q)
  }

  /** The stop index is the first interval that halts. */
  lemma {:induction false} StopIndexFirst(segs: seq<Segment>, q: Query)
    ensures StopIndex(segs, q) < |segs| ==> Halts(segs[StopIndex(segs, q)], q)
    ensures forall i :: 0 <= i < StopIndex(segs, q) ==> !Halts(segs[i], q)
  {
    if segs != [] && !Halts(segs[0], q) {
      StopIndexFirst(segs[1..], q);
    }
  }

  /** The intervals that pass the `continue` tests, in order. */
  function Keep(segs: seq<Segment>, q: Query): (r: seq<Segment>)
    ensures |r| <= |segs|
  {
    if segs == [] then []
    else (if Admitted(segs[0], q) then [segs[0]] else []) + Keep(segs[1..], q)
  }

  /** Keep retains exactly the admitted intervals. */
  lemma {:induction false} KeepMembership(segs: seq<Segment>, q: Query)
    ensures forall s :: s in Keep(segs, q) <==> s in segs && Admitted(s, q)
  {
    if segs != [] {
      KeepMembership(segs[1..], q);
      assert segs == [segs[0]] + segs[1..];
    }
  }

  lemma {:induction false} DecodeFromAsFilter(prev: real, bs: seq<Boundary>, q: Query)
    ensures DecodeFrom(prev, bs, q)
         == Keep(IntervalsFrom(prev, bs)[..StopIndex(IntervalsFrom(prev, bs), q)], q)
    decreases |bs|
  {
    if bs != [] {
      var seg := IntervalOf(prev, bs[0]);
      var rest := IntervalsFrom(bs[0].time, bs[1..]);
      var raw := IntervalsFrom(prev, bs);
      assert raw == [seg] + rest;
      DecodeFromAsFilter(bs[0].time, bs[1..], q);
      if !Halts(seg, q) {
        var k := StopIndex(rest, q);
        StopIndexCons(seg, rest, q);
        assert raw[..k + 1] == [seg] + rest[..k];
        KeepCons(seg, rest[..k], q);
      }
    }
  }

  lemma StopIndexCons(s: Segment, rest: seq<Segment>, q: Query)
    requires !Halts(s, q)
    ensures StopIndex([s] + rest, q) == 1 + StopIndex(rest, q)
  {
    assert ([s] + rest)[1..] == rest;
  }

  lemma KeepCons(s: Segment, rest: seq<Segment>, q: Query)
    ensures Keep([s] + rest, q) == (if Admitted(s, q) then [s] else []) + Keep(rest, q)
  {
    assert ([s] + rest)[1..] == rest;
  }

  /** Decoding is "pair each boundary with the previous one, cut at the first
      interval that passes the `continue` tests but lies beyond the window's
      end, and keep those that pass the `continue` tests": nothing after the
      `break` is ever yielded. */
  lemma DecodeAsFilter(bs: seq<Boundary>, q: Query)
    ensures GetSegments(bs, q) == Keep(Intervals(bs)[..StopIndex(Intervals(bs), q)], q)
  {
    DecodeFromAsFilter(0.0, bs, q);
  }

  /** A segment is yielded exactly when some interval before the `break`
      passes the `continue` tests and equals it. */
  lemma DecodeMembership(bs: seq<Boundary>, q: Query, s: Segment)
    ensures s in GetSegments(bs, q) <==>
      exists i :: 0 <= i < StopIndex(Intervals(bs), q) && Intervals(bs)[i] == s && Admitted(s, q)
  {
    DecodeAsFilter(bs, q);
    var raw := Intervals(bs);
    var k := StopIndex(raw, q);
    var cut := raw[..k];
    KeepMembership(cut, q);
    assert s in GetSegments(bs, q) <==> s in cut && Admitted(s, q);
    if s in cut {
      var i :| 0 <= i < |cut| && cut[i] == s;
      assert raw[i] == s;
    }
    if i :| 0 <= i < k && raw[i] == s {
      assert cut[i] == s;
    }
  }

  lemma {:induction false} DecodeFromStripped(prev: real, bs: seq<Boundary>, q: Query)
    ensures forall i :: 0 <= i < |DecodeFrom(prev, bs, q)| ==> IsTrimmed(DecodeFrom(prev, bs, q)[i].text, Whitespace)
    decreases |bs|
  {
    if bs != [] {
      DecodeFromStripped(bs[0].time, bs[1..], q);
      TrimIsTrimmed(bs[0].text, Whitespace);
    }
  }

  /** Every decoded label is stripped of surrounding whitespace. */
  lemma DecodeStripped(bs: seq<Boundary>, q: Query)
    ensures forall i :: 0 <= i < |GetSegments(bs, q)| ==> IsTrimmed(GetSegments(bs, q)[i].text, Whitespace)
  {
    DecodeFromStripped(0.0, bs, q);
  }

  /** With no optional arguments, decoding pairs every boundary with the
      previous one: interval i starts where boundary i-1 ends (0.0 for the
      first) and carries boundary i's time and stripped text. */
  lemma {:induction false} DecodeEverythingFrom(prev: real, bs: seq<Boundary>)
    ensures DecodeFrom(prev, bs, Everything) == IntervalsFrom(prev, bs)
    decreases |bs|
  {
    if bs != [] {
      DecodeEverythingFrom(bs[0].time, bs[1..]);
    }
  }

  lemma DecodeEverything(bs: seq<Boundary>)
    ensures |GetSegments(bs, Everything)| == |bs|
    ensures forall i :: 0 <= i < |bs| ==>
      GetSegments(bs, Everything)[i] == Segment(PrevTime(0.0, bs, i), bs[i].time, Strip(bs[i].text))
  {
    DecodeEverythingFrom(0.0, bs);
    IntervalsAt(0.0, bs);
  }

  /** `segs_to_tier`, as a function of the running end time `prev`. */
  function EncodeFrom(prev: real, segs: seq<Segment>): seq<Boundary>
    decreases |segs|
  {
    if segs == [] then []
    else
      var s := segs[0];
      (if s.start != prev then [Boundary(s.start, EmptySegment)] else [])
      + [Boundary(s.end, s.text)]
      + EncodeFrom(s.end, segs[1..])
  }

  /** One boundary per segment, and at most one filler before each. */
  function Encode(segs: seq<Segment>): (r: seq<Boundary>)
    ensures |segs| <= |r| <= 2 * |segs|
  {
    EncodeLength(0.0, segs);
    EncodeFrom(0.0, segs)
  }

  lemma {:induction false} EncodeLength(prev: real, segs: seq<Segment>)
    ensures |segs| <= |EncodeFrom(prev, segs)| <= 2 * |segs|
    decreases |segs|
  {
    if segs != [] {
      EncodeLength(segs[0].end, segs[1..]);
    }
  }

  /** `segs_to_tier(segs)`. */
  method SegsToTier(segs: seq<Segment>) returns (tier: seq<Boundary>)
    ensures tier == Encode(segs)
  {
    tier := [];
    var prevT := 0.0;
    for i := 0 to |segs|
      invariant tier + EncodeFrom(prevT, segs[i..]) == EncodeFrom(0.0, segs)
    {
      var seg := segs[i];
      assert segs[i..][1..] == segs[i + 1..];
      if seg.start != prevT {
        tier := tier + [Boundary(seg.start, EmptySegment)];
      }
      tier := tier + [Boundary(seg.end, seg.text)];
      prevT := seg.end;
    }
    assert segs[|segs|..] == [];
  }

  /** The time the running end reaches after encoding `segs` from `prev`. */
  function LastEnd(prev: real, segs: seq<Segment>): real {
    if segs == [] then prev else segs[|segs| - 1].end
  }

  /** Segments whose labels are stripped and not empty: the labels that survive
      decoding with an ignore set containing the filler text. */
  predicate RealLabels(segs: seq<Segment>) {
    forall i :: 0 <= i < |segs| ==> segs[i].text != EmptySegment && IsTrimmed(segs[i].text, Whitespace)
  }

  /** Each segment starts where the previous one ends, the first at `prev`. */
  predicate ContiguousFrom(prev: real, segs: seq<Segment>) {
    (segs != [] ==> segs[0].start == prev)
    && forall i :: 0 < i < |segs| ==> segs[i].start == segs[i - 1].end
  }

  predicate StrippedLabels(segs: seq<Segment>) {
    forall i :: 0 <= i < |segs| ==> IsTrimmed(segs[i].text, Whitespace)
  }

  /** The boundary times never decrease and are not negative. */
  predicate Monotone(bs: seq<Boundary>) {
    (bs != [] ==> 0.0 <= bs[0].time)
    && forall i, j :: 0 <= i < j < |bs| ==> bs[i].time <= bs[j].time
  }

  function FillerFree(ignore: set<string>): Query {
    Query(None, None, ignore)
  }

  /** One step of the generator. */
  lemma DecodeStep(prev: real, b: Boundary, rest: seq<Boundary>, q: Query)
    ensures DecodeFrom(prev, [b] + rest, q)
         == if !Admitted(IntervalOf(prev, b), q) then DecodeFrom(b.time, rest, q)
            else if AfterWindow(IntervalOf(prev, b), q) then []
            else [IntervalOf(prev, b)] + DecodeFrom(b.time, rest, q)
  {
    assert ([b] + rest)[1..] == rest;
  }

  /** Decoding a filler boundary while ignoring the filler text yields nothing. */
  lemma DecodeFillerStep(prev: real, t: real, rest: seq<Boundary>, q: Query)
    requires EmptySegment in q.ignore
    ensures DecodeFrom(prev, [Boundary(t, EmptySegment)] + rest, q) == DecodeFrom(t, rest, q)
  {
    DecodeStep(prev, Boundary(t, EmptySegment), rest, q);
    StripTrimmed(EmptySegment);
  }

  /** Decoding the boundary of a segment with a stripped, kept label, with no
      window, yields that segment. */
  lemma DecodeSegmentStep(s: Segment, rest: seq<Boundary>, q: Query)
    requires q.start.None? && q.end.None?
    requires s.text !in q.ignore && IsTrimmed(s.text, Whitespace)
    ensures DecodeFrom(s.start, [Boundary(s.end, s.text)] + rest, q) == [s] + DecodeFrom(s.end, rest, q)
  {
    DecodeStep(s.start, Boundary(s.end, s.text), rest, q);
    StripTrimmed(s.text);
    assert IntervalOf(s.start, Boundary(s.end, s.text)) == s;
  }

  /** One step of the encoder, followed by a tail. */
  lemma EncodeStep(prev: real, segs: seq<Segment>, tail: seq<Boundary>)
    requires segs != []
    ensures EncodeFrom(prev, segs) + tail
         == (if segs[0].start != prev then [Boundary(segs[0].start, EmptySegment)] else [])
            + ([Boundary(segs[0].end, segs[0].text)] + (EncodeFrom(segs[0].end, segs[1..]) + tail))
  {
  }

  lemma PrependAppend<T>(xs: seq<T>, ys: seq<T>)
    requires xs != []
    ensures [xs[0]] + (xs[1..] + ys) == xs + ys
  {
    assert [xs[0]] + xs[1..] == xs;
  }

  /** Encoding and then decoding while ignoring the filler text gives back
      the segments, followed by whatever the rest of the tier decodes to. */
  lemma {:induction false} EncodeDecodeFrom(prev: real, segs: seq<Segment>, tail: seq<Boundary>, ignore: set<string>)
    requires RealLabels(segs)
    requires EmptySegment in ignore
    requires forall i :: 0 <= i < |segs| ==> segs[i].text !in ignore
    ensures DecodeFrom(prev, EncodeFrom(prev, segs) + tail, FillerFree(ignore))
         == segs + DecodeFrom(LastEnd(prev, segs), tail, FillerFree(ignore))
    decreases |segs|
  {
    var q := FillerFree(ignore);
    if segs == [] {
      assert EncodeFrom(prev, segs) + tail == tail;
    } else {
      var s := segs[0];
      var more := segs[1..];
      var rest := EncodeFrom(s.end, more) + tail;
      assert RealLabels(more) && forall i :: 0 <= i < |more| ==> more[i].text !in ignore by {
        forall i | 0 <= i < |more| ensures more[i] == segs[i + 1] { }
      }
      assert LastEnd(prev, segs) == LastEnd(s.end, more);
      EncodeDecodeFrom(s.end, more, tail, ignore);
      EncodeStep(prev, segs, tail);
      DecodeSegmentStep(s, rest, q);
      var tailSegs := DecodeFrom(LastEnd(prev, segs), tail, q);
      assert DecodeFrom(s.start, [Boundary(s.end, s.text)] + rest, q) == [s] + (more + tailSegs);
      var body := [Boundary(s.end, s.text)] + rest;
      if s.start != prev {
        assert EncodeFrom(prev, segs) + tail == [Boundary(s.start, EmptySegment)] + body;
        DecodeFillerStep(prev, s.start, body, q);
      } else {
        assert EncodeFrom(prev, segs) + tail == body;
      }
      assert DecodeFrom(prev, EncodeFrom(prev, segs) + tail, q) == [s] + (more + tailSegs);
      PrependAppend(segs, tailSegs);
    }
  }

  /** Round trip, for any segments: decoding the encoded tier while ignoring
      the filler text gives back exactly the segments. */
  lemma RoundTripIgnoringFiller(segs: seq<Segment>)
    requires RealLabels(segs)
    ensures GetSegments(Encode(segs), FillerFree({EmptySegment})) == segs
  {
    EncodeDecodeFrom(0.0, segs, [], {EmptySegment});
    assert Encode(segs) + [] == Encode(segs);
  }

  lemma {:induction false} EncodeContiguousFrom(prev: real, segs: seq<Segment>)
    requires ContiguousFrom(prev, segs) && StrippedLabels(segs)
    ensures |EncodeFrom(prev, segs)| == |segs|
    ensures DecodeFrom(prev, EncodeFrom(prev, segs), Everything) == segs
    decreases |segs|
  {
    if segs != [] {
      var s := segs[0];
      StripTrimmed(s.text);
      assert ContiguousFrom(s.end, segs[1..]) by {
        forall i | 0 < i < |segs[1..]| ensures segs[1..][i].start == segs[1..][i - 1].end {
          assert segs[1..][i] == segs[i + 1];
        }
      }
      EncodeContiguousFrom(s.end, segs[1..]);
      assert s.start == prev;
      var all := [Boundary(s.end, s.text)] + EncodeFrom(s.end, segs[1..]);
      assert EncodeFrom(prev, segs) == all;
      assert all[1..] == EncodeFrom(s.end, segs[1..]);
      assert [s] + segs[1..] == segs;
    }
  }

  /** Round trip for a gap-free tier: segments that start at 0 and each start
      where the previous ends encode to one boundary each (no filler) and
      decode back to themselves. */
  lemma RoundTripContiguous(segs: seq<Segment>)
    requires ContiguousFrom(0.0, segs) && StrippedLabels(segs)
    ensures |Encode(segs)| == |segs|
    ensures GetSegments(Encode(segs), Everything) == segs
  {
    EncodeContiguousFrom(0.0, segs);
  }

  lemma {:induction false} EncodeFromLast(prev: real, segs: seq<Segment>)
    ensures (EncodeFrom(prev, segs) == []) == (segs == [])
    ensures segs != [] ==>
      EncodeFrom(prev, segs)[|EncodeFrom(prev, segs)| - 1]
        == Boundary(segs[|segs| - 1].end, segs[|segs| - 1].text)
    decreases |segs|
  {
    if segs != [] {
      EncodeFromLast(segs[0].end, segs[1..]);
    }
  }

  /** The encoded tier is empty exactly when there are no segments, and
      otherwise its last boundary is the last segment's end and text. */
  lemma EncodeLast(segs: seq<Segment>)
    ensures (Encode(segs) == []) == (segs == [])
    ensures segs != [] ==>
      Encode(segs)[|Encode(segs)| - 1] == Boundary(segs[|segs| - 1].end, segs[|segs| - 1].text)
  {
    EncodeFromLast(0.0, segs);
  }
}
