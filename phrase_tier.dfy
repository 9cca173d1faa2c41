/** The phrase segmenter of scripts/add_phr_tier.py (lines 31-46 of `main`):
    every maximal run of non-silence phones becomes one "IP" segment, and the
    encoded phrase tier is padded to the end of the phone tier. */
module PhraseTier {
  import opened Wrappers
  import opened Text
  import opened Tiers

  /** `SIL_PHNS`: pause, silence and the empty filler label. */
  const SilencePhones: set<string> := {"sp", "sil", ""}

  /** The label of every phrase segment. */
  const PhraseLabel: string := "IP"

  predicate Silent(s: Segment) {
    s.text in SilencePhones
  }

  /** Segment i begins a run of non-silence segments. */
  predicate RunStart(segs: seq<Segment>, i: nat)
    requires i < |segs|
  {
    !Silent(segs[i]) && (i == 0 || Silent(segs[i - 1]))
  }

  /** The positions below n where a run begins, in increasing order. */
  function StartsBelow(segs: seq<Segment>, n: nat): (r: seq<nat>)
    requires n <= |segs|
    ensures forall k :: 0 <= k < |r| ==> r[k] < n && RunStart(segs, r[k])
  {
    if n == 0 then []
    else StartsBelow(segs, n - 1) + (if RunStart(segs, n - 1) then [n - 1] else [])
  }

  /** The run starts come in increasing order and include every run start. */
  lemma {:induction false} StartsBelowSorted(segs: seq<Segment>, n: nat)
    requires n <= |segs|
    ensures forall k, l :: 0 <= k < l < |StartsBelow(segs, n)| ==> StartsBelow(segs, n)[k] < StartsBelow(segs, n)[l]
    ensures forall i :: 0 <= i < n && RunStart(segs, i) ==> i in StartsBelow(segs, n)
  {
    if n > 0 {
      StartsBelowSorted(segs, n - 1);
    }
  }

  function RunStarts(segs: seq<Segment>): seq<nat> {
    StartsBelow(segs, |segs|)
  }

  /** The first silence at or after i, or the end of the list. */
  function RunEnd(segs: seq<Segment>, i: nat): (e: nat)
    requires i <= |segs|
    ensures i <= e <= |segs|
    ensures forall j :: i <= j < e ==> !Silent(segs[j])
    ensures e < |segs| ==> Silent(segs[e])
    decreases |segs| - i
  {
    if i == |segs| || Silent(segs[i]) then i else RunEnd(segs, i + 1)
  }

  /** The phrase of the run that begins at s. */
  function PhraseAt(segs: seq<Segment>, s: nat): Segment
    requires s < |segs| && RunStart(segs, s)
  {
    Segment(segs[s].start, segs[RunEnd(segs, s) - 1].end, PhraseLabel)
  }

  /** The phrases: one per maximal run, from the start of its first segment
      to the end of its last. */
  function Phrases(segs: seq<Segment>): (r: seq<Segment>)
    ensures |r| == |RunStarts(segs)|
  {
    var st := RunStarts(segs);
    seq(|st|, k requires 0 <= k < |st| => PhraseAt(segs, st[k]))
  }

  // ---------------------------------------------------------------------
  // The loop

  function Min(a: nat, b: nat): nat {
    if a <= b then a else b
  }

  /** `phrs` after the first i segments: the runs begun so far, the last
      one possibly still open and ending at segment i-1. */
  function PhrasesSoFar(segs: seq<Segment>, i: nat): (r: seq<Segment>)
    requires i <= |segs|
    ensures |r| == |StartsBelow(segs, i)|
  {
    var st := StartsBelow(segs, i);
    seq(|st|, k requires 0 <= k < |st| => OpenPhraseAt(segs, st[k], i))
  }

  /** The phrase of the run that begins at s, cut off before segment i. */
  function OpenPhraseAt(segs: seq<Segment>, s: nat, i: nat): Segment
    requires s < i <= |segs| && !Silent(segs[s])
  {
    Segment(segs[s].start, segs[Min(RunEnd(segs, s), i) - 1].end, PhraseLabel)
  }

  /** A run that begins before i and is not the last one begun before i
      has ended by i-1. */
  lemma EarlierRunsClosed(segs: seq<Segment>, i: nat, k: nat)
    requires i <= |segs|
    requires k + 1 < |StartsBelow(segs, i)|
    ensures RunEnd(segs, StartsBelow(segs, i)[k]) < i
  {
    var st := StartsBelow(segs, i);
    StartsBelowSorted(segs, i);
    var next := st[k + 1];
    assert st[k] < next && Silent(segs[next - 1]);
  }

  /** When segment i-1 is not silent, some run has begun before i, and the
      last one begun is still open at i-1. */
  lemma {:induction false} OpenRun(segs: seq<Segment>, i: nat)
    requires 0 < i <= |segs| && !Silent(segs[i - 1])
    ensures StartsBelow(segs, i) != []
    ensures RunEnd(segs, StartsBelow(segs, i)[|StartsBelow(segs, i)| - 1]) >= i
  {
    if RunStart(segs, i - 1) {
      assert StartsBelow(segs, i) == StartsBelow(segs, i - 1) + [i - 1];
    } else {
      OpenRun(segs, i - 1);
      var st := StartsBelow(segs, i - 1);
      assert StartsBelow(segs, i) == st + [];
      assert st + [] == st;
      var e := RunEnd(segs, st[|st| - 1]);
      assert e >= i - 1;
      assert e != i - 1;
    }
  }

  /** The step of the loop for a silence segment. */
  lemma StepSilent(segs: seq<Segment>, i: nat)
    requires i < |segs| && Silent(segs[i])
    ensures PhrasesSoFar(segs, i + 1) == PhrasesSoFar(segs, i)
  {
    var st := StartsBelow(segs, i);
    assert StartsBelow(segs, i + 1) == st;
    forall k | 0 <= k < |st| ensures RunEnd(segs, st[k]) <= i { }
  }

  /** The step of the loop that opens a phrase. */
  lemma StepOpen(segs: seq<Segment>, i: nat)
    requires i < |segs| && !Silent(segs[i]) && (i == 0 || Silent(segs[i - 1]))
    ensures PhrasesSoFar(segs, i + 1)
         == PhrasesSoFar(segs, i) + [Segment(segs[i].start, segs[i].end, PhraseLabel)]
  {
    var st := StartsBelow(segs, i);
    var st1 := StartsBelow(segs, i + 1);
    assert st1 == st + [i];
    var a := PhrasesSoFar(segs, i + 1);
    var b := PhrasesSoFar(segs, i) + [Segment(segs[i].start, segs[i].end, PhraseLabel)];
    forall k | 0 <= k < |st| ensures a[k] == b[k] {
      assert st1[k] == st[k];
      ClosedRunUnchanged(segs, st[k], i);
    }
    assert st1[|st|] == i;
    assert a[|st|] == b[|st|];
  }

  /** A run that has met its closing silence before i is unaffected by
      segment i. */
  lemma ClosedRunUnchanged(segs: seq<Segment>, s: nat, i: nat)
    requires s < i < |segs| && !Silent(segs[s]) && RunEnd(segs, s) <= i
    ensures OpenPhraseAt(segs, s, i + 1) == OpenPhraseAt(segs, s, i)
  {
  }

  /** The step of the loop that extends the open phrase. */
  lemma StepExtend(segs: seq<Segment>, i: nat)
    requires 0 < i < |segs| && !Silent(segs[i]) && !Silent(segs[i - 1])
    ensures PhrasesSoFar(segs, i) != []
    ensures var p := PhrasesSoFar(segs, i);
      PhrasesSoFar(segs, i + 1)
      == p[..|p| - 1] + [Segment(p[|p| - 1].start, segs[i].end, PhraseLabel)]
  {
    var st := StartsBelow(segs, i);
    var st1 := StartsBelow(segs, i + 1);
    OpenRun(segs, i);
    assert st1 == st + [];
    assert st + [] == st;
    var p := PhrasesSoFar(segs, i);
    var a := PhrasesSoFar(segs, i + 1);
    var b := p[..|p| - 1] + [Segment(p[|p| - 1].start, segs[i].end, PhraseLabel)];
    forall k | 0 <= k < |st| - 1 ensures a[k] == b[k] {
      EarlierRunsClosed(segs, i, k);
      ClosedRunUnchanged(segs, st[k], i);
      assert b[k] == p[k];
    }
    var last := |st| - 1;
    assert RunEnd(segs, st[last]) >= i + 1;
    assert a[last] == b[last];
    assert |a| == |b|;
  }

  /** The `for seg in segs` loop with its `in_phr` flag. */
  method PhraseSegments(segs: seq<Segment>) returns (phrs: seq<Segment>)
    ensures phrs == Phrases(segs)
  {
    phrs := [];
    var inPhr := false;
    for i := 0 to |segs|
      invariant phrs == PhrasesSoFar(segs, i)
      invariant inPhr == (i > 0 && !Silent(segs[i - 1]))
    {
      var seg := segs[i];
      if seg.text in SilencePhones {
        StepSilent(segs, i);
        inPhr := false;
      } else {
        if !inPhr {
          StepOpen(segs, i);
          inPhr := true;
          phrs := phrs + [Segment(seg.start, seg.end, PhraseLabel)];
        } else {
          StepExtend(segs, i);
          var lastp := phrs[|phrs| - 1];
          phrs := phrs[..|phrs| - 1];
          phrs := phrs + [Segment(lastp.start, seg.end, PhraseLabel)];
        }
      }
    }
    SoFarComplete(segs);
  }

  /** After the last segment every run is closed. */
  lemma SoFarComplete(segs: seq<Segment>)
    ensures PhrasesSoFar(segs, |segs|) == Phrases(segs)
  {
    var st := RunStarts(segs);
    assert forall k :: 0 <= k < |st| ==> Min(RunEnd(segs, st[k]), |segs|) == RunEnd(segs, st[k]);
  }

  // ---------------------------------------------------------------------
  // What the phrases are

  /** Every phrase is the maximal run that it begins with: it starts at a
      non-silence segment preceded by silence (or by nothing), covers only
      non-silence segments, and stops at a silence or at the end. */
  lemma PhraseIsMaximalRun(segs: seq<Segment>, k: nat)
    requires k < |Phrases(segs)|
    ensures var s := RunStarts(segs)[k]; var e := RunEnd(segs, s);
      s < e
      && Phrases(segs)[k] == Segment(segs[s].start, segs[e - 1].end, PhraseLabel)
      && (s == 0 || Silent(segs[s - 1]))
      && (forall j :: s <= j < e ==> !Silent(segs[j]))
      && (e == |segs| || Silent(segs[e]))
  {
  }

  /** Runs come in order and do not overlap: a later run begins after an
      earlier one has met its closing silence. */
  lemma RunsDisjoint(segs: seq<Segment>, k: nat, l: nat)
    requires k < l < |RunStarts(segs)|
    ensures RunEnd(segs, RunStarts(segs)[k]) < RunStarts(segs)[l]
  {
    var st := RunStarts(segs);
    StartsBelowSorted(segs, |segs|);
    assert st[k] < st[l] && Silent(segs[st[l] - 1]);
  }

  /** A non-silence segment lies in the run of some phrase. */
  lemma {:induction false} InSomeRun(segs: seq<Segment>, j: nat) returns (k: nat)
    requires j < |segs| && !Silent(segs[j])
    ensures k < |RunStarts(segs)|
    ensures RunStarts(segs)[k] <= j < RunEnd(segs, RunStarts(segs)[k])
  {
    var st := RunStarts(segs);
    if RunStart(segs, j) {
      StartsBelowSorted(segs, |segs|);
      assert j in st;
      k :| 0 <= k < |st| && st[k] == j;
    } else {
      k := InSomeRun(segs, j - 1);
      assert RunEnd(segs, st[k]) != j;
    }
  }

  /** A segment is covered by a phrase exactly when it is not silence, and
      then by exactly one. */
  lemma PhrasesCover(segs: seq<Segment>, j: nat)
    requires j < |segs|
    ensures (exists k :: 0 <= k < |RunStarts(segs)|
               && RunStarts(segs)[k] <= j < RunEnd(segs, RunStarts(segs)[k]))
            <==> !Silent(segs[j])
    ensures forall k, l ::
      (0 <= k < l < |RunStarts(segs)| && RunStarts(segs)[k] <= j < RunEnd(segs, RunStarts(segs)[k]))
      ==> !(RunStarts(segs)[l] <= j < RunEnd(segs, RunStarts(segs)[l]))
  {
    if !Silent(segs[j]) {
      var k := InSomeRun(segs, j);
    }
    forall k, l | 0 <= k < l < |RunStarts(segs)|
      && RunStarts(segs)[k] <= j < RunEnd(segs, RunStarts(segs)[k])
      ensures !(RunStarts(segs)[l] <= j < RunEnd(segs, RunStarts(segs)[l]))
    {
      RunsDisjoint(segs, k, l);
    }
  }

  /** There is no phrase exactly when every segment is silence. */
  lemma NoPhrases(segs: seq<Segment>)
    ensures Phrases(segs) == [] <==> forall j :: 0 <= j < |segs| ==> Silent(segs[j])
  {
    if j :| 0 <= j < |segs| && !Silent(segs[j]) {
      var k := InSomeRun(segs, j);
    }
    if Phrases(segs) != [] {
      assert !Silent(segs[RunStarts(segs)[0]]);
    }
  }

  /** The number of non-silence segments among the first n. */
  function Sounding(segs: seq<Segment>, n: nat): nat
    requires n <= |segs|
  {
    if n == 0 then 0 else Sounding(segs, n - 1) + (if Silent(segs[n - 1]) then 0 else 1)
  }

  lemma {:induction false} StartsBelowSounding(segs: seq<Segment>, n: nat)
    requires n <= |segs|
    ensures |StartsBelow(segs, n)| <= Sounding(segs, n)
  {
    if n > 0 {
      StartsBelowSounding(segs, n - 1);
    }
  }

  /** There are never more phrases than non-silence segments. */
  lemma PhraseCount(segs: seq<Segment>)
    ensures |Phrases(segs)| <= Sounding(segs, |segs|)
  {
    StartsBelowSounding(segs, |segs|);
  }

  /** Every segment ends no later than any later segment starts, and no
      segment ends before it starts. */
  predicate Chronological(segs: seq<Segment>) {
    (forall i :: 0 <= i < |segs| ==> segs[i].start <= segs[i].end)
    && forall i, j :: 0 <= i < j < |segs| ==> segs[i].end <= segs[j].start
  }

  /** Phrases of chronological segments are chronological. */
  lemma PhrasesChronological(segs: seq<Segment>)
    requires Chronological(segs)
    ensures Chronological(Phrases(segs))
  {
    var st := RunStarts(segs);
    var p := Phrases(segs);
    forall i | 0 <= i < |p| ensures p[i].start <= p[i].end {
      var e := RunEnd(segs, st[i]);
      if st[i] < e - 1 {
        assert segs[st[i]].end <= segs[e - 1].start;
      }
    }
    forall i, j | 0 <= i < j < |p| ensures p[i].end <= p[j].start {
      RunsDisjoint(segs, i, j);
    }
  }

  /** Decoding a tier whose times never decrease gives chronological segments. */
  lemma DecodeChronological(bs: seq<Boundary>)
    requires Monotone(bs)
    ensures Chronological(GetSegments(bs, Everything))
  {
    DecodeEverything(bs);
    var segs := GetSegments(bs, Everything);
    forall i | 0 <= i < |segs| ensures segs[i].start <= segs[i].end {
      if i > 0 {
        assert bs[i - 1].time <= bs[i].time;
      }
    }
    forall i, j | 0 <= i < j < |segs| ensures segs[i].end <= segs[j].start {
      assert segs[j].start == bs[j - 1].time;
      if i < j - 1 {
        assert bs[i].time <= bs[j - 1].time;
      }
    }
  }

  /** "p", then a pause, then "t a", then silence: two phrases, the second
      spanning both phones of the middle run. */
  lemma PhraseExample()
    ensures Phrases([Segment(0.0, 1.0, "p"), Segment(1.0, 2.0, "sp"), Segment(2.0, 3.0, "t"),
                     Segment(3.0, 4.0, "a"), Segment(4.0, 5.0, "sil")])
         == [Segment(0.0, 1.0, PhraseLabel), Segment(2.0, 4.0, PhraseLabel)]
  {
    var segs := [Segment(0.0, 1.0, "p"), Segment(1.0, 2.0, "sp"), Segment(2.0, 3.0, "t"),
                 Segment(3.0, 4.0, "a"), Segment(4.0, 5.0, "sil")];
    assert "p" !in SilencePhones && "t" !in SilencePhones && "a" !in SilencePhones;
    assert StartsBelow(segs, 1) == [0];
    assert StartsBelow(segs, 2) == [0];
    assert StartsBelow(segs, 3) == [0, 2];
    assert StartsBelow(segs, 4) == [0, 2];
    assert RunStarts(segs) == [0, 2];
    assert RunEnd(segs, 0) == 1;
    assert RunEnd(segs, 2) == 4;
  }

  // ---------------------------------------------------------------------
  // The phrase tier

  /** Lines 31-46: the phone tier decoded in full, the phrases encoded, and
      a filler boundary appended when the phrases end before the phone
      tier does. None where `phrtier[-1]` would raise: the tier has no
      phrase. */
  function PhraseTierOf(phntier: seq<Boundary>): (r: Option<seq<Boundary>>)
    ensures r.Some? ==>
      phntier != [] && r.value != [] && r.value[|r.value| - 1].time == phntier[|phntier| - 1].time
  {
    var phrtier := Encode(Phrases(GetSegments(phntier, Everything)));
    if phrtier == [] || phntier == [] then None
    else if phrtier[|phrtier| - 1].time != phntier[|phntier| - 1].time
    then Some(phrtier + [Boundary(phntier[|phntier| - 1].time, EmptySegment)])
    else Some(phrtier)
  }

  method AddPhraseTier(phntier: seq<Boundary>) returns (r: Option<seq<Boundary>>)
    ensures r == PhraseTierOf(phntier)
  {
    var segs := GetSegments(phntier, Everything);
    var phrs := PhraseSegments(segs);
    var phrtier := SegsToTier(phrs);
    if phrtier == [] {
      return None;
    }
    EncodeLast(phrs);
    assert |segs| <= |phntier|;
    if phrtier[|phrtier| - 1].time != phntier[|phntier| - 1].time {
      phrtier := phrtier + [Boundary(phntier[|phntier| - 1].time, EmptySegment)];
    }
    return Some(phrtier);
  }

  /** There is a phrase tier exactly when there is a phrase; it then ends
      where the phone tier ends. */
  lemma PhraseTierSome(phntier: seq<Boundary>)
    ensures PhraseTierOf(phntier).Some? <==> Phrases(GetSegments(phntier, Everything)) != []
    ensures PhraseTierOf(phntier).Some? ==>
      var t := PhraseTierOf(phntier).value;
      t != [] && t[|t| - 1].time == phntier[|phntier| - 1].time
  {
    var p := Phrases(GetSegments(phntier, Everything));
    EncodeLast(p);
    if p != [] {
      assert |GetSegments(phntier, Everything)| <= |phntier|;
    }
  }

  /** There is a phrase tier exactly when some phone is not silence. */
  lemma PhraseTierDefined(phntier: seq<Boundary>)
    ensures PhraseTierOf(phntier).Some?
      <==> exists j :: 0 <= j < |phntier| && Strip(phntier[j].text) !in SilencePhones
  {
    var segs := GetSegments(phntier, Everything);
    DecodeEverything(phntier);
    NoPhrases(segs);
    PhraseTierSome(phntier);
    assert forall j :: 0 <= j < |phntier| ==> (Silent(segs[j]) <==> Strip(phntier[j].text) in SilencePhones);
  }

  lemma PhraseLabelReal(p: seq<Segment>)
    requires forall i :: 0 <= i < |p| ==> p[i].text == PhraseLabel
    ensures RealLabels(p)
  {
    assert !IsSpace('I') && !IsSpace('P');
  }

  /** Reading the phrase tier back, with the filler label ignored, gives the
      phrases. */
  lemma PhraseTierRoundTrip(phntier: seq<Boundary>)
    requires PhraseTierOf(phntier).Some?
    ensures GetSegments(PhraseTierOf(phntier).value, FillerFree({EmptySegment}))
         == Phrases(GetSegments(phntier, Everything))
  {
    var p := Phrases(GetSegments(phntier, Everything));
    var q := FillerFree({EmptySegment});
    PhraseLabelReal(p);
    var t := PhraseTierOf(phntier).value;
    if t == Encode(p) {
      RoundTripIgnoringFiller(p);
    } else {
      var tail := [Boundary(phntier[|phntier| - 1].time, EmptySegment)];
      EncodeDecodeFrom(0.0, p, tail, {EmptySegment});
      DecodeFillerStep(LastEnd(0.0, p), phntier[|phntier| - 1].time, [], q);
      assert tail + [] == tail;
    }
  }
}
