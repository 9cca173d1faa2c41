/** The word-to-syllable annotator of scripts/add_syl_tier.py
    (`syllabify_textgrid`) and the assembly of the "syllables" tier in
    `main`. */
module SyllableTier {
  import opened Wrappers
  import opened Text
  import opened Tiers
  import opened Syllabifier

  /** `IGNORE_WORDS`: unlabelled word intervals are not words. */
  const IgnoreWords: set<string> := {""}

  /** `get_segments(words, ignore=IGNORE_WORDS)`. */
  const WordQuery: Query := Query(None, None, IgnoreWords)

  /** `get_segments(phones, word.start, word.end)`: the phones inside the
      word's time span, up to the first one that reaches past its end. */
  function WordPhones(word: Segment, phones: seq<Boundary>): (r: seq<Segment>)
    ensures |r| <= |phones|
    ensures forall i :: 0 <= i < |r| ==> word.start <= r[i].start && r[i].end <= word.end
  {
    GetSegments(phones, Query(Some(word.start), Some(word.end), {}))
  }

  function Labels(segs: seq<Segment>): (r: seq<Phone>)
    ensures |r| == |segs|
  {
    seq(|segs|, i requires 0 <= i < |segs| => segs[i].text)
  }

  /** No phone of the word is outside the phone set. */
  predicate InPhoneset(segs: seq<Segment>, cfg: Phonology) {
    forall i :: 0 <= i < |segs| ==> segs[i].text in cfg.phoneset
  }

  /** The label of a syllable: the word, "_" and the hyphen-joined phones. */
  function SyllableLabel(word: string, syl: Syllable): (r: string)
    ensures |r| > |word| && r[..|word|] == word && r[|word|] == '_'
    ensures syl != [] ==> syl[0] <= r[|word| + 1..]
  {
    word + "_" + HyphenJoin(syl)
  }

  /** The segment of syllable i: from its first phone's start to its last
      phone's end, the phones being counted off the word's phones in order. */
  function SyllableSegment(word: Segment, wp: seq<Segment>, syls: seq<Syllable>, i: nat): Segment
    requires |Flatten(syls)| <= |wp|
    requires i < |syls| && syls[i] != []
  {
    FlattenSlice(syls, i);
    var o := Offset(syls, i);
    Segment(wp[o].start, wp[o + |syls[i]| - 1].end, SyllableLabel(word.text, syls[i]))
  }

  function SyllableSegments(word: Segment, wp: seq<Segment>, syls: seq<Syllable>): (r: seq<Segment>)
    requires |Flatten(syls)| <= |wp|
    requires forall i :: 0 <= i < |syls| ==> syls[i] != []
    ensures |r| == |syls|
  {
    seq(|syls|, i requires 0 <= i < |syls| => SyllableSegment(word, wp, syls, i))
  }

  /** What the loop body does with one word. */
  datatype WordOutcome =
    | OutOfPhoneset
    | Failed(error: SyllabifyError)
    | Syllabified(segs: seq<Segment>)

  function WordResult(word: Segment, phones: seq<Boundary>, cfg: Phonology): WordOutcome {
    var wp := WordPhones(word, phones);
    if !InPhoneset(wp, cfg) then OutOfPhoneset
    else
      match Syllabification(Labels(wp), cfg)
      case Err(e) => Failed(e)
      case Ok(syls) =>
        SyllablesFit(Labels(wp), cfg);
        Syllabified(SyllableSegments(word, wp, syls))
  }

  /** The syllable segments a word adds to `utt_syls`. */
  function Contribution(word: Segment, phones: seq<Boundary>, cfg: Phonology): seq<Segment> {
    match WordResult(word, phones, cfg)
    case Syllabified(segs) => segs
    case _ => []
  }

  /** The warning printed for a word whose syllabification raises. */
  datatype Warning = Warning(word: string, phones: seq<Segment>)

  /** The concatenation of `f(w)` over the words `w` of `ws`, in order. */
  function ConcatMap<T, U>(ws: seq<T>, f: T -> seq<U>): seq<U> {
    if ws == [] then [] else ConcatMap(ws[..|ws| - 1], f) + f(ws[|ws| - 1])
  }

  lemma {:induction false} ConcatMapAppend<T, U>(a: seq<T>, b: seq<T>, f: T -> seq<U>)
    ensures ConcatMap(a + b, f) == ConcatMap(a, f) + ConcatMap(b, f)
    decreases |b|
  {
    if b == [] {
      assert a + b == a;
    } else {
      var b' := b[..|b| - 1];
      assert (a + b)[..|a + b| - 1] == a + b';
      assert (a + b)[|a + b| - 1] == b[|b| - 1];
      ConcatMapAppend(a, b', f);
    }
  }

  /** The warning printed for a word, if any. */
  function WarningFor(w: Segment, phones: seq<Boundary>, cfg: Phonology): seq<Warning> {
    if WordResult(w, phones, cfg).Failed? then [Warning(w.text, WordPhones(w, phones))] else []
  }

  /** `utt_syls` after the words `ws`. */
  function AnnotateWords(ws: seq<Segment>, phones: seq<Boundary>, cfg: Phonology): seq<Segment> {
    ConcatMap(ws, w => Contribution(w, phones, cfg))
  }

  /** The warnings printed for the words `ws`. */
  function WarningsOf(ws: seq<Segment>, phones: seq<Boundary>, cfg: Phonology): seq<Warning> {
    ConcatMap(ws, w => WarningFor(w, phones, cfg))
  }

  /** The syllable segments of a whole utterance. */
  function Annotation(words: seq<Boundary>, phones: seq<Boundary>, cfg: Phonology): seq<Segment> {
    AnnotateWords(GetSegments(words, WordQuery), phones, cfg)
  }

  lemma AnnotateStep(ws: seq<Segment>, w: nat, phones: seq<Boundary>, cfg: Phonology)
    requires w < |ws|
    ensures AnnotateWords(ws[..w + 1], phones, cfg) == AnnotateWords(ws[..w], phones, cfg) + Contribution(ws[w], phones, cfg)
    ensures WarningsOf(ws[..w + 1], phones, cfg) == WarningsOf(ws[..w], phones, cfg) + WarningFor(ws[w], phones, cfg)
  {
    assert ws[..w + 1][..w] == ws[..w];
  }

  /** The inner loop of `syllabify_textgrid`: one segment per syllable,
      `phone_idx` counting off the word's phones. */
  method AppendSyllables(uttSyls: seq<Segment>, word: Segment, wordPhones: seq<Segment>, syllables: seq<Syllable>)
    returns (out: seq<Segment>)
    requires |Flatten(syllables)| <= |wordPhones|
    requires forall i :: 0 <= i < |syllables| ==> syllables[i] != []
    ensures out == uttSyls + SyllableSegments(word, wordPhones, syllables)
  {
    ghost var segs := SyllableSegments(word, wordPhones, syllables);
    out := uttSyls;
    var phoneIdx := 0;
    for s := 0 to |syllables|
      invariant phoneIdx == Offset(syllables, s)
      invariant out == uttSyls + segs[..s]
    {
      var syl := syllables[s];
      FlattenSlice(syllables, s);
      out := out + [Segment(wordPhones[phoneIdx].start,
                            wordPhones[phoneIdx + |syl| - 1].end,
                            word.text + "_" + HyphenJoin(syl))];
      assert segs[..s + 1] == segs[..s] + [segs[s]];
      phoneIdx := phoneIdx + |syl|;
    }
    assert segs[..|syllables|] == segs;
  }

  /** `syllabify_textgrid(words, phones, phoneset, syllabify)`, returning the
      warnings it prints as well. */
  method SyllabifyTextgrid(words: seq<Boundary>, phones: seq<Boundary>, cfg: Phonology)
    returns (uttSyls: seq<Segment>, warnings: seq<Warning>)
    ensures uttSyls == Annotation(words, phones, cfg)
    ensures warnings == WarningsOf(GetSegments(words, WordQuery), phones, cfg)
  {
    var ws := GetSegments(words, WordQuery);
    uttSyls := [];
    warnings := [];
    for w := 0 to |ws|
      invariant uttSyls == AnnotateWords(ws[..w], phones, cfg)
      invariant warnings == WarningsOf(ws[..w], phones, cfg)
    {
      var word := ws[w];
      AnnotateStep(ws, w, phones, cfg);
      var wordPhones := WordPhones(word, phones);
      if !InPhoneset(wordPhones, cfg) {
        continue;
      }
      var r := Syllabify(Labels(wordPhones), cfg);
      if r.Err? {
        warnings := warnings + [Warning(word.text, wordPhones)];
        continue;
      }
      SyllablesFit(Labels(wordPhones), cfg);
      uttSyls := AppendSyllables(uttSyls, word, wordPhones, r.value);
    }
    assert ws[..|ws|] == ws;
  }

  // ---------------------------------------------------------------------
  // Properties of the annotator

  /** Words are annotated independently: the segments of a list of words are
      those of its parts, one after the other, so a skipped or failing word
      changes nothing for the others. */
  lemma AnnotateConcat(a: seq<Segment>, b: seq<Segment>, phones: seq<Boundary>, cfg: Phonology)
    ensures AnnotateWords(a + b, phones, cfg) == AnnotateWords(a, phones, cfg) + AnnotateWords(b, phones, cfg)
    ensures WarningsOf(a + b, phones, cfg) == WarningsOf(a, phones, cfg) + WarningsOf(b, phones, cfg)
  {
    ConcatMapAppend(a, b, w => Contribution(w, phones, cfg));
    ConcatMapAppend(a, b, w => WarningFor(w, phones, cfg));
  }

  /** A word with a phone outside the phone set, or whose syllabification
      raises, adds no segment; only the second kind is reported. */
  lemma SkippedWord(word: Segment, phones: seq<Boundary>, cfg: Phonology)
    requires !InPhoneset(WordPhones(word, phones), cfg)
          || Syllabification(Labels(WordPhones(word, phones)), cfg).Err?
    ensures Contribution(word, phones, cfg) == []
    ensures WarningFor(word, phones, cfg)
         == if InPhoneset(WordPhones(word, phones), cfg) then [Warning(word.text, WordPhones(word, phones))] else []
  {
  }

  /** Unlabelled word intervals are never annotated. */
  lemma EmptyWordsIgnored(words: seq<Boundary>)
    ensures forall i :: 0 <= i < |GetSegments(words, WordQuery)| ==> GetSegments(words, WordQuery)[i].text != ""
  {
    assert forall i :: 0 <= i < |GetSegments(words, WordQuery)| ==> !Ignored(GetSegments(words, WordQuery)[i], WordQuery);
  }

  /** `segs` has one segment per syllable, each syllable non-empty and its segment running from the start of
      its first phone to the end of its last, within the word's span, and
      labelled `word_ph1-ph2-...`, the phones being counted off the word's
      phones `wp` in order. */
  predicate SpansOver(word: Segment, wp: seq<Segment>, syls: seq<Syllable>, segs: seq<Segment>) {
    |segs| == |syls|
    && forall i :: 0 <= i < |syls| ==>
      syls[i] != [] && Offset(syls, i) + |syls[i]| <= |wp|
      && segs[i].start == wp[Offset(syls, i)].start
      && segs[i].end == wp[Offset(syls, i) + |syls[i]| - 1].end
      && word.start <= segs[i].start && segs[i].end <= word.end
      && segs[i].text == SyllableLabel(word.text, syls[i])
  }

  /** The syllable segments laid over the phones of a word. */
  lemma SegmentsOverPhones(word: Segment, wp: seq<Segment>, syls: seq<Syllable>)
    requires |Flatten(syls)| <= |wp|
    requires forall i :: 0 <= i < |syls| ==> syls[i] != []
    requires forall i :: 0 <= i < |wp| ==> word.start <= wp[i].start && wp[i].end <= word.end
    ensures SpansOver(word, wp, syls, SyllableSegments(word, wp, syls))
  {
    forall i | 0 <= i < |syls|
      ensures Offset(syls, i) + |syls[i]| <= |wp|
    {
      FlattenSlice(syls, i);
    }
  }

  /** The phones of a word lie within the word's span. */
  lemma WordPhonesWithin(word: Segment, phones: seq<Boundary>)
    ensures var wp := WordPhones(word, phones);
      forall i :: 0 <= i < |wp| ==> word.start <= wp[i].start && wp[i].end <= word.end
  {
    var q := Query(Some(word.start), Some(word.end), {});
    assert forall i :: 0 <= i < |WordPhones(word, phones)| ==>
      !BeforeWindow(WordPhones(word, phones)[i], q) && !AfterWindow(WordPhones(word, phones)[i], q);
  }

  /** The segments of a word whose phones are all in the phone set are its
      syllables laid over its phones. */
  lemma SyllableSpans(word: Segment, phones: seq<Boundary>, cfg: Phonology)
    requires InPhoneset(WordPhones(word, phones), cfg)
    ensures Syllabification(Labels(WordPhones(word, phones)), cfg).Ok?
    ensures SpansOver(word, WordPhones(word, phones),
                      Syllabification(Labels(WordPhones(word, phones)), cfg).value,
                      Contribution(word, phones, cfg))
  {
    var wp := WordPhones(word, phones);
    var ps := Labels(wp);
    SyllabificationTotal(ps, cfg);
    var syls := Syllabification(ps, cfg).value;
    SyllablesFit(ps, cfg);
    assert Contribution(word, phones, cfg) == SyllableSegments(word, wp, syls);
    WordPhonesWithin(word, phones);
    SegmentsOverPhones(word, wp, syls);
  }

  /** When the word has a vowel, its syllables use up all of its phones, and
      syllable i is exactly the phones between its two offsets. */
  lemma SyllablePhones(word: Segment, phones: seq<Boundary>, cfg: Phonology, i: nat)
    requires Vowels(Labels(WordPhones(word, phones)), cfg) != []
    requires Syllabification(Labels(WordPhones(word, phones)), cfg).Ok?
    requires i < |Syllabification(Labels(WordPhones(word, phones)), cfg).value|
    ensures var ps := Labels(WordPhones(word, phones));
      var syls := Syllabification(ps, cfg).value;
      Offset(syls, |syls|) == |ps|
      && Offset(syls, i) + |syls[i]| <= |ps|
      && ps[Offset(syls, i)..Offset(syls, i) + |syls[i]|] == syls[i]
  {
    var ps := Labels(WordPhones(word, phones));
    var syls := Syllabification(ps, cfg).value;
    SyllabificationConcat(ps, cfg);
    FlattenSlice(syls, i);
    assert syls[..|syls|] == syls;
  }

  /** The failure branch of `syllabify_textgrid` is never taken: a word that
      passes the phone-set test always syllabifies, so no warning is ever
      printed. */
  lemma {:induction false} NoWarnings(ws: seq<Segment>, phones: seq<Boundary>, cfg: Phonology)
    ensures WarningsOf(ws, phones, cfg) == []
  {
    if ws != [] {
      NoWarnings(ws[..|ws| - 1], phones, cfg);
      var w := ws[|ws| - 1];
      if InPhoneset(WordPhones(w, phones), cfg) {
        SyllabificationTotal(Labels(WordPhones(w, phones)), cfg);
      }
      assert WarningFor(w, phones, cfg) == [];
    }
  }

  // ---------------------------------------------------------------------
  // The syllable tier

  /** Lines 118-119 of `main`: the syllable segments encoded as a tier, plus
      a final empty boundary at the time of the last phone boundary, added
      whatever the tier ends with. An empty phone tier makes `[-1]` raise:
      None. */
  method AddSyllableTier(words: seq<Boundary>, phones: seq<Boundary>, cfg: Phonology)
    returns (tier: Option<seq<Boundary>>)
    ensures phones == [] ==> tier == None
    ensures phones != [] ==>
      tier == Some(Encode(Annotation(words, phones, cfg)) + [Boundary(phones[|phones| - 1].time, EmptySegment)])
  {
    var uttSyls, _ := SyllabifyTextgrid(words, phones, cfg);
    var syltier := SegsToTier(uttSyls);
    if phones == [] {
      return None;
    }
    return Some(syltier + [Boundary(phones[|phones| - 1].time, EmptySegment)]);
  }

  lemma RealLabelsAppend(a: seq<Segment>, b: seq<Segment>)
    requires RealLabels(a) && RealLabels(b)
    ensures RealLabels(a + b)
  {
    forall i | 0 <= i < |a + b|
      ensures (a + b)[i].text != EmptySegment && IsTrimmed((a + b)[i].text, Whitespace)
    {
      if i >= |a| {
        assert (a + b)[i] == b[i - |a|];
      }
    }
  }

  /** A syllable label begins with the word's first character and ends with
      the last character of the syllable's last phone. */
  lemma SyllableLabelTrimmed(word: string, syl: Syllable)
    requires word != [] && IsTrimmed(word, Whitespace)
    requires syl != [] && forall k :: 0 <= k < |syl| ==> syl[k] != []
    requires IsTrimmed(syl[|syl| - 1], Whitespace)
    ensures SyllableLabel(word, syl) != EmptySegment
    ensures IsTrimmed(SyllableLabel(word, syl), Whitespace)
  {
    JoinEnds(syl, '-');
    var l := SyllableLabel(word, syl);
    var j := HyphenJoin(syl);
    assert l[0] == word[0];
    assert l[|l| - 1] == j[|j| - 1];
  }

  lemma SegmentsRealLabels(word: Segment, wp: seq<Segment>, syls: seq<Syllable>)
    requires |Flatten(syls)| <= |wp|
    requires forall i :: 0 <= i < |syls| ==> syls[i] != []
    requires syls == [] || Flatten(syls) == Labels(wp)
    requires word.text != [] && IsTrimmed(word.text, Whitespace)
    requires forall j :: 0 <= j < |wp| ==> wp[j].text != [] && IsTrimmed(wp[j].text, Whitespace)
    ensures RealLabels(SyllableSegments(word, wp, syls))
  {
    var segs := SyllableSegments(word, wp, syls);
    var ps := Labels(wp);
    assert forall j :: 0 <= j < |ps| ==> ps[j] == wp[j].text;
    forall i | 0 <= i < |segs|
      ensures segs[i].text != EmptySegment && IsTrimmed(segs[i].text, Whitespace)
    {
      RealPhonesOfSyllable(syls, ps, i);
      assert segs[i].text == SyllableLabel(word.text, syls[i]);
      SyllableLabelTrimmed(word.text, syls[i]);
    }
  }

  /** The phones of a syllable are phones of the word in which it lies. */
  lemma RealPhonesOfSyllable(syls: seq<Syllable>, ps: seq<Phone>, i: nat)
    requires i < |syls| && Flatten(syls) == ps
    requires forall j :: 0 <= j < |ps| ==> ps[j] != [] && IsTrimmed(ps[j], Whitespace)
    ensures forall k :: 0 <= k < |syls[i]| ==> syls[i][k] != [] && IsTrimmed(syls[i][k], Whitespace)
  {
    FlattenSlice(syls, i);
    var o := Offset(syls, i);
    assert forall k :: 0 <= k < |syls[i]| ==> syls[i][k] == ps[o + k];
  }

  /** The segments of a labelled, stripped word have labels that survive
      decoding with the empty label ignored. */
  lemma ContributionRealLabels(word: Segment, phones: seq<Boundary>, cfg: Phonology)
    requires word.text != [] && IsTrimmed(word.text, Whitespace)
    requires EmptySegment !in cfg.phoneset
    ensures RealLabels(Contribution(word, phones, cfg))
  {
    var wp := WordPhones(word, phones);
    if InPhoneset(wp, cfg) {
      var ps := Labels(wp);
      SyllabificationTotal(ps, cfg);
      var syls := Syllabification(ps, cfg).value;
      SyllablesFit(ps, cfg);
      assert Contribution(word, phones, cfg) == SyllableSegments(word, wp, syls);
      if Vowels(ps, cfg) != [] {
        SyllabificationConcat(ps, cfg);
      }
      DecodeStripped(phones, Query(Some(word.start), Some(word.end), {}));
      assert forall j :: 0 <= j < |wp| ==> wp[j].text in cfg.phoneset;
      SegmentsRealLabels(word, wp, syls);
    }
  }

  lemma {:induction false} AnnotateRealLabels(ws: seq<Segment>, phones: seq<Boundary>, cfg: Phonology)
    requires forall i :: 0 <= i < |ws| ==> ws[i].text != [] && IsTrimmed(ws[i].text, Whitespace)
    requires EmptySegment !in cfg.phoneset
    ensures RealLabels(AnnotateWords(ws, phones, cfg))
    decreases |ws|
  {
    if ws != [] {
      var init := ws[..|ws| - 1];
      assert forall i :: 0 <= i < |init| ==> init[i] == ws[i];
      AnnotateRealLabels(init, phones, cfg);
      ContributionRealLabels(ws[|ws| - 1], phones, cfg);
      RealLabelsAppend(AnnotateWords(init, phones, cfg), Contribution(ws[|ws| - 1], phones, cfg));
    }
  }

  /** Reading the syllable tier back with the empty label ignored gives
      exactly the syllable segments: the fillers for gaps and the final
      boundary disappear. */
  lemma SyllableTierRoundTrip(words: seq<Boundary>, phones: seq<Boundary>, cfg: Phonology)
    requires phones != []
    requires EmptySegment !in cfg.phoneset
    ensures GetSegments(Encode(Annotation(words, phones, cfg)) + [Boundary(phones[|phones| - 1].time, EmptySegment)],
                        FillerFree({EmptySegment}))
         == Annotation(words, phones, cfg)
  {
    var ws := GetSegments(words, WordQuery);
    var segs := Annotation(words, phones, cfg);
    var t := phones[|phones| - 1].time;
    EmptyWordsIgnored(words);
    DecodeStripped(words, WordQuery);
    AnnotateRealLabels(ws, phones, cfg);
    EncodeDecodeFrom(0.0, segs, [Boundary(t, EmptySegment)], {EmptySegment});
    DecodeFillerStep(LastEnd(0.0, segs), t, [], FillerFree({EmptySegment}));
    assert [Boundary(t, EmptySegment)] + [] == [Boundary(t, EmptySegment)];
  }
}
