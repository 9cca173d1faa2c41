/** The Maximum-Onset syllabifier of scripts/add_syl_tier.py (`syllabify`
    and `cleansplit`), restated at the level of phone sequences.

    The script joins the phones with `-`, splits that string at every vowel
    (`vwls_re`) into consonant clusters, keeps the cluster before the first
    vowel and the one after the last vowel whole, and cuts every cluster
    between two vowels with `cons_re`, the regular expression
    `((?:-c)*?)((?:-o){0,1})-$` over the consonants `c` and declared onsets
    `o`. Its lazy first group makes it take the shortest consonant prefix
    whose remainder is empty or exactly a declared onset: `CodaMatch` below. */
module Syllabifier {
  import opened Wrappers
  import opened Text

  type Phone = string
  type Syllable = seq<Phone>

  /** The three configuration files: the phone set, the vowels and the
      onsets, each onset a hyphen-joined cluster such as "s-t-r". */
  datatype Phonology = Phonology(phoneset: set<Phone>, vowels: set<Phone>, onsets: set<string>)

  /** A member of `consonants`, the phone set minus the vowels. */
  predicate IsConsonant(p: Phone, cfg: Phonology) {
    p in cfg.phoneset && p !in cfg.vowels
  }

  /** A phone label for which joining with `-` and splitting again is
      faithful: non-empty and without a hyphen. */
  predicate PhoneLabel(p: Phone) {
    p != [] && '-' !in p
  }

  predicate PhoneLabels(ps: seq<Phone>) {
    forall i :: 0 <= i < |ps| ==> PhoneLabel(ps[i])
  }

  function HyphenJoin(ps: seq<Phone>): string {
    Join(ps, '-')
  }

  // ---------------------------------------------------------------------
  // cleansplit

  /** `cleansplit(e)`: [] for the empty string, otherwise the fields of `e`
      stripped of hyphens at both ends and split at `-`. */
  function CleanSplit(e: string): (r: seq<string>)
    ensures (r == []) == (e == [])
    ensures forall i :: 0 <= i < |r| ==> '-' !in r[i]
  {
    if e == [] then [] else Split(Trim(e, Hyphen), '-')
  }

  /** A non-empty string always splits into fields that join back to the
      string with its outer hyphens removed. */
  lemma CleanSplitFields(e: string)
    requires e != []
    ensures |CleanSplit(e)| >= 1
    ensures HyphenJoin(CleanSplit(e)) == Trim(e, Hyphen)
  {
    JoinSplit(Trim(e, Hyphen), '-');
  }

  /** Hyphens around a joined list of phone labels are ignored. */
  lemma CleanSplitJoin(a: string, xs: seq<Phone>, b: string)
    requires AllDropped(a, Hyphen) && AllDropped(b, Hyphen)
    requires |xs| >= 1 && PhoneLabels(xs)
    ensures CleanSplit(a + HyphenJoin(xs) + b) == xs
  {
    JoinEnds(xs, '-');
    var m := HyphenJoin(xs);
    assert m[0] == xs[0][0] && m[|m| - 1] == xs[|xs| - 1][|xs[|xs| - 1]| - 1];
    assert IsTrimmed(m, Hyphen);
    TrimExact(a, m, b, Hyphen);
    SplitJoin(xs, '-');
  }

  /** The edge case of a string of hyphens only: one empty field, not []. */
  lemma CleanSplitHyphens(e: string)
    requires e != [] && AllDropped(e, Hyphen)
    ensures CleanSplit(e) == [[]]
  {
    assert e == e + [] + [];
    TrimExact(e, [], [], Hyphen);
    assert e + [] + [] == e;
  }

  // ---------------------------------------------------------------------
  // Vowels and consonant clusters

  /** `vwls`: the vowel occurrences of `phones`, in order. */
  function Vowels(phones: seq<Phone>, cfg: Phonology): seq<Phone> {
    if phones == [] then []
    else (if phones[0] in cfg.vowels then [phones[0]] else []) + Vowels(phones[1..], cfg)
  }

  /** `conseqs` at phone level: the runs of non-vowels around the vowel
      occurrences, one more than there are vowels (some possibly empty). */
  function Clusters(phones: seq<Phone>, cfg: Phonology): (r: seq<seq<Phone>>)
    ensures |r| == |Vowels(phones, cfg)| + 1
  {
    if phones == [] then [[]] else ClusterStep(phones[0], Clusters(phones[1..], cfg), cfg)
  }

  /** The clusters of `[x] + rest` from those of `rest`: a vowel opens a new
      empty cluster, a consonant joins the first one. */
  function ClusterStep(x: Phone, rest: seq<seq<Phone>>, cfg: Phonology): seq<seq<Phone>>
    requires rest != []
  {
    if x in cfg.vowels then [[]] + rest else [[x] + rest[0]] + rest[1..]
  }

  predicate VowelFree(cl: seq<seq<Phone>>, cfg: Phonology) {
    forall i, j :: 0 <= i < |cl| && 0 <= j < |cl[i]| ==> cl[i][j] !in cfg.vowels
  }

  predicate ConsonantsOnly(cl: seq<seq<Phone>>, cfg: Phonology) {
    forall i, j :: 0 <= i < |cl| && 0 <= j < |cl[i]| ==> IsConsonant(cl[i][j], cfg)
  }

  lemma StepVowelFree(x: Phone, rest: seq<seq<Phone>>, cfg: Phonology)
    requires rest != [] && VowelFree(rest, cfg)
    ensures VowelFree(ClusterStep(x, rest, cfg), cfg)
  {
    var cl := ClusterStep(x, rest, cfg);
    forall i, j | 0 <= i < |cl| && 0 <= j < |cl[i]| ensures cl[i][j] !in cfg.vowels {
      if x in cfg.vowels {
        assert cl[i] == rest[i - 1];
      } else if i == 0 {
        if j > 0 {
          assert cl[0][j] == rest[0][j - 1];
        }
      } else {
        assert cl[i] == rest[i];
      }
    }
  }

  lemma StepConsonantsOnly(x: Phone, rest: seq<seq<Phone>>, cfg: Phonology)
    requires rest != [] && ConsonantsOnly(rest, cfg) && x in cfg.phoneset
    ensures ConsonantsOnly(ClusterStep(x, rest, cfg), cfg)
  {
    var cl := ClusterStep(x, rest, cfg);
    forall i, j | 0 <= i < |cl| && 0 <= j < |cl[i]| ensures IsConsonant(cl[i][j], cfg) {
      if x in cfg.vowels {
        assert cl[i] == rest[i - 1];
      } else if i == 0 {
        if j > 0 {
          assert cl[0][j] == rest[0][j - 1];
        }
      } else {
        assert cl[i] == rest[i];
      }
    }
  }

  /** The list obtained by putting vowel i between cluster i and cluster i+1. */
  function Weave(cl: seq<seq<Phone>>, vs: seq<Phone>): seq<Phone>
    requires |cl| == |vs| + 1
  {
    if vs == [] then cl[0] else cl[0] + [vs[0]] + Weave(cl[1..], vs[1..])
  }

  /** Clusters and vowels interleaved give back the phones. */
  lemma {:induction false} ClustersWeave(phones: seq<Phone>, cfg: Phonology)
    ensures Weave(Clusters(phones, cfg), Vowels(phones, cfg)) == phones
  {
    if phones != [] {
      var rest := Clusters(phones[1..], cfg);
      var vr := Vowels(phones[1..], cfg);
      ClustersWeave(phones[1..], cfg);
      if phones[0] in cfg.vowels {
        assert Vowels(phones, cfg) == [phones[0]] + vr;
        WeaveVowel(phones[0], rest, vr);
      } else {
        assert Vowels(phones, cfg) == [] + vr;
        assert [] + vr == vr;
        WeaveConsonant(phones[0], rest, vr);
      }
      assert [phones[0]] + phones[1..] == phones;
    }
  }

  lemma WeaveVowel(v: Phone, rest: seq<seq<Phone>>, vr: seq<Phone>)
    requires |rest| == |vr| + 1
    ensures Weave([[]] + rest, [v] + vr) == [v] + Weave(rest, vr)
  {
    assert ([[]] + rest)[1..] == rest;
    assert ([v] + vr)[1..] == vr;
  }

  lemma WeaveConsonant(x: Phone, rest: seq<seq<Phone>>, vr: seq<Phone>)
    requires |rest| == |vr| + 1
    ensures Weave([[x] + rest[0]] + rest[1..], vr) == [x] + Weave(rest, vr)
  {
    var cl := [[x] + rest[0]] + rest[1..];
    assert cl[0] == [x] + rest[0];
    if vr != [] {
      assert cl[1..] == rest[1..];
      var w := Weave(rest[1..], vr[1..]);
      assert ([x] + rest[0]) + [vr[0]] + w == [x] + (rest[0] + [vr[0]] + w);
    }
  }

  /** No cluster holds a vowel. */
  lemma {:induction false} ClustersVowelFree(phones: seq<Phone>, cfg: Phonology)
    ensures VowelFree(Clusters(phones, cfg), cfg)
  {
    if phones != [] {
      ClustersVowelFree(phones[1..], cfg);
      StepVowelFree(phones[0], Clusters(phones[1..], cfg), cfg);
    }
  }

  /** When every phone is in the phone set, every phone of a cluster is a
      consonant. */
  lemma {:induction false} ClustersConsonants(phones: seq<Phone>, cfg: Phonology)
    requires forall j :: 0 <= j < |phones| ==> phones[j] in cfg.phoneset
    ensures ConsonantsOnly(Clusters(phones, cfg), cfg)
  {
    if phones != [] {
      var tail := phones[1..];
      assert forall j :: 0 <= j < |tail| ==> tail[j] == phones[j + 1];
      ClustersConsonants(tail, cfg);
      StepConsonantsOnly(phones[0], Clusters(tail, cfg), cfg);
    }
  }

  /** The first cluster is the longest vowel-free prefix of the phones. */
  lemma {:induction false} ClustersFirst(phones: seq<Phone>, cfg: Phonology)
    ensures |Clusters(phones, cfg)[0]| <= |phones|
    ensures phones[..|Clusters(phones, cfg)[0]|] == Clusters(phones, cfg)[0]
    ensures |Clusters(phones, cfg)[0]| < |phones| ==> phones[|Clusters(phones, cfg)[0]|] in cfg.vowels
  {
    if phones != [] {
      var x := phones[0];
      var tail := phones[1..];
      var rest := Clusters(tail, cfg);
      StepFirst(x, rest, cfg);
      if x !in cfg.vowels {
        ClustersFirst(tail, cfg);
        var f := rest[0];
        assert phones[..1 + |f|] == [x] + tail[..|f|];
        if 1 + |f| < |phones| {
          assert phones[1 + |f|] == tail[|f|];
        }
      }
    }
  }

  lemma StepFirst(x: Phone, rest: seq<seq<Phone>>, cfg: Phonology)
    requires rest != []
    ensures ClusterStep(x, rest, cfg)[0] == if x in cfg.vowels then [] else [x] + rest[0]
  {
  }

  function LastCluster(phones: seq<Phone>, cfg: Phonology): seq<Phone> {
    Clusters(phones, cfg)[|Clusters(phones, cfg)| - 1]
  }

  /** The last cluster is the longest vowel-free suffix of the phones. */
  lemma {:induction false} ClustersLast(phones: seq<Phone>, cfg: Phonology)
    ensures |LastCluster(phones, cfg)| <= |phones|
    ensures (|Clusters(phones, cfg)| > 1) == (|LastCluster(phones, cfg)| < |phones|)
    ensures phones[|phones| - |LastCluster(phones, cfg)|..] == LastCluster(phones, cfg)
    ensures |LastCluster(phones, cfg)| < |phones| ==>
      phones[|phones| - |LastCluster(phones, cfg)| - 1] in cfg.vowels
  {
    if phones != [] {
      var x := phones[0];
      var tail := phones[1..];
      var rest := Clusters(tail, cfg);
      ClustersLast(tail, cfg);
      StepLast(x, rest, cfg);
      var last := LastCluster(phones, cfg);
      var n := |phones|;
      if x in cfg.vowels || |rest| > 1 {
        assert last == LastCluster(tail, cfg);
        assert phones[n - |last|..] == tail[n - 1 - |last|..];
        if |last| < n - 1 {
          assert phones[n - |last| - 1] == tail[n - 1 - |last| - 1];
        }
      } else {
        assert rest[0] == tail;
        assert last == phones;
      }
    }
  }

  lemma StepLast(x: Phone, rest: seq<seq<Phone>>, cfg: Phonology)
    requires rest != []
    ensures var cl := ClusterStep(x, rest, cfg);
      (|cl| > 1) == (x in cfg.vowels || |rest| > 1)
      && cl[|cl| - 1] == (if x in cfg.vowels || |rest| > 1 then rest[|rest| - 1] else [x] + rest[0])
  {
  }

  // ---------------------------------------------------------------------
  // The consonant-cluster regular expression

  /** The first `k` phones of the cluster are consonants. */
  predicate AllConsonants(c: seq<Phone>, cfg: Phonology, k: nat)
    requires k <= |c|
  {
    forall i :: 0 <= i < k ==> IsConsonant(c[i], cfg)
  }

  /** `cons_re` can match with the first `k` phones as its first group: they
      are consonants, and the rest is empty or exactly a declared onset. */
  predicate CodaFits(c: seq<Phone>, cfg: Phonology, k: nat)
    requires k <= |c|
  {
    AllConsonants(c, cfg, k) && (k == |c| || HyphenJoin(c[k..]) in cfg.onsets)
  }

  /** The lazy search of the regular expression: the first `k >= j` that fits. */
  function ShortestCodaFrom(c: seq<Phone>, cfg: Phonology, j: nat): (r: Option<nat>)
    requires j <= |c| + 1
    ensures r.Some? ==> (j <= r.value <= |c| && CodaFits(c, cfg, r.value)
      && forall k :: j <= k < r.value ==> !CodaFits(c, cfg, k))
    ensures r.None? ==> forall k :: j <= k <= |c| ==> !CodaFits(c, cfg, k)
    decreases |c| + 1 - j
  {
    if j > |c| then None
    else if CodaFits(c, cfg, j) then Some(j)
    else ShortestCodaFrom(c, cfg, j + 1)
  }

  /** `cons_re.match` on an intervocalic cluster: the length of the coda
      (the first group), or None when the match fails. */
  function CodaMatch(c: seq<Phone>, cfg: Phonology): (r: Option<nat>)
    ensures r.Some? ==> (r.value <= |c| && CodaFits(c, cfg, r.value)
      && forall k :: 0 <= k < r.value ==> !CodaFits(c, cfg, k))
    ensures r.None? ==> forall k :: 0 <= k <= |c| ==> !CodaFits(c, cfg, k)
  {
    ShortestCodaFrom(c, cfg, 0)
  }

  /** Where the syllable boundary falls inside an intervocalic cluster. */
  function SplitAt(c: seq<Phone>, cfg: Phonology): (k: nat)
    ensures k <= |c|
  {
    match CodaMatch(c, cfg)
    case Some(k) => k
    case None => |c|
  }

  /** The onset of syllable i: the whole first cluster for the first
      syllable, otherwise what follows the boundary in cluster i. */
  function Onset(cl: seq<seq<Phone>>, cfg: Phonology, i: nat): seq<Phone>
    requires i < |cl| - 1
  {
    if i == 0 then cl[0] else cl[i][SplitAt(cl[i], cfg)..]
  }

  /** The coda of syllable i: the whole last cluster for the last syllable,
      otherwise what precedes the boundary in cluster i+1. */
  function Coda(cl: seq<seq<Phone>>, cfg: Phonology, i: nat): seq<Phone>
    requires i < |cl| - 1
  {
    if i + 1 == |cl| - 1 then cl[i + 1] else cl[i + 1][..SplitAt(cl[i + 1], cfg)]
  }

  /** The first intervocalic cluster from index `j` on that `cons_re` does not match. */
  function FirstUnsplittableFrom(cl: seq<seq<Phone>>, cfg: Phonology, j: nat): (r: Option<nat>)
    requires 1 <= j <= |cl|
    ensures r.Some? ==> (j <= r.value < |cl| - 1 && CodaMatch(cl[r.value], cfg).None?
      && forall k :: j <= k < r.value ==> CodaMatch(cl[k], cfg).Some?)
    ensures r.None? ==> forall k :: j <= k < |cl| - 1 ==> CodaMatch(cl[k], cfg).Some?
    decreases |cl| - j
  {
    if j >= |cl| - 1 then None
    else if CodaMatch(cl[j], cfg).None? then Some(j)
    else FirstUnsplittableFrom(cl, cfg, j + 1)
  }

  /** The exception `syllabify` raises: `cons_re` did not match a cluster. */
  datatype SyllabifyError = NoCodaMatch(cluster: seq<Phone>)

  /** Syllable i is its onset, the i-th vowel and its coda. */
  function Syllables(cl: seq<seq<Phone>>, vs: seq<Phone>, cfg: Phonology): (r: seq<Syllable>)
    requires |cl| == |vs| + 1
    ensures |r| == |vs|
  {
    seq(|vs|, i requires 0 <= i < |vs| => Onset(cl, cfg, i) + [vs[i]] + Coda(cl, cfg, i))
  }

  /** The result of `syllabify(phones)`: one syllable per vowel occurrence,
      or the error of the first intervocalic cluster the regular expression
      does not match. */
  function Syllabification(phones: seq<Phone>, cfg: Phonology): (r: Result<seq<Syllable>, SyllabifyError>)
    ensures r.Ok? ==> |r.value| == |Vowels(phones, cfg)|
    ensures Vowels(phones, cfg) == [] ==> r == Ok([])
    ensures r.Err? <==> exists k :: 1 <= k < |Clusters(phones, cfg)| - 1 && CodaMatch(Clusters(phones, cfg)[k], cfg).None?
  {
    var cl := Clusters(phones, cfg);
    match FirstUnsplittableFrom(cl, cfg, 1)
    case Some(k) => Err(NoCodaMatch(cl[k]))
    case None => Ok(Syllables(cl, Vowels(phones, cfg), cfg))
  }

  /** The pieces cluster k contributes to `cns`: the first and the last
      cluster stay whole, every other one is cut at its boundary. */
  function PiecesOf(cl: seq<seq<Phone>>, cfg: Phonology, k: nat): seq<seq<Phone>>
    requires k < |cl|
  {
    if k == 0 || k == |cl| - 1 then [cl[k]]
    else [cl[k][..SplitAt(cl[k], cfg)], cl[k][SplitAt(cl[k], cfg)..]]
  }

  /** `cns` after clusters 0 .. k-1 have been cut. */
  function PiecesBelow(cl: seq<seq<Phone>>, cfg: Phonology, k: nat): seq<seq<Phone>>
    requires k <= |cl|
  {
    if k == 0 then [] else PiecesBelow(cl, cfg, k - 1) + PiecesOf(cl, cfg, k - 1)
  }

  /** Piece 2i is the onset and piece 2i+1 the coda of syllable i. */
  predicate Alternates(cl: seq<seq<Phone>>, cfg: Phonology, p: seq<seq<Phone>>) {
    (forall i :: 0 <= i < |cl| - 1 && 2 * i < |p| ==> p[2 * i] == Onset(cl, cfg, i))
    && (forall i :: 0 <= i < |cl| - 1 && 2 * i + 1 < |p| ==> p[2 * i + 1] == Coda(cl, cfg, i))
  }

  lemma AlternatesExtend(cl: seq<seq<Phone>>, cfg: Phonology, p: seq<seq<Phone>>, m: nat, extra: seq<seq<Phone>>)
    requires 1 <= m < |cl| && |p| == 2 * m - 1 && Alternates(cl, cfg, p)
    requires extra == [Coda(cl, cfg, m - 1)] + (if m < |cl| - 1 then [Onset(cl, cfg, m)] else [])
    ensures Alternates(cl, cfg, p + extra)
  {
    var q := p + extra;
    forall i | 0 <= i < |cl| - 1 && 2 * i < |q| ensures q[2 * i] == Onset(cl, cfg, i) {
      if 2 * i >= |p| {
        assert 2 * i == |p| + 1 && q[2 * i] == extra[1];
      }
    }
    forall i | 0 <= i < |cl| - 1 && 2 * i + 1 < |q| ensures q[2 * i + 1] == Coda(cl, cfg, i) {
      if 2 * i + 1 >= |p| {
        assert 2 * i + 1 == |p| && q[2 * i + 1] == extra[0];
      }
    }
  }

  /** The pieces alternate onset, coda, onset, coda, ...: piece 2i is the
      onset and piece 2i+1 the coda of syllable i. */
  lemma {:induction false} PiecesBelowIndex(cl: seq<seq<Phone>>, cfg: Phonology, k: nat)
    requires 1 <= k <= |cl|
    ensures |PiecesBelow(cl, cfg, k)| == if k < |cl| || k == 1 then 2 * k - 1 else 2 * k - 2
    ensures Alternates(cl, cfg, PiecesBelow(cl, cfg, k))
  {
    var m := k - 1;
    if m == 0 {
      assert PiecesBelow(cl, cfg, k) == [cl[0]];
    } else {
      PiecesBelowIndex(cl, cfg, m);
      var p := PiecesBelow(cl, cfg, m);
      if m == |cl| - 1 {
        assert PiecesOf(cl, cfg, m) == [Coda(cl, cfg, m - 1)];
      } else {
        assert PiecesOf(cl, cfg, m) == [Coda(cl, cfg, m - 1), Onset(cl, cfg, m)];
      }
      AlternatesExtend(cl, cfg, p, m, PiecesOf(cl, cfg, m));
    }
  }

  /** The first loop of `syllabify`: each cluster appended to `cns` whole,
      or cut by `cons_re` into its two groups. Stops at the first
      intervocalic cluster `cons_re` does not match (the `AttributeError`
      of `m.groups()` on a failed match). */
  method CutClusters(conseqs: seq<seq<Phone>>, cfg: Phonology) returns (cns: seq<seq<Phone>>, bad: Option<nat>)
    requires 1 <= |conseqs|
    ensures bad == FirstUnsplittableFrom(conseqs, cfg, 1)
    ensures bad.None? ==> cns == PiecesBelow(conseqs, cfg, |conseqs|)
  {
    cns := [];
    for k := 0 to |conseqs|
      invariant cns == PiecesBelow(conseqs, cfg, k)
      invariant forall j :: 1 <= j < k && j < |conseqs| - 1 ==> CodaMatch(conseqs[j], cfg).Some?
    {
      var conseq := conseqs[k];
      if k == 0 || k == |conseqs| - 1 {
        // the piece does not start, or does not end, with a hyphen
        cns := cns + [conseq];
      } else {
        var m := CodaMatch(conseq, cfg);
        if m.None? {
          assert FirstUnsplittableFrom(conseqs, cfg, 1) == Some(k);
          return cns, Some(k);
        }
        cns := cns + [conseq[..m.value], conseq[m.value..]];
      }
    }
    assert FirstUnsplittableFrom(conseqs, cfg, 1).None?;
    bad := None;
  }

  /** `syllabify(phones, vowels, vwls_re, cons_re)`. */
  method Syllabify(phones: seq<Phone>, cfg: Phonology) returns (r: Result<seq<Syllable>, SyllabifyError>)
    ensures r == Syllabification(phones, cfg)
  {
    var vwls := Vowels(phones, cfg);
    var conseqs := Clusters(phones, cfg);
    var n := |vwls|;
    var cns, bad := CutClusters(conseqs, cfg);
    if bad.Some? {
      return Err(NoCodaMatch(conseqs[bad.value]));
    }
    PiecesBelowIndex(conseqs, cfg, |conseqs|);
    var syls: seq<Syllable> := [];
    for i := 0 to n
      invariant |syls| == i
      invariant forall j :: 0 <= j < i ==> syls[j] == Onset(conseqs, cfg, j) + [vwls[j]] + Coda(conseqs, cfg, j)
    {
      syls := syls + [cns[2 * i] + [vwls[i]] + cns[2 * i + 1]];
    }
    assert syls == Syllables(conseqs, vwls, cfg);
    return Ok(syls);
  }

  // ---------------------------------------------------------------------
  // Properties of the syllabification

  function Flatten<T>(ss: seq<seq<T>>): seq<T> {
    if ss == [] then [] else ss[0] + Flatten(ss[1..])
  }

  lemma {:induction false} FlattenAppend<T>(a: seq<seq<T>>, b: seq<seq<T>>)
    ensures Flatten(a + b) == Flatten(a) + Flatten(b)
  {
    if a != [] {
      assert (a + b)[1..] == a[1..] + b;
      FlattenAppend(a[1..], b);
    } else {
      assert a + b == b;
    }
  }

  /** The number of phones in the first `i` syllables: `phone_idx` when
      syllable `i` is reached. */
  function Offset<T>(ss: seq<seq<T>>, i: nat): nat
    requires i <= |ss|
  {
    |Flatten(ss[..i])|
  }

  /** Syllable i occupies positions Offset(i) up to Offset(i+1) of the concatenation. */
  lemma FlattenSlice<T>(ss: seq<seq<T>>, i: nat)
    requires i < |ss|
    ensures Offset(ss, i + 1) == Offset(ss, i) + |ss[i]|
    ensures Offset(ss, i) + |ss[i]| <= |Flatten(ss)|
    ensures Flatten(ss)[Offset(ss, i)..Offset(ss, i) + |ss[i]|] == ss[i]
  {
    assert ss[..i + 1] == ss[..i] + [ss[i]];
    FlattenAppend(ss[..i], [ss[i]]);
    assert Flatten([ss[i]]) == ss[i] + Flatten([ss[i]][1..]);
    assert ss == ss[..i + 1] + ss[i + 1..];
    FlattenAppend(ss[..i + 1], ss[i + 1..]);
  }

  lemma Regroup<T>(on: seq<T>, v: T, co: seq<T>, on1: seq<T>, v1: T, w: seq<T>)
    ensures (on + [v] + co) + (on1 + ([v1] + w)) == on + ([v] + ((co + on1) + [v1] + w))
  {
  }

  lemma {:induction false} FlattenSyllablesFrom(cl: seq<seq<Phone>>, vs: seq<Phone>, cfg: Phonology, m: nat)
    requires |cl| == |vs| + 1 && m < |vs|
    ensures Flatten(Syllables(cl, vs, cfg)[m..])
         == Onset(cl, cfg, m) + ([vs[m]] + Weave(cl[m + 1..], vs[m + 1..]))
    decreases |vs| - m
  {
    var syls := Syllables(cl, vs, cfg);
    assert syls[m..][1..] == syls[m + 1..];
    assert Flatten(syls[m..]) == syls[m] + Flatten(syls[m + 1..]);
    var on, co := Onset(cl, cfg, m), Coda(cl, cfg, m);
    assert syls[m] == on + [vs[m]] + co;
    if m == |vs| - 1 {
      assert syls[m + 1..] == [];
      assert vs[m + 1..] == [];
      assert Weave(cl[m + 1..], vs[m + 1..]) == co;
      assert on + [vs[m]] + co + [] == on + ([vs[m]] + co);
    } else {
      FlattenSyllablesFrom(cl, vs, cfg, m + 1);
      var c := cl[m + 1];
      var k := SplitAt(c, cfg);
      var on1 := Onset(cl, cfg, m + 1);
      assert co + on1 == c by {
        assert c[..k] + c[k..] == c;
      }
      var w := Weave(cl[m + 2..], vs[m + 2..]);
      assert cl[m + 1..][1..] == cl[m + 2..];
      assert vs[m + 1..][1..] == vs[m + 2..];
      assert Weave(cl[m + 1..], vs[m + 1..]) == c + [vs[m + 1]] + w;
      Regroup(on, vs[m], co, on1, vs[m + 1], w);
    }
  }

  /** A successful syllabification is the onset-nucleus-coda list. */
  lemma SyllabificationValue(phones: seq<Phone>, cfg: Phonology)
    requires Syllabification(phones, cfg).Ok?
    ensures Syllabification(phones, cfg).value == Syllables(Clusters(phones, cfg), Vowels(phones, cfg), cfg)
  {
  }

  lemma FlattenSyllables(cl: seq<seq<Phone>>, vs: seq<Phone>, cfg: Phonology)
    requires |cl| == |vs| + 1 && vs != []
    ensures Flatten(Syllables(cl, vs, cfg)) == Weave(cl, vs)
  {
    var syls := Syllables(cl, vs, cfg);
    FlattenSyllablesFrom(cl, vs, cfg, 0);
    assert syls[0..] == syls;
    WeaveCons(cl, vs);
  }

  lemma WeaveCons(cl: seq<seq<Phone>>, vs: seq<Phone>)
    requires |cl| == |vs| + 1 && vs != []
    ensures Weave(cl, vs) == cl[0] + ([vs[0]] + Weave(cl[1..], vs[1..]))
  {
    var w := Weave(cl[1..], vs[1..]);
    assert cl[0] + [vs[0]] + w == cl[0] + ([vs[0]] + w);
  }

  /** Every syllable holds at least its vowel, and the syllables together
      hold no more phones than the input. */
  lemma SyllablesFit(phones: seq<Phone>, cfg: Phonology)
    requires Syllabification(phones, cfg).Ok?
    ensures |Flatten(Syllabification(phones, cfg).value)| <= |phones|
    ensures forall i :: 0 <= i < |Syllabification(phones, cfg).value| ==> Syllabification(phones, cfg).value[i] != []
  {
    SyllabificationValue(phones, cfg);
    if Vowels(phones, cfg) != [] {
      SyllabificationConcat(phones, cfg);
    }
  }

  /** Concatenating the syllables in order gives back the phones, whenever
      there is at least one vowel (with none the result is [] and the
      consonants are dropped). */
  lemma SyllabificationConcat(phones: seq<Phone>, cfg: Phonology)
    requires Vowels(phones, cfg) != []
    requires Syllabification(phones, cfg).Ok?
    ensures Flatten(Syllabification(phones, cfg).value) == phones
  {
    SyllabificationValue(phones, cfg);
    FlattenSyllables(Clusters(phones, cfg), Vowels(phones, cfg), cfg);
    ClustersWeave(phones, cfg);
  }

  lemma {:induction false} VowelsAppend(a: seq<Phone>, b: seq<Phone>, cfg: Phonology)
    ensures Vowels(a + b, cfg) == Vowels(a, cfg) + Vowels(b, cfg)
  {
    if a != [] {
      assert (a + b)[1..] == a[1..] + b;
      VowelsAppend(a[1..], b, cfg);
    } else {
      assert a + b == b;
    }
  }

  lemma {:induction false} VowelsNone(c: seq<Phone>, cfg: Phonology)
    requires forall j :: 0 <= j < |c| ==> c[j] !in cfg.vowels
    ensures Vowels(c, cfg) == []
  {
    if c != [] {
      VowelsNone(c[1..], cfg);
    }
  }

  /** There is no vowel occurrence iff no phone is a vowel. */
  lemma {:induction false} VowelsEmpty(phones: seq<Phone>, cfg: Phonology)
    ensures Vowels(phones, cfg) == [] <==> forall i :: 0 <= i < |phones| ==> phones[i] !in cfg.vowels
  {
    if phones != [] {
      VowelsEmpty(phones[1..], cfg);
      forall i | 1 <= i < |phones| ensures phones[i] == phones[1..][i - 1] { }
    }
  }

  /** Syllable i holds exactly one vowel, the i-th vowel occurrence of the
      input: it is the syllable's nucleus. */
  lemma Nuclei(phones: seq<Phone>, cfg: Phonology)
    requires Syllabification(phones, cfg).Ok?
    ensures var syls := Syllabification(phones, cfg).value;
      forall i :: 0 <= i < |syls| ==> Vowels(syls[i], cfg) == [Vowels(phones, cfg)[i]]
  {
    var cl := Clusters(phones, cfg);
    var vs := Vowels(phones, cfg);
    var syls := Syllabification(phones, cfg).value;
    ClustersVowelFree(phones, cfg);
    SyllabificationValue(phones, cfg);
    forall i | 0 <= i < |syls| ensures Vowels(syls[i], cfg) == [vs[i]] {
      VowelsMember(phones, cfg, i);
      SyllableNucleus(cl, vs, cfg, i);
    }
  }

  /** A syllable of vowel-free clusters holds its own vowel and no other. */
  lemma SyllableNucleus(cl: seq<seq<Phone>>, vs: seq<Phone>, cfg: Phonology, i: nat)
    requires |cl| == |vs| + 1 && i < |vs| && vs[i] in cfg.vowels
    requires forall c, j :: 0 <= c < |cl| && 0 <= j < |cl[c]| ==> cl[c][j] !in cfg.vowels
    ensures Vowels(Syllables(cl, vs, cfg)[i], cfg) == [vs[i]]
  {
    var on := Onset(cl, cfg, i);
    var co := Coda(cl, cfg, i);
    assert forall j :: 0 <= j < |on| ==> on[j] !in cfg.vowels by {
      if i > 0 {
        var k := SplitAt(cl[i], cfg);
        assert forall j :: 0 <= j < |on| ==> on[j] == cl[i][k + j];
      }
    }
    assert forall j :: 0 <= j < |co| ==> co[j] !in cfg.vowels by {
      assert forall j :: 0 <= j < |co| ==> co[j] == cl[i + 1][j];
    }
    assert Syllables(cl, vs, cfg)[i] == on + [vs[i]] + co;
    NucleusBetween(on, vs[i], co, cfg);
  }

  lemma NucleusBetween(on: seq<Phone>, v: Phone, co: seq<Phone>, cfg: Phonology)
    requires v in cfg.vowels
    requires forall j :: 0 <= j < |on| ==> on[j] !in cfg.vowels
    requires forall j :: 0 <= j < |co| ==> co[j] !in cfg.vowels
    ensures Vowels(on + [v] + co, cfg) == [v]
  {
    VowelsNone(on, cfg);
    VowelsNone(co, cfg);
    VowelsAppend(on + [v], co, cfg);
    VowelsAppend(on, [v], cfg);
    assert Vowels([v], cfg) == [v] by {
      assert [v][1..] == [];
    }
  }

  /** Each vowel occurrence is a vowel. */
  lemma {:induction false} VowelsMember(phones: seq<Phone>, cfg: Phonology, i: nat)
    requires i < |Vowels(phones, cfg)|
    ensures Vowels(phones, cfg)[i] in cfg.vowels
  {
    if phones[0] in cfg.vowels {
      if i > 0 {
        VowelsMember(phones[1..], cfg, i - 1);
      }
    } else {
      VowelsMember(phones[1..], cfg, i);
    }
  }

  lemma {:induction false} WeaveLast(cl: seq<seq<Phone>>, vs: seq<Phone>)
    requires |cl| == |vs| + 1 && vs != []
    ensures |Weave(cl, vs)| >= |cl[|vs|]| + 1
    ensures Weave(cl, vs)[|Weave(cl, vs)| - |cl[|vs|]| - 1..] == [vs[|vs| - 1]] + cl[|vs|]
    decreases |vs|
  {
    if |vs| > 1 {
      WeaveLast(cl[1..], vs[1..]);
    } else {
      assert Weave(cl[1..], vs[1..]) == cl[1];
    }
  }

  lemma SyllablesFirst(cl: seq<seq<Phone>>, vs: seq<Phone>, cfg: Phonology)
    requires |cl| == |vs| + 1 && vs != []
    ensures Syllables(cl, vs, cfg)[0][..|cl[0]| + 1] == cl[0] + [vs[0]]
    ensures Weave(cl, vs)[..|cl[0]| + 1] == cl[0] + [vs[0]]
  {
    var sy := Syllables(cl, vs, cfg)[0];
    assert sy == cl[0] + [vs[0]] + Coda(cl, cfg, 0);
    assert sy[..|cl[0]| + 1] == cl[0] + [vs[0]];
    assert Weave(cl, vs) == cl[0] + [vs[0]] + Weave(cl[1..], vs[1..]);
  }

  lemma SyllablesLast(cl: seq<seq<Phone>>, vs: seq<Phone>, cfg: Phonology)
    requires |cl| == |vs| + 1 && vs != []
    ensures var last := Syllables(cl, vs, cfg)[|vs| - 1];
      |last| >= |cl[|vs|]| + 1
      && last[|last| - |cl[|vs|]| - 1..] == [vs[|vs| - 1]] + cl[|vs|]
    ensures |Weave(cl, vs)| >= |cl[|vs|]| + 1
    ensures Weave(cl, vs)[|Weave(cl, vs)| - |cl[|vs|]| - 1..] == [vs[|vs| - 1]] + cl[|vs|]
  {
    var n := |vs|;
    var last := Syllables(cl, vs, cfg)[n - 1];
    assert last == Onset(cl, cfg, n - 1) + [vs[n - 1]] + cl[n];
    assert last[|last| - |cl[n]| - 1..] == [vs[n - 1]] + cl[n];
    WeaveLast(cl, vs);
  }

  /** The cluster before the first vowel is wholly the first syllable's
      onset: the first syllable begins with exactly the phones up to and
      including the first vowel. */
  lemma FirstOnset(phones: seq<Phone>, cfg: Phonology)
    requires Vowels(phones, cfg) != []
    requires Syllabification(phones, cfg).Ok?
    ensures var syls := Syllabification(phones, cfg).value;
      var p := |Clusters(phones, cfg)[0]|;
      p < |phones| && |syls[0]| > p
      && (forall j :: 0 <= j < p ==> phones[j] !in cfg.vowels) && phones[p] in cfg.vowels
      && syls[0][..p + 1] == phones[..p + 1]
  {
    var cl := Clusters(phones, cfg);
    var vs := Vowels(phones, cfg);
    SyllabificationValue(phones, cfg);
    ClustersWeave(phones, cfg);
    SyllablesFirst(cl, vs, cfg);
    ClustersVowelFree(phones, cfg);
    VowelsMember(phones, cfg, 0);
    var p := |cl[0]|;
    assert phones[..p + 1] == cl[0] + [vs[0]];
    assert phones[p] == phones[..p + 1][p];
    assert forall j :: 0 <= j < p ==> phones[j] == phones[..p + 1][j];
  }

  /** The cluster after the last vowel is wholly the last syllable's coda:
      the last syllable ends with exactly the phones from the last vowel on. */
  lemma LastCoda(phones: seq<Phone>, cfg: Phonology)
    requires Vowels(phones, cfg) != []
    requires Syllabification(phones, cfg).Ok?
    ensures var syls := Syllabification(phones, cfg).value;
      var q := |LastCluster(phones, cfg)|;
      var last := syls[|syls| - 1];
      q < |phones| && |last| > q
      && (forall j :: |phones| - q <= j < |phones| ==> phones[j] !in cfg.vowels)
      && phones[|phones| - q - 1] in cfg.vowels
      && last[|last| - q - 1..] == phones[|phones| - q - 1..]
  {
    var cl := Clusters(phones, cfg);
    var vs := Vowels(phones, cfg);
    var n := |vs|;
    SyllabificationValue(phones, cfg);
    ClustersWeave(phones, cfg);
    SyllablesLast(cl, vs, cfg);
    ClustersVowelFree(phones, cfg);
    VowelsMember(phones, cfg, n - 1);
    var q := |cl[n]|;
    assert LastCluster(phones, cfg) == cl[n];
    var tail := phones[|phones| - q - 1..];
    assert tail == [vs[n - 1]] + cl[n];
    assert phones[|phones| - q - 1] == tail[0];
    forall j | |phones| - q <= j < |phones| ensures phones[j] !in cfg.vowels {
      assert phones[j] == tail[j - (|phones| - q - 1)];
      assert tail[j - (|phones| - q - 1)] == cl[n][j - (|phones| - q)];
    }
  }

  /** Maximum Onset: when the cluster between vowels i-1 and i consists of
      phones of the phone set, it is cut at the first position whose
      remainder is a declared onset (or at its end): the onset of syllable i
      is the longest suffix of the cluster that is a declared onset, and the
      rest closes syllable i-1. */
  lemma MaximumOnset(phones: seq<Phone>, cfg: Phonology, i: nat)
    requires Syllabification(phones, cfg).Ok?
    requires 1 <= i < |Vowels(phones, cfg)|
    requires forall j :: 0 <= j < |phones| ==> phones[j] in cfg.phoneset
    ensures var syls := Syllabification(phones, cfg).value;
      var cl := Clusters(phones, cfg);
      var c := cl[i];
      var k := SplitAt(c, cfg);
      syls[i] == c[k..] + [Vowels(phones, cfg)[i]] + Coda(cl, cfg, i)
      && syls[i - 1] == Onset(cl, cfg, i - 1) + [Vowels(phones, cfg)[i - 1]] + c[..k]
      && (k == |c| || HyphenJoin(c[k..]) in cfg.onsets)
      && forall j :: 0 <= j < k ==> HyphenJoin(c[j..]) !in cfg.onsets
  {
    var cl := Clusters(phones, cfg);
    var vs := Vowels(phones, cfg);
    var c := cl[i];
    assert CodaMatch(c, cfg).Some?;
    ClustersConsonants(phones, cfg);
    assert AllConsonants(c, cfg, |c|);
    LongestOnset(c, cfg);
    SyllabificationValue(phones, cfg);
    AdjacentSyllables(cl, vs, cfg, i);
  }

  /** In a cluster of consonants the boundary falls at the first position
      whose remainder is a declared onset, or at the end. */
  lemma LongestOnset(c: seq<Phone>, cfg: Phonology)
    requires CodaMatch(c, cfg).Some? && AllConsonants(c, cfg, |c|)
    ensures var k := SplitAt(c, cfg);
      (k == |c| || HyphenJoin(c[k..]) in cfg.onsets)
      && forall j :: 0 <= j < k ==> HyphenJoin(c[j..]) !in cfg.onsets
  {
    var k := SplitAt(c, cfg);
    forall j | 0 <= j < k ensures HyphenJoin(c[j..]) !in cfg.onsets {
      assert !CodaFits(c, cfg, j);
      assert AllConsonants(c, cfg, j);
    }
  }

  /** Cluster i is shared between syllables i-1 and i at its boundary. */
  lemma AdjacentSyllables(cl: seq<seq<Phone>>, vs: seq<Phone>, cfg: Phonology, i: nat)
    requires |cl| == |vs| + 1 && 1 <= i < |vs|
    ensures var syls := Syllables(cl, vs, cfg);
      var k := SplitAt(cl[i], cfg);
      syls[i] == cl[i][k..] + [vs[i]] + Coda(cl, cfg, i)
      && syls[i - 1] == Onset(cl, cfg, i - 1) + [vs[i - 1]] + cl[i][..k]
  {
  }

  /** After the phone-set filter the regular expression always matches:
      every cluster can at worst be kept whole as a coda. */
  lemma SyllabificationTotal(phones: seq<Phone>, cfg: Phonology)
    requires forall j :: 0 <= j < |phones| ==> phones[j] in cfg.phoneset
    ensures Syllabification(phones, cfg).Ok?
  {
    var cl := Clusters(phones, cfg);
    ClustersConsonants(phones, cfg);
    forall k | 1 <= k < |cl| - 1 ensures CodaMatch(cl[k], cfg).Some? {
      var c := cl[k];
      assert AllConsonants(c, cfg, |c|);
      assert CodaFits(c, cfg, |c|);
    }
  }

  // ---------------------------------------------------------------------
  // The strings behind the phone-level model

  /** All phones of all clusters have faithful labels. */
  predicate ClusterLabels(cl: seq<seq<Phone>>) {
    forall i :: 0 <= i < |cl| ==> PhoneLabels(cl[i])
  }

  /** The piece `vwls_re.split` leaves between two vowels: "-" when they are
      adjacent, otherwise the hyphen-framed cluster. */
  function InternalPiece(c: seq<Phone>): string {
    "-" + (if c == [] then [] else HyphenJoin(c) + "-")
  }

  /** Piece k of `vwls_re.split(phonestr)`, for cluster list `cl`. */
  function Piece(cl: seq<seq<Phone>>, k: nat): string
    requires k < |cl|
  {
    if |cl| == 1 then HyphenJoin(cl[0])
    else if k == 0 then (if cl[0] == [] then [] else HyphenJoin(cl[0]) + "-")
    else if k == |cl| - 1 then (if cl[k] == [] then [] else "-" + HyphenJoin(cl[k]))
    else InternalPiece(cl[k])
  }

  lemma HyphenJoinEnds(c: seq<Phone>)
    requires c != [] && PhoneLabels(c)
    ensures HyphenJoin(c) != []
    ensures HyphenJoin(c)[0] != '-' && HyphenJoin(c)[|HyphenJoin(c)| - 1] != '-'
  {
    JoinEnds(c, '-');
    assert c[0][0] in c[0];
    assert c[|c| - 1][|c[|c| - 1]| - 1] in c[|c| - 1];
  }

  /** The script's two tests pick out exactly the first and the last piece:
      only an intervocalic piece both starts and ends with a hyphen, so only
      those reach `cons_re`. */
  lemma PieceBranch(cl: seq<seq<Phone>>, k: nat)
    requires k < |cl| && ClusterLabels(cl)
    ensures var e := Piece(cl, k);
      (|e| > 0 && e[0] == '-' && e[|e| - 1] == '-') <==> 0 < k < |cl| - 1
  {
    if cl[k] != [] {
      HyphenJoinEnds(cl[k]);
    }
  }

  /** `cleansplit` of the first and of the last piece is that cluster. */
  lemma PieceCleanSplit(cl: seq<seq<Phone>>, k: nat)
    requires k < |cl| && ClusterLabels(cl)
    requires k == 0 || k == |cl| - 1
    ensures CleanSplit(Piece(cl, k)) == cl[k]
  {
    var c := cl[k];
    if c != [] {
      assert PhoneLabels(c);
      var e := Piece(cl, k);
      if |cl| == 1 {
        assert e == [] + HyphenJoin(c) + [];
        CleanSplitJoin([], c, []);
      } else if k == 0 {
        assert e == [] + HyphenJoin(c) + "-";
        CleanSplitJoin([], c, "-");
      } else {
        assert e == "-" + HyphenJoin(c) + [];
        CleanSplitJoin("-", c, []);
      }
    }
  }

  /** The first group of `cons_re` when the coda has `j` phones. */
  function Group1(c: seq<Phone>, j: nat): string
    requires j <= |c|
  {
    if j == 0 then [] else "-" + HyphenJoin(c[..j])
  }

  /** The second group of `cons_re` when the coda has `j` phones. */
  function Group2(c: seq<Phone>, j: nat): string
    requires j <= |c|
  {
    if j == |c| then [] else "-" + HyphenJoin(c[j..])
  }

  lemma PrefixLabels(c: seq<Phone>, j: nat)
    requires j <= |c| && PhoneLabels(c)
    ensures PhoneLabels(c[..j]) && PhoneLabels(c[j..])
  {
    assert forall t :: 0 <= t < j ==> c[..j][t] == c[t];
    assert forall t :: 0 <= t < |c| - j ==> c[j..][t] == c[j + t];
  }

  /** The two groups followed by the final "-" spell out the intervocalic
      piece, whatever the coda length. */
  lemma GroupsSpellPiece(c: seq<Phone>, j: nat)
    requires j <= |c|
    ensures Group1(c, j) + Group2(c, j) + "-" == InternalPiece(c)
  {
    if 0 < j < |c| {
      assert c[..j] + c[j..] == c;
      JoinAppend(c[..j], c[j..], '-');
      HyphenRegroup(HyphenJoin(c[..j]), HyphenJoin(c[j..]));
    } else if j == 0 {
      assert c[j..] == c;
      if c != [] {
        assert [] + ("-" + HyphenJoin(c)) + "-" == "-" + (HyphenJoin(c) + "-");
      }
    } else {
      assert c[..j] == c;
      assert ("-" + HyphenJoin(c)) + [] + "-" == "-" + (HyphenJoin(c) + "-");
    }
  }

  lemma HyphenRegroup(a: string, b: string)
    ensures ("-" + a) + ("-" + b) + "-" == "-" + ((a + ['-'] + b) + "-")
  {
  }

  /** `cleansplit` of the groups gives the coda and the onset:
      `cns.extend(cleansplit(e) for e in m.groups())` adds `c[..j]` and `c[j..]`. */
  lemma GroupsCleanSplit(c: seq<Phone>, j: nat)
    requires j <= |c| && PhoneLabels(c)
    ensures CleanSplit(Group1(c, j)) == c[..j]
    ensures CleanSplit(Group2(c, j)) == c[j..]
  {
    PrefixLabels(c, j);
    if 0 < j {
      assert Group1(c, j) == "-" + HyphenJoin(c[..j]) + [];
      CleanSplitJoin("-", c[..j], []);
    }
    if j < |c| {
      assert Group2(c, j) == "-" + HyphenJoin(c[j..]) + [];
      CleanSplitJoin("-", c[j..], []);
    }
  }

  // ---------------------------------------------------------------------
  // Worked examples

  lemma ClustersCons(x: Phone, rest: seq<Phone>, cfg: Phonology)
    ensures Clusters([x] + rest, cfg)
         == if x in cfg.vowels then [[]] + Clusters(rest, cfg)
            else [[x] + Clusters(rest, cfg)[0]] + Clusters(rest, cfg)[1..]
  {
    assert ([x] + rest)[1..] == rest;
  }

  const Example: Phonology := Phonology(
    {"k", "ae", "t", "s", "r", "ih", "p"}, {"ae", "ih"}, {"s-t-r", "t-r", "r", "k", "p", "t", "s"})

  /** Between two vowels, "t s t r" is cut after "t": "s t r" is the
      longest declared onset the cluster ends with. */
  lemma ExampleCoda()
    ensures CodaMatch(["t", "s", "t", "r"], Example) == Some(1)
  {
    var c := ["t", "s", "t", "r"];
    assert HyphenJoin(["r"]) == "r";
    assert HyphenJoin(["t", "r"]) == "t-r";
    assert HyphenJoin(["s", "t", "r"]) == "s-t-r";
    assert HyphenJoin(c) == "t-s-t-r";
    assert c[0..] == c && c[1..] == ["s", "t", "r"];
    assert !CodaFits(c, Example, 0);
    assert CodaFits(c, Example, 1);
  }

  /** Between two vowels, "s t" stays whole as the onset when "s-t" is a
      declared onset; with only "t" declared it is cut after "s". */
  lemma ExampleTieBreak()
    ensures CodaMatch(["s", "t"], Phonology({"s", "t", "a"}, {"a"}, {"s-t"})) == Some(0)
    ensures CodaMatch(["s", "t"], Phonology({"s", "t", "a"}, {"a"}, {"t"})) == Some(1)
  {
    var c := ["s", "t"];
    var whole := Phonology({"s", "t", "a"}, {"a"}, {"s-t"});
    var single := Phonology({"s", "t", "a"}, {"a"}, {"t"});
    assert HyphenJoin(c) == "s-t";
    assert c[0..] == c && c[1..] == ["t"];
    assert HyphenJoin(["t"]) == "t";
    assert CodaFits(c, whole, 0);
    assert !CodaFits(c, single, 0);
    assert CodaFits(c, single, 1);
  }

  /** The clusters and vowels of "p t a s t i" when "a" and "i" are the vowels. */
  lemma ExampleClusters(cfg: Phonology)
    requires cfg.vowels == {"a", "i"}
    ensures Clusters(["p", "t", "a", "s", "t", "i"], cfg) == [["p", "t"], ["s", "t"], []]
    ensures Vowels(["p", "t", "a", "s", "t", "i"], cfg) == ["a", "i"]
  {
    assert "p" !in cfg.vowels && "t" !in cfg.vowels;
    ExampleClustersTail(cfg);
    var c3 := Clusters(["s", "t", "i"], cfg);
    ClustersCons("a", ["s", "t", "i"], cfg);
    assert ["a"] + ["s", "t", "i"] == ["a", "s", "t", "i"];
    var c2 := Clusters(["a", "s", "t", "i"], cfg);
    assert c2 == [[], ["s", "t"], []];
    ClustersCons("t", ["a", "s", "t", "i"], cfg);
    assert ["t"] + ["a", "s", "t", "i"] == ["t", "a", "s", "t", "i"];
    assert c2[0] == [] && c2[1..] == [["s", "t"], []] && ["t"] + c2[0] == ["t"];
    assert [["t"]] + [["s", "t"], []] == [["t"], ["s", "t"], []];
    var c1 := Clusters(["t", "a", "s", "t", "i"], cfg);
    assert c1 == [["t"], ["s", "t"], []];
    ClustersCons("p", ["t", "a", "s", "t", "i"], cfg);
    assert ["p"] + ["t", "a", "s", "t", "i"] == ["p", "t", "a", "s", "t", "i"];
    assert c1[0] == ["t"] && c1[1..] == [["s", "t"], []] && ["p"] + c1[0] == ["p", "t"];
    assert [["p", "t"]] + [["s", "t"], []] == [["p", "t"], ["s", "t"], []];
    ExampleVowels(cfg);
  }

  /** The clusters of "s t i": the consonants before the vowel, then nothing. */
  lemma ExampleClustersTail(cfg: Phonology)
    requires cfg.vowels == {"a", "i"}
    ensures Clusters(["s", "t", "i"], cfg) == [["s", "t"], []]
  {
    assert "t" !in cfg.vowels && "s" !in cfg.vowels;
    ClustersCons("i", [], cfg);
    assert ["i"] + [] == ["i"];
    var c5 := Clusters(["i"], cfg);
    assert c5 == [[], []];
    ClustersCons("t", ["i"], cfg);
    assert ["t"] + ["i"] == ["t", "i"];
    assert c5[0] == [] && c5[1..] == [[]] && ["t"] + c5[0] == ["t"];
    assert [["t"]] + [[]] == [["t"], []];
    var c4 := Clusters(["t", "i"], cfg);
    assert c4 == [["t"], []];
    ClustersCons("s", ["t", "i"], cfg);
    assert ["s"] + ["t", "i"] == ["s", "t", "i"];
    assert c4[0] == ["t"] && c4[1..] == [[]] && ["s"] + c4[0] == ["s", "t"];
    assert [["s", "t"]] + [[]] == [["s", "t"], []];
  }

  lemma ExampleVowels(cfg: Phonology)
    requires cfg.vowels == {"a", "i"}
    ensures Vowels(["p", "t", "a", "s", "t", "i"], cfg) == ["a", "i"]
  {
    assert "p" !in cfg.vowels && "t" !in cfg.vowels && "s" !in cfg.vowels;
    assert ["i"][1..] == [] && ["i"] + [] == ["i"];
    assert Vowels(["i"], cfg) == ["i"];
    assert ["t", "i"][1..] == ["i"] && [] + ["i"] == ["i"];
    assert Vowels(["t", "i"], cfg) == ["i"];
    assert ["s", "t", "i"][1..] == ["t", "i"];
    assert Vowels(["s", "t", "i"], cfg) == ["i"];
    assert ["a", "s", "t", "i"][1..] == ["s", "t", "i"] && ["a"] + ["i"] == ["a", "i"];
    assert Vowels(["a", "s", "t", "i"], cfg) == ["a", "i"];
    assert ["t", "a", "s", "t", "i"][1..] == ["a", "s", "t", "i"] && [] + ["a", "i"] == ["a", "i"];
    assert Vowels(["t", "a", "s", "t", "i"], cfg) == ["a", "i"];
    assert ["p", "t", "a", "s", "t", "i"][1..] == ["t", "a", "s", "t", "i"];
  }

  /** "p t a s t i" cut inside "s t" after k phones. */
  lemma ExampleSplit(cfg: Phonology, k: nat)
    requires cfg.vowels == {"a", "i"}
    requires CodaMatch(["s", "t"], cfg) == Some(k)
    ensures Syllabification(["p", "t", "a", "s", "t", "i"], cfg)
         == Ok([["p", "t", "a"] + ["s", "t"][..k], ["s", "t"][k..] + ["i"]])
  {
    ExampleClusters(cfg);
    var cl := [["p", "t"], ["s", "t"], []];
    assert FirstUnsplittableFrom(cl, cfg, 1).None?;
    assert Onset(cl, cfg, 0) == ["p", "t"];
    assert Coda(cl, cfg, 0) == ["s", "t"][..k];
    assert Onset(cl, cfg, 1) == ["s", "t"][k..];
    assert Coda(cl, cfg, 1) == [];
    var sy := Syllables(cl, ["a", "i"], cfg);
    assert sy[0] == ["p", "t"] + ["a"] + ["s", "t"][..k];
    assert sy[1] == ["s", "t"][k..] + ["i"] + [];
    assert ["p", "t"] + ["a"] == ["p", "t", "a"];
    assert (["s", "t"][k..] + ["i"]) + [] == ["s", "t"][k..] + ["i"];
    assert |sy| == 2;
    assert sy == [["p", "t", "a"] + ["s", "t"][..k], ["s", "t"][k..] + ["i"]];
  }

  /** "p t a s t i" is syllabified "p t a" + "s t i" when "s-t" is a
      declared onset: the whole cluster becomes the onset. */
  lemma ExampleWordWhole()
    ensures Syllabification(["p", "t", "a", "s", "t", "i"],
                            Phonology({"p", "t", "a", "s", "i"}, {"a", "i"}, {"p-t", "s-t"}))
         == Ok([["p", "t", "a"], ["s", "t", "i"]])
  {
    var c := ["s", "t"];
    var cfg := Phonology({"p", "t", "a", "s", "i"}, {"a", "i"}, {"p-t", "s-t"});
    assert HyphenJoin(c) == "s-t";
    assert c[0..] == c && c[..0] == [];
    assert CodaFits(c, cfg, 0);
    ExampleSplit(cfg, 0);
    assert ["p", "t", "a"] + c[..0] == ["p", "t", "a"] && c[0..] + ["i"] == ["s", "t", "i"];
  }

  /** With "t" but not "s-t" declared, "p t a s t i" is syllabified
      "p t a s" + "t i". */
  lemma ExampleWordSingle()
    ensures Syllabification(["p", "t", "a", "s", "t", "i"],
                            Phonology({"p", "t", "a", "s", "i"}, {"a", "i"}, {"p-t", "t"}))
         == Ok([["p", "t", "a", "s"], ["t", "i"]])
  {
    var c := ["s", "t"];
    var cfg := Phonology({"p", "t", "a", "s", "i"}, {"a", "i"}, {"p-t", "t"});
    assert HyphenJoin(c) == "s-t";
    assert c[0..] == c && c[1..] == ["t"] && c[..1] == ["s"];
    assert HyphenJoin(["t"]) == "t";
    assert !CodaFits(c, cfg, 0) && CodaFits(c, cfg, 1);
    ExampleSplit(cfg, 1);
    assert ["p", "t", "a"] + c[..1] == ["p", "t", "a", "s"] && c[1..] + ["i"] == ["t", "i"];
  }

  /** A phone outside the phone set between two vowels defeats the regular
      expression: the exception the annotator catches. */
  lemma ExampleFailure()
    ensures Syllabification(["ae", "x", "ih"], Example) == Err(NoCodaMatch(["x"]))
  {
    var phones := ["ae", "x", "ih"];
    assert Clusters([], Example) == [[]];
    ClustersCons("ih", [], Example);
    assert ["ih"] + [] == ["ih"];
    assert Clusters(["ih"], Example) == [[], []];
    ClustersCons("x", ["ih"], Example);
    assert "x" !in Example.vowels;
    var r := Clusters(["ih"], Example);
    assert r[0] == [] && r[1..] == [[]];
    assert ["x"] + r[0] == ["x"];
    assert [["x"] + r[0]] + r[1..] == [["x"], []];
    assert ["x"] + ["ih"] == ["x", "ih"];
    assert Clusters(["x", "ih"], Example) == [["x"], []];
    ClustersCons("ae", ["x", "ih"], Example);
    assert ["ae"] + ["x", "ih"] == phones;
    assert Clusters(phones, Example) == [[], ["x"], []];
    assert HyphenJoin(["x"]) == "x";
    assert CodaMatch(["x"], Example) == None;
  }

}
