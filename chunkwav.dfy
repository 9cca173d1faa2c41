/** The chunk computation of scripts/chunkwav.py: the labelled entries of a
    tier become named sample ranges of the wave file, and the chunk names
    are prefixed with the TextGrid file's name without its extension. */
module ChunkWav {
  import opened Text
  import opened Tiers

  /** `NONE_LABEL`: entries with this label give no chunk. */
  const NoneLabel: string := ""

  /** Python's `int()` on a float: truncation toward zero. */
  function Trunc(x: real): (n: int)
    ensures 0.0 <= x ==> 0 <= n && n as real <= x < n as real + 1.0
    ensures x < 0.0 ==> n <= 0 && n as real - 1.0 < x <= n as real
  {
    if 0.0 <= x then x.Floor else -((-x).Floor)
  }

  /** Truncation never reverses the order of two numbers. */
  lemma TruncMonotone(x: real, y: real)
    requires x <= y
    ensures Trunc(x) <= Trunc(y)
  {
  }

  /** `int(t * samplerate)`: the sample a time falls on. */
  function SampleAt(t: real, rate: int): int {
    Trunc(t * rate as real)
  }

  lemma SampleMonotone(s: real, t: real, rate: int)
    requires s <= t && 0 <= rate
    ensures SampleAt(s, rate) <= SampleAt(t, rate)
  {
    assert s * rate as real <= t * rate as real;
    TruncMonotone(s * rate as real, t * rate as real);
  }

  /** `"_".join([prefix, str(i).zfill(4), label])`. */
  function ChunkName(prefix: string, i: nat, lab: string): (r: string)
    ensures |r| >= |prefix| + |lab| + 6
    ensures r[..|prefix|] == prefix && r[|prefix|] == '_'
    ensures r[|r| - |lab|..] == lab && r[|r| - |lab| - 1] == '_'
  {
    prefix + "_" + ZFill(DecimalString(i), 4) + "_" + lab
  }

  /** A named sample range `(label, startsample, endsample)`. */
  datatype Chunk = Chunk(name: string, start: int, end: int)

  /** The chunk of entry i: from the sample of the previous entry's time
      (0.0 before the first) to the sample of its own time. */
  function ChunkOf(entries: seq<Boundary>, i: nat, rate: int, prefix: string): Chunk
    requires i < |entries|
  {
    Chunk(ChunkName(prefix, i, entries[i].text),
          SampleAt(PrevTime(0.0, entries, i), rate),
          SampleAt(entries[i].time, rate))
  }

  predicate Labelled(b: Boundary) {
    b.text != NoneLabel
  }

  /** The positions below n whose entries are labelled, in increasing order. */
  function LabelledBelow(entries: seq<Boundary>, n: nat): (r: seq<nat>)
    requires n <= |entries|
    ensures forall k :: 0 <= k < |r| ==> r[k] < n && Labelled(entries[r[k]])
    ensures forall k, l :: 0 <= k < l < |r| ==> r[k] < r[l]
    ensures forall i :: 0 <= i < n && Labelled(entries[i]) ==> i in r
  {
    if n == 0 then []
    else LabelledBelow(entries, n - 1) + (if Labelled(entries[n - 1]) then [n - 1] else [])
  }

  /** The chunks of the labelled entries below n, in entry order. */
  function ChunksBelow(entries: seq<Boundary>, n: nat, rate: int, prefix: string): (r: seq<Chunk>)
    requires n <= |entries|
    ensures |r| == |LabelledBelow(entries, n)|
  {
    var ix := LabelledBelow(entries, n);
    seq(|ix|, k requires 0 <= k < |ix| => ChunkOf(entries, ix[k], rate, prefix))
  }

  /** What `tg2labelsampleranges` returns: one chunk per labelled entry. */
  function Chunks(entries: seq<Boundary>, rate: int, prefix: string): (r: seq<Chunk>)
    ensures |r| == |LabelledBelow(entries, |entries|)|
  {
    ChunksBelow(entries, |entries|, rate, prefix)
  }

  lemma ChunksStep(entries: seq<Boundary>, n: nat, rate: int, prefix: string)
    requires n < |entries|
    ensures ChunksBelow(entries, n + 1, rate, prefix)
         == ChunksBelow(entries, n, rate, prefix)
            + (if Labelled(entries[n]) then [ChunkOf(entries, n, rate, prefix)] else [])
  {
    var ix := LabelledBelow(entries, n);
    var a := ChunksBelow(entries, n + 1, rate, prefix);
    var b := ChunksBelow(entries, n, rate, prefix)
             + (if Labelled(entries[n]) then [ChunkOf(entries, n, rate, prefix)] else []);
    if Labelled(entries[n]) {
      assert LabelledBelow(entries, n + 1) == ix + [n];
      forall k | 0 <= k < |a| ensures a[k] == b[k] {
        if k < |ix| {
          assert (ix + [n])[k] == ix[k];
        } else {
          assert (ix + [n])[k] == n;
        }
      }
    } else {
      assert LabelledBelow(entries, n + 1) == ix + [];
      assert ix + [] == ix;
    }
  }

  /** `tg2labelsampleranges(tg, tier, samplerate, prefix)` on the entries of
      the tier. */
  method LabelSampleRanges(entries: seq<Boundary>, rate: int, prefix: string)
    returns (chunks: seq<Chunk>)
    ensures chunks == Chunks(entries, rate, prefix)
  {
    chunks := [];
    var startTime := 0.0;
    for i := 0 to |entries|
      invariant chunks == ChunksBelow(entries, i, rate, prefix)
      invariant startTime == PrevTime(0.0, entries, i)
    {
      var entry := entries[i];
      ChunksStep(entries, i, rate, prefix);
      if entry.text != NoneLabel {
        chunks := chunks + [Chunk(ChunkName(prefix, i, entry.text),
                                  SampleAt(startTime, rate), SampleAt(entry.time, rate))];
      }
      startTime := entry.time;
    }
  }

  // ---------------------------------------------------------------------
  // What the chunks are

  /** Chunk k belongs to the k-th labelled entry; every labelled entry has
      one and no other entry has any. */
  lemma ChunkPerLabelledEntry(entries: seq<Boundary>, rate: int, prefix: string)
    ensures var ix := LabelledBelow(entries, |entries|);
      (forall k :: 0 <= k < |ix| ==>
         Chunks(entries, rate, prefix)[k] == ChunkOf(entries, ix[k], rate, prefix))
      && (forall i :: 0 <= i < |entries| ==> (i in ix <==> entries[i].text != NoneLabel))
  {
  }

  /** The number of labelled entries among the first n. */
  function LabelledCount(entries: seq<Boundary>, n: nat): nat
    requires n <= |entries|
  {
    if n == 0 then 0 else LabelledCount(entries, n - 1) + (if Labelled(entries[n - 1]) then 1 else 0)
  }

  lemma {:induction false} LabelledBelowCount(entries: seq<Boundary>, n: nat)
    requires n <= |entries|
    ensures |LabelledBelow(entries, n)| == LabelledCount(entries, n)
  {
    if n > 0 {
      LabelledBelowCount(entries, n - 1);
    }
  }

  /** Exactly as many chunks as labelled entries. */
  lemma ChunkCount(entries: seq<Boundary>, rate: int, prefix: string)
    ensures |Chunks(entries, rate, prefix)| == LabelledCount(entries, |entries|)
  {
    LabelledBelowCount(entries, |entries|);
  }

  /** With times that never decrease and are not negative, and a
      non-negative rate, each chunk starts no later than it ends, and ends
      no later than the next one starts. */
  lemma ChunksOrdered(entries: seq<Boundary>, rate: int, prefix: string)
    requires Monotone(entries) && 0 <= rate
    ensures var c := Chunks(entries, rate, prefix);
      (forall k :: 0 <= k < |c| ==> c[k].start <= c[k].end)
      && (forall k, l :: 0 <= k < l < |c| ==> c[k].end <= c[l].start)
  {
    var c := Chunks(entries, rate, prefix);
    var ix := LabelledBelow(entries, |entries|);
    forall k | 0 <= k < |c| ensures c[k].start <= c[k].end {
      var i := ix[k];
      if i > 0 {
        assert entries[i - 1].time <= entries[i].time;
      }
      SampleMonotone(PrevTime(0.0, entries, i), entries[i].time, rate);
    }
    forall k, l | 0 <= k < l < |c| ensures c[k].end <= c[l].start {
      var i, j := ix[k], ix[l];
      if i < j - 1 {
        assert entries[i].time <= entries[j - 1].time;
      }
      SampleMonotone(entries[i].time, PrevTime(0.0, entries, j), rate);
    }
  }

  /** The name of the chunk of entry i < 10000 holds its prefix, the
      four-digit index that denotes i, and its label, in that order. */
  lemma ChunkNameFields(prefix: string, i: nat, lab: string)
    requires i < 10000
    ensures var name := ChunkName(prefix, i, lab);
      |name| == |prefix| + 6 + |lab|
      && name[..|prefix|] == prefix
      && name[|prefix|] == '_' && name[|prefix| + 5] == '_'
      && DecimalValue(name[|prefix| + 1..|prefix| + 5]) == i
      && name[|prefix| + 6..] == lab
  {
    assert Pow10(4) == 10000;
    ZFillDecimal(i, 4);
    FieldsOf(prefix, ZFill(DecimalString(i), 4), lab);
  }

  lemma FieldsOf(prefix: string, z: string, lab: string)
    requires |z| == 4
    ensures var name := prefix + "_" + z + "_" + lab;
      |name| == |prefix| + 6 + |lab|
      && name[..|prefix|] == prefix
      && name[|prefix|] == '_' && name[|prefix| + 5] == '_'
      && name[|prefix| + 1..|prefix| + 5] == z
      && name[|prefix| + 6..] == lab
  {
  }

  /** Below 10000 entries, no two chunks of a tier get the same name. */
  lemma ChunkNamesDistinct(entries: seq<Boundary>, rate: int, prefix: string)
    requires |entries| <= 10000
    ensures var c := Chunks(entries, rate, prefix);
      forall k, l :: 0 <= k < l < |c| ==> c[k].name != c[l].name
  {
    var c := Chunks(entries, rate, prefix);
    var ix := LabelledBelow(entries, |entries|);
    forall k, l | 0 <= k < l < |c| ensures c[k].name != c[l].name {
      ChunkNameFields(prefix, ix[k], entries[ix[k]].text);
      ChunkNameFields(prefix, ix[l], entries[ix[l]].text);
    }
  }

  // ---------------------------------------------------------------------
  // basename

  /** `".".join(fn.split(".")[:-1])`: the file name without its last
      extension (the directory part, `os.path.basename`, is not modelled). */
  function BaseName(fn: string): (r: string)
    ensures r <= fn
    ensures '.' in fn ==> |r| < |fn| && fn[|r|] == '.'
  {
    var fields := Split(fn, '.');
    JoinSplit(fn, '.');
    if |fields| >= 2 then
      JoinInit(fields, '.');
      Join(fields[..|fields| - 1], '.')
    else
      Join(fields[..|fields| - 1], '.')
  }

  /** A name without a dot has an empty base name. */
  lemma BaseNameNoDot(fn: string)
    requires '.' !in fn
    ensures BaseName(fn) == ""
  {
    SplitNoSeparator(fn, '.');
  }

  /** A name with a dot is its base name, a dot, and a dot-free extension. */
  lemma BaseNameDot(fn: string) returns (ext: string)
    requires '.' in fn
    ensures '.' !in ext
    ensures fn == BaseName(fn) + "." + ext
  {
    var fields := Split(fn, '.');
    SplitSeparator(fn, '.');
    JoinSplit(fn, '.');
    JoinInit(fields, '.');
    ext := fields[|fields| - 1];
  }

  /** In a stem, a dot and a dot-free extension, the dot is the last one. */
  lemma DotIsLast(a: string, b: string)
    requires '.' !in b
    ensures (a + "." + b)[|a|] == '.'
    ensures forall j :: |a| < j < |a + "." + b| ==> (a + "." + b)[j] != '.'
  {
    var fn := a + "." + b;
    forall j | |a| < j < |fn| ensures fn[j] != '.' {
      assert fn[j] == b[j - |a| - 1];
    }
  }

  /** Of two ways to write a name as a stem, a dot and a dot-free extension,
      the extensions, and so the stems, are the same. */
  lemma LastDotUnique(a: string, b: string, a': string, b': string)
    requires '.' !in b && '.' !in b'
    requires a + "." + b == a' + "." + b'
    ensures a == a' && b == b'
  {
    var fn := a + "." + b;
    DotIsLast(a, b);
    DotIsLast(a', b');
    assert |a| == |a'|;
    assert b == fn[|a| + 1..];
    assert a == fn[..|a|];
  }

  /** `basename` removes exactly the text after the last dot, and the dot. */
  lemma BaseNameLastDot(a: string, b: string)
    requires '.' !in b
    ensures BaseName(a + "." + b) == a
  {
    var fn := a + "." + b;
    assert fn[|a|] == '.';
    var ext := BaseNameDot(fn);
    LastDotUnique(a, b, BaseName(fn), ext);
  }
}
