# LibriTTSLabel tier derivation, modelled in Dafny

LibriTTSLabel adds derived tiers to Praat TextGrid annotations of speech:

- a **syllable tier**: each word's phones are cut into syllables by a Maximum-Onset syllabifier driven by three configuration sets (phone set, vowels, onsets);
- an **intonational-phrase tier**: every maximal run of non-silence phones becomes one "IP" interval;
- **wave chunks**: every labelled interval of a tier becomes a named sample range of the recording.

The model covers the parts of the three scripts that compute these tiers.

- `Tiers` (tiers.dfy) models the point-tier encoding shared by all scripts. A tier is a list of `(end time, text)` boundaries. `get_segments` decodes a tier into segments, with an optional ignore set and an optional time window. `segs_to_tier` encodes segments back into a tier, adding empty filler boundaries where there are gaps.
- `Syllabifier` (syllabifier.dfy) models `cleansplit` and `syllabify` at the level of phone sequences.
  - The vowel list comprehension `vwls` is modelled as `Vowels`; the vowel-splitting regular expression `vwls_re.split` is modelled as `Clusters`.
  - The consonant regular expression `((?:-c)*?)((?:-o){0,1})-$` is modelled as `CodaMatch`: the shortest consonant prefix whose remainder is empty or is a declared onset.
  - A separate group of lemmas ties the string pieces and regex groups of the script to the phone-level model.
- `SyllableTier` (syllable_tier.dfy) models `syllabify_textgrid` and the assembly of the "syllables" tier in `main`.
- `PhraseTier` (phrase_tier.dfy) models the phrase-grouping loop of add_phr_tier.py and the trailing filler boundary.
- `ChunkWav` (chunkwav.dfy) models `tg2labelsampleranges` and the string part of `basename`.
- `Text` (text.dfy) models the Python string operations used by the scripts: `strip`, `split`, `join`, `str` of an int and `zfill`.

Every modelled `for` statement except the one in `get_segments` is a Dafny `method` proved equal to a specification function. `get_segments` is the recursive function `Tiers.DecodeFrom`, and the comprehensions and the `any(...)` test are functions. The per-file loops of the two `main`s and the chunk-writing loop of chunkwav.py's `__main__` block are not modelled. The remaining properties are lemmas about the specification functions.

Times are Dafny `real`s: a float and its `str()` form are treated as the same value. The configuration sets are parameters (`Phonology`). Reading and writing TextGrids is not modelled.

add_syl_tier.py line 119 appends the final empty boundary to the syllable tier unconditionally, so the tier may end with a zero-length filler (`SyllableTier.AddSyllableTier`). add_phr_tier.py lines 45-46 append the phrase tier's filler only when the phrase tier does not already reach the phone tier's last time (`PhraseTier.PhraseTierOf`).

## Model

| member | source | states |
|---|---|---|
| Tiers.GetSegments | scripts/add_syl_tier.py:21-32 | At most one segment per boundary. No yielded segment has an ignored label. No yielded segment starts or ends outside the window. |
| Tiers.IntervalsAt | scripts/add_syl_tier.py:22 | The `zip` pairing: interval i runs from boundary i-1's time (0.0 for the first) to boundary i's time. |
| Tiers.StopIndexFirst | scripts/add_syl_tier.py:30-31 | The `break` index is the first interval that passes the ignore and start tests and reaches past the window's end. |
| Tiers.KeepMembership | scripts/add_syl_tier.py:26-29 | The two `continue` tests keep exactly the admitted intervals. |
| Tiers.DecodeAsFilter | scripts/add_syl_tier.py:21-32 | Decoding equals: pair the boundaries, cut at the `break`, keep the admitted intervals. |
| Tiers.DecodeMembership | scripts/add_syl_tier.py:21-32 | A segment is yielded iff it is an admitted interval before the `break`. |
| Tiers.DecodeStripped | scripts/add_syl_tier.py:23 | Every yielded label has no surrounding whitespace. |
| Tiers.DecodeEverything | scripts/add_syl_tier.py:21-25 | With no optional argument, segment i is (previous time, time i, stripped text i), one per boundary. |
| Tiers.Encode | scripts/add_syl_tier.py:56-64 | The encoded tier has one boundary per segment and at most one filler before each: between n and 2n boundaries. |
| Tiers.SegsToTier | scripts/add_syl_tier.py:56-64 | The loop computes `Encode`: a filler boundary before every segment that does not start at the running end, then the segment's end and label. |
| Tiers.EncodeDecodeFrom | scripts/add_syl_tier.py:56-64 | Decode after encode, ignoring the filler label, gives back the segments followed by whatever the rest of the tier decodes to. |
| Tiers.RoundTripIgnoringFiller | scripts/add_syl_tier.py:56-64 | For segments with non-empty stripped labels, decoding the encoded tier with "" ignored gives back exactly the segments. |
| Tiers.RoundTripContiguous | scripts/add_syl_tier.py:56-64 | Gap-free segments from 0.0 encode to one boundary each and decode back to themselves. |
| Tiers.EncodeLast | scripts/add_syl_tier.py:62-64 | The tier is empty iff there are no segments; otherwise its last boundary is the last segment's end and label. |
| Text.Strip | scripts/add_syl_tier.py:23 | `str.strip()`: the result has no whitespace at either end. |
| Text.TrimIsTrimmed | scripts/add_syl_tier.py:23 | After `strip`, neither end is a stripped character. |
| Text.TrimExact | scripts/add_syl_tier.py:67-68 | `strip` removes exactly the stripped characters around a trimmed core. |
| Text.Split | scripts/add_syl_tier.py:68 | `str.split(sep)` with a one-character separator: at least one field, and no field contains the separator. |
| Text.Join | scripts/add_syl_tier.py:72 | `sep.join(xs)`: the result starts with the first field. |
| Text.JoinSplit | scripts/add_syl_tier.py:67-68 | Joining the fields of a split gives back the string. |
| Text.SplitJoin | scripts/add_syl_tier.py:67-68 | Splitting a join of separator-free fields gives back the fields. |
| Text.DecimalString | scripts/chunkwav.py:25 | `str(n)`: at least one character, all decimal digits, and a leading "0" only for 0. |
| Text.DecimalRoundTrip | scripts/chunkwav.py:25 | `str(n)` denotes n. |
| Text.ZFill | scripts/chunkwav.py:25 | `zfill(width)`: the string padded on the left with "0" to the width; a string already that long is unchanged. |
| Text.ZFillDecimal | scripts/chunkwav.py:25 | For n below 10^width, `str(n).zfill(width)` has exactly width characters and denotes n. |
| Syllabifier.CleanSplit | scripts/add_syl_tier.py:67-68 | The result is [] iff the input is empty; no field contains a hyphen. |
| Syllabifier.CleanSplitFields | scripts/add_syl_tier.py:67-68 | A non-empty input gives at least one field; the fields join back to the input without its outer hyphens. |
| Syllabifier.CleanSplitJoin | scripts/add_syl_tier.py:67-68 | Outer hyphens around a hyphen-joined list of phone labels are ignored: the list comes back. |
| Syllabifier.CleanSplitHyphens | scripts/add_syl_tier.py:67-68 | A string of hyphens only gives one empty field, not []. |
| Syllabifier.Vowels | scripts/add_syl_tier.py:73 | `vwls`: the phones that are vowels, in order. It has no contract of its own; `VowelsMember`, `VowelsEmpty` and `VowelsAppend` state its properties. |
| Syllabifier.VowelsMember | scripts/add_syl_tier.py:73 | Every vowel occurrence is in the vowel set. |
| Syllabifier.VowelsEmpty | scripts/add_syl_tier.py:73 | There is no vowel occurrence iff no phone is a vowel. |
| Syllabifier.VowelsAppend | scripts/add_syl_tier.py:73 | The vowel occurrences of a concatenation are those of its parts, concatenated. |
| Syllabifier.Clusters | scripts/add_syl_tier.py:72-73 | There is one more cluster than there are vowel occurrences. |
| Syllabifier.ClustersWeave | scripts/add_syl_tier.py:71-73 | Clusters interleaved with the vowels give back the phones. |
| Syllabifier.ClustersVowelFree | scripts/add_syl_tier.py:73 | No cluster holds a vowel. |
| Syllabifier.ClustersConsonants | scripts/add_syl_tier.py:101 | When all phones are in the phone set, every cluster phone is a consonant (phone set minus vowels). |
| Syllabifier.ClustersFirst | scripts/add_syl_tier.py:73 | The first cluster is the longest vowel-free prefix. |
| Syllabifier.ClustersLast | scripts/add_syl_tier.py:73 | The last cluster is the longest vowel-free suffix; there is more than one cluster iff it is shorter than the phones. |
| Syllabifier.ShortestCodaFrom | scripts/add_syl_tier.py:104-106 | The lazy search returns the first fitting coda length from j, or reports that none fits. |
| Syllabifier.CodaMatch | scripts/add_syl_tier.py:104-106 | `cons_re.match`: the shortest coda whose phones are consonants and whose remainder is empty or a declared onset; None iff no length fits. |
| Syllabifier.FirstUnsplittableFrom | scripts/add_syl_tier.py:75-83 | Returns the first intervocalic cluster that `cons_re` does not match, or reports that all match. |
| Syllabifier.Syllables | scripts/add_syl_tier.py:85-87 | One syllable per vowel occurrence. |
| Syllabifier.Syllabification | scripts/add_syl_tier.py:70-88 | One syllable per vowel on success. No vowels gives []. An error occurs iff some intervocalic cluster does not match. |
| Syllabifier.PiecesBelowIndex | scripts/add_syl_tier.py:74-83 | After clusters 0..k-1, `cns` has 2k-1 pieces (2k-2 at the end); piece 2i is onset i and piece 2i+1 is coda i. |
| Syllabifier.CutClusters | scripts/add_syl_tier.py:74-83 | The first loop either stops at the first unmatched intervocalic cluster or produces exactly the cut pieces. |
| Syllabifier.Syllabify | scripts/add_syl_tier.py:70-88 | The two loops of `syllabify` compute `Syllabification`, error case included. |
| Syllabifier.SyllablesFit | scripts/add_syl_tier.py:85-87 | Every syllable is non-empty, and the syllables hold no more phones than the input. |
| Syllabifier.SyllabificationConcat | scripts/add_syl_tier.py:70-88 | With at least one vowel, the concatenated syllables are the input phones. |
| Syllabifier.Nuclei | scripts/add_syl_tier.py:85-87 | Syllable i holds exactly one vowel: the i-th vowel occurrence. |
| Syllabifier.FirstOnset | scripts/add_syl_tier.py:76-78 | The first syllable starts with exactly the phones up to and including the first vowel. |
| Syllabifier.LastCoda | scripts/add_syl_tier.py:79-81 | The last syllable ends with exactly the phones from the last vowel on. |
| Syllabifier.MaximumOnset | scripts/add_syl_tier.py:82-87 | Between vowels i-1 and i, the onset of syllable i is the longest declared-onset suffix of the cluster (or empty); the rest closes syllable i-1. |
| Syllabifier.LongestOnset | scripts/add_syl_tier.py:106 | In an all-consonant cluster, the cut is the first position whose remainder is a declared onset, or the end. |
| Syllabifier.AdjacentSyllables | scripts/add_syl_tier.py:82-87 | Cluster i is shared at its cut between syllables i-1 and i. |
| Syllabifier.SyllabificationTotal | scripts/add_syl_tier.py:101-106 | When all phones are in the phone set, `cons_re` always matches: the syllabification never fails. |
| Syllabifier.PieceBranch | scripts/add_syl_tier.py:76-81 | A piece of `vwls_re.split` both starts and ends with "-" iff it lies between two vowels. |
| Syllabifier.PieceCleanSplit | scripts/add_syl_tier.py:76-81 | `cleansplit` of the first or the last piece is that cluster. |
| Syllabifier.GroupsSpellPiece | scripts/add_syl_tier.py:106 | The two regex groups and the final "-" spell the intervocalic piece, whatever the coda length. |
| Syllabifier.GroupsCleanSplit | scripts/add_syl_tier.py:83 | `cleansplit` of the two groups gives the coda and the onset. |
| Syllabifier.ExampleCoda | scripts/add_syl_tier.py:106 | Between vowels, "t s t r" is cut after "t" when "s-t-r" is an onset. |
| Syllabifier.ExampleTieBreak | scripts/add_syl_tier.py:106 | "s t" stays whole as the onset when "s-t" is declared; it is cut after "s" when only "t" is. |
| Syllabifier.ExampleWordWhole | scripts/add_syl_tier.py:70-88 | With onsets {p-t, s-t}, "p t a s t i" gives "p t a" and "s t i". |
| Syllabifier.ExampleWordSingle | scripts/add_syl_tier.py:70-88 | With onsets {p-t, t}, "p t a s t i" gives "p t a s" and "t i". |
| Syllabifier.ExampleFailure | scripts/add_syl_tier.py:82-83 | A phone outside the phone set between two vowels makes the match fail; the error names that cluster. |
| SyllableTier.WordPhones | scripts/add_syl_tier.py:38 | The phones of a word: at most one per phone boundary, each within the word's span. |
| SyllableTier.SyllableLabel | scripts/add_syl_tier.py:51 | A syllable label is the word, "_", then the hyphen-joined phones, starting with the syllable's first phone. |
| SyllableTier.AppendSyllables | scripts/add_syl_tier.py:47-52 | The inner loop appends one segment per syllable, counting `phone_idx` off the word's phones. |
| SyllableTier.SyllabifyTextgrid | scripts/add_syl_tier.py:35-53 | The word loop yields the annotation of all non-empty words and the warnings for words whose syllabification fails. |
| SyllableTier.AnnotateConcat | scripts/add_syl_tier.py:36-53 | Words are annotated independently: the result and the warnings for a list of words are those of its parts, concatenated. |
| SyllableTier.SkippedWord | scripts/add_syl_tier.py:39-46 | A word with a phone outside the phone set, or one that fails to syllabify, adds no segment; only the failure is reported. |
| SyllableTier.EmptyWordsIgnored | scripts/add_syl_tier.py:37 | Empty word labels are never annotated. |
| SyllableTier.WordPhonesWithin | scripts/add_syl_tier.py:38 | The phones of a word lie within the word's span. |
| SyllableTier.SegmentsOverPhones | scripts/add_syl_tier.py:47-52 | Syllable segment i runs from its first phone's start to its last phone's end, within the word, labelled `word_ph1-ph2-…`. |
| SyllableTier.SyllableSpans | scripts/add_syl_tier.py:38-52 | An in-phone-set word always syllabifies, and its segments are its syllables laid over its phones. |
| SyllableTier.SyllablePhones | scripts/add_syl_tier.py:47-52 | With a vowel, the syllables use up all of the word's phones, and syllable i is exactly the phones between its offsets. |
| SyllableTier.NoWarnings | scripts/add_syl_tier.py:41-46 | The `except` branch is never taken: no warning is ever produced. |
| SyllableTier.ContributionRealLabels | scripts/add_syl_tier.py:49-51 | A labelled word yields segments whose labels are non-empty and stripped. |
| SyllableTier.AnnotateRealLabels | scripts/add_syl_tier.py:36-53 | Every yielded syllable label is non-empty and stripped. |
| SyllableTier.AddSyllableTier | scripts/add_syl_tier.py:117-119 | The syllable tier is the encoded annotation plus a final empty boundary at the last phone time; at an empty phone tier, `[-1]` raises (None). |
| SyllableTier.SyllableTierRoundTrip | scripts/add_syl_tier.py:118-119 | Decoding the syllable tier with "" ignored gives exactly the syllable segments. |
| PhraseTier.StartsBelowSorted | scripts/add_phr_tier.py:34-40 | Run starts are increasing and include every run start. |
| PhraseTier.RunEnd | scripts/add_phr_tier.py:35-36 | A run ends at the first silence (in `SIL_PHNS`) or at the end of the list. |
| PhraseTier.Phrases | scripts/add_phr_tier.py:31-43 | One phrase per run start. |
| PhraseTier.PhraseSegments | scripts/add_phr_tier.py:31-43 | The `in_phr` loop, including its pop and push, computes `Phrases`. |
| PhraseTier.StepSilent | scripts/add_phr_tier.py:35-36 | A silence segment leaves the phrases unchanged. |
| PhraseTier.StepOpen | scripts/add_phr_tier.py:38-40 | A non-silence segment after silence (or at the start) opens a phrase with its own start and end. |
| PhraseTier.StepExtend | scripts/add_phr_tier.py:41-43 | A non-silence segment after a non-silence one extends the last phrase to its end. |
| PhraseTier.SoFarComplete | scripts/add_phr_tier.py:34-43 | After the last segment, every run is closed. |
| PhraseTier.PhraseIsMaximalRun | scripts/add_phr_tier.py:34-43 | Phrase k spans a maximal run of non-silence segments, labelled "IP". |
| PhraseTier.RunsDisjoint | scripts/add_phr_tier.py:34-43 | Runs come in order and do not overlap. |
| PhraseTier.InSomeRun | scripts/add_phr_tier.py:34-43 | Every non-silence segment lies in some phrase's run. |
| PhraseTier.PhrasesCover | scripts/add_phr_tier.py:34-43 | A segment is covered by a phrase iff it is not silence, and then by exactly one. |
| PhraseTier.NoPhrases | scripts/add_phr_tier.py:34-43 | There is no phrase iff every segment is silence. |
| PhraseTier.PhraseCount | scripts/add_phr_tier.py:34-43 | There are never more phrases than non-silence segments. |
| PhraseTier.PhrasesChronological | scripts/add_phr_tier.py:34-43 | Phrases of chronological segments are chronological. |
| PhraseTier.DecodeChronological | scripts/add_syl_tier.py:21-32 | A tier with non-negative, non-decreasing times decodes to chronological segments. |
| PhraseTier.PhraseExample | scripts/add_phr_tier.py:31-43 | p, sp, t a, sil gives the phrases (0,1,IP) and (2,4,IP). |
| PhraseTier.PhraseTierOf | scripts/add_phr_tier.py:31-46 | Where it exists, the phrase tier is non-empty and ends at the phone tier's last time. |
| PhraseTier.AddPhraseTier | scripts/add_phr_tier.py:31-46 | The phrase tier is encoded and padded to the phone tier's last time; it is None where `phrtier[-1]` raises. |
| PhraseTier.PhraseTierSome | scripts/add_phr_tier.py:44-46 | The phrase tier exists iff there is a phrase; it then ends at the phone tier's last time. |
| PhraseTier.PhraseTierDefined | scripts/add_phr_tier.py:31-46 | The phrase tier exists iff some stripped phone label is outside `SIL_PHNS`. |
| PhraseTier.PhraseTierRoundTrip | scripts/add_phr_tier.py:44-46 | Decoding the phrase tier with "" ignored gives exactly the phrases. |
| ChunkWav.Trunc | scripts/chunkwav.py:25 | `int()` of a float truncates toward zero, for both signs. |
| ChunkWav.TruncMonotone | scripts/chunkwav.py:25 | Truncation preserves order. |
| ChunkWav.SampleMonotone | scripts/chunkwav.py:25 | At a non-negative rate, a later time gives a later or equal sample. |
| ChunkWav.LabelledBelow | scripts/chunkwav.py:23-24 | The labelled positions come in increasing order, and every labelled entry is included. |
| ChunkWav.ChunksBelow | scripts/chunkwav.py:21-26 | The chunks so far are one per labelled entry so far. |
| ChunkWav.ChunkName | scripts/chunkwav.py:25 | A chunk name starts with the prefix and "_", and ends with "_" and the label. |
| ChunkWav.Chunks | scripts/chunkwav.py:20-27 | There is one chunk per labelled entry. |
| ChunkWav.LabelSampleRanges | scripts/chunkwav.py:20-27 | The loop computes `Chunks`: name, start sample of the previous time, end sample of the own time, for each labelled entry. |
| ChunkWav.ChunkPerLabelledEntry | scripts/chunkwav.py:23-25 | Chunk k belongs to the k-th labelled entry; an entry gets a chunk iff its label is not `NONE_LABEL`. |
| ChunkWav.ChunkCount | scripts/chunkwav.py:23-25 | There are exactly as many chunks as labelled entries. |
| ChunkWav.ChunksOrdered | scripts/chunkwav.py:25-26 | With non-negative, non-decreasing times and rate, each chunk starts no later than it ends, and ends no later than any later chunk starts. |
| ChunkWav.ChunkNameFields | scripts/chunkwav.py:25 | For i < 10000, the name is prefix, "_", four digits denoting i, "_", label. |
| ChunkWav.ChunkNamesDistinct | scripts/chunkwav.py:25 | For at most 10000 entries, no two chunks share a name. |
| ChunkWav.BaseName | scripts/chunkwav.py:30-31 | The basename is a prefix of the name; when the name has a dot, the basename stops right before a dot. |
| ChunkWav.BaseNameNoDot | scripts/chunkwav.py:30-31 | A name without a dot has an empty basename. |
| ChunkWav.BaseNameDot | scripts/chunkwav.py:30-31 | A name with a dot is its basename, a dot and a dot-free extension. |
| ChunkWav.LastDotUnique | scripts/chunkwav.py:30-31 | Writing a name as stem, dot and dot-free extension is unique. |
| ChunkWav.BaseNameLastDot | scripts/chunkwav.py:30-31 | `basename` removes exactly the last dot and what follows it. |

## Left out

- Reading and writing TextGrids (`speechlabels`), the command line (`click`), the progress messages on stderr and the wave-file I/O of `chunkwav.py`'s `__main__` block are I/O. The configuration files are parameters.
- The warning `syllabify_textgrid` prints is returned as a value (`Warning`) instead of being written to stderr.
- `os.path.basename` (the directory part of a path) is not modelled; `BaseName` models only the `split(".")`/`join` part.
- Floating point: times are exact reals. `float()` and `str()` of a time are the identity, and `starttime*samplerate` is computed exactly before `int()` truncates it.
- `Syllabifier.Clusters`: the script splits the hyphen-joined string at every vowel match; the model splits the phone list at vowel phones. The two agree when phone labels are non-empty, contain no hyphen and no vowel label matches inside another phone's label. Vowel labels that are substrings of other labels, and the alternation order of `vwls_re`, are not modelled.
- `Syllabifier.CodaMatch`: the regular expression is modelled by its meaning on phone sequences (as above), not by a regex engine.
- The empty vowel set (which makes `vwls_re` the empty pattern) is not modelled.
- `cleansplit`'s `sep` parameter is fixed to "-", the only value the scripts pass.
- `segs_to_tier`'s `empty` parameter is fixed to `EMPTY_SEGMENT` (""), the default every caller uses.
- The per-file loops of the two `main`s (read a TextGrid, derive the tier, write the result) are not modelled, because each pass is I/O around the single-file computation the model covers.
- The bare `except:` of `syllabify_textgrid` is modelled as catching only the failed `cons_re` match, the one exception `syllabify` can raise on its inputs. `NoWarnings` shows that not even that one is reached, because the phone-set test comes first.
- An `IndexError` from `[-1]` on an empty phone tier (add_syl_tier.py line 119) or an empty phrase tier (add_phr_tier.py line 45) is modelled as `None`. Nothing catches it, so `None` stands for aborting the whole run: that file and every later input file are left unprocessed.
- `ChunkWav.ChunkNamesDistinct`: proved only for tiers of at most 10000 entries, where `zfill(4)` gives every index the same width.
