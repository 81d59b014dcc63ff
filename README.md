# ftfy byte-level core, modelled in Dafny

This project models the byte- and string-level core of ftfy ("fixes text for you") and proves properties of it. It covers seven parts of the code:

- **`cesu8.dfy`** (`Cesu8`): one chunk step of the Java "modified UTF-8" / CESU-8 incremental decoder, `JavaCESU8Decoder._buffer_decode` and its two helpers. The step finds the first `ED` or `C0` marker. It turns `C0 80` into U+0000 and a six-byte UTF-8-encoded surrogate pair into one supplementary character. Everything else goes to the standard UTF-8 step, which is a parameter. The surrogate arithmetic is checked against an independent reference: UTF-16 decoding (section 2.2 of RFC 2781) of the three-byte values that section 3 of RFC 3629 gives the two halves, plus the matching encoder.
- **`sloppy_windows.dfy`** (`SloppyWindows`): `make_sloppy_codec` and the `CODECS` loop. It builds the 256-entry table, where bytes the real code page leaves undefined decode to the same code point. `charmap_build`, `charmap_decode` and `charmap_encode` are stated concretely, and the round trip is proved.
- **`registry.dfy`** (`Registry`): `search_function` and its `_cache`. The cache is a class field that the method updates; the model proves that memoisation is invisible.
- **`autodecode.dfy`** (`Autodecode`): `try_multibyte_encoding`, `decode_level0` and `decode_level1`, the ordered list of `(text, encoding, weight)` candidates.
- **`build_classifier.dfy`** (`BuildClassifier`): `trigram_to_row` and `row_to_trigram`, which are inverse bijections. It also covers the counting part of `learn_matrix`: nested loops that increment an `array2` in place, specified by what the count is.
- **`mining.dfy`** (`Mining`): what the two mojibake miners share.
  - trigram extraction;
  - the two `defaultdict(float)` tables, as a class whose `map` fields its methods update;
  - the exclusion filter;
  - the selection, sort and cut of `find_mojibake`;
  - the grouping and pattern text of `write_detector`.
- **`mojibakery_script.dfy`** (`MojibakeryScript`) and **`mojibakery_package.dfy`** (`MojibakeryPackage`): each miner has its own constants, its own pair loops (one-way in `scripts/mojibakery.py`, two-way in `ftfy/mojibakery/find_mojibake.py`) and its own limit.

`wrappers.dfy` holds `Option`, the byte type and ASCII decoding. `ordering.dfy` holds Python's string order and the library sort, specified as the ordered permutation it returns.

Library codecs and helpers are function-valued parameters or datatype fields, so every property holds for any implementation of them. These include:

- the standard UTF-8 step, the real code pages and the UTF-8/UTF-16 decoders;
- `fix_java_encoding`, `normalize_encoding` and `str.encode`/`bytes.decode` by name;
- `str.upper`/`str.lower`, `chars_to_classes` and the NFD length;
- `simple_tokenize`, the word lists and the word frequencies.

Where a lemma needs one of these to behave like its standard, it says so in a named predicate:

- `Cesu8.StepBounded`, `Cesu8.FinalFlushes` and `Cesu8.IncompleteWaits` for the UTF-8 step;
- `Autodecode.Utf8DecodesAscii` and `Autodecode.Utf8RejectsSurrogates` for the UTF-8 decoder.

Behaviour of the code that is easy to misread:

- **Two candidates for ASCII input.** Once `fix_java_encoding` is bound (see Left out), ASCII input such as `hello` gets two candidates: 'ascii', then an identical 'utf-8' one (`Autodecode.AsciiInputHasTwoCandidates`).
- **The `'cesu-8'` candidate.** Once `fix_java_encoding` is bound, `decode_level1` computes `fixed` but then decodes the original bytes (ftfy/autodecode/__init__.py:33-35), so `fixed` only decides the label (see Findings).
- **A lone `C0` at the end of the stream.** The step returns `('', 0)` even on the final call. A short `ED` chunk on the final call goes to the standard step instead (ftfy/bad_codecs.py:56-58). See Findings.

Other behaviour of the code kept as written:

- **The codec name.** Every sloppy codec's `CodecInfo` is named `'cp1252'`, whatever its page (`SloppyWindows.IsSloppyCodecFor`).
- **Double counting in the package miner.** It tries each pair of two of the language's own encodings twice in each direction, so those pairs get twice the word's frequency. A pair with a common encoding gets it once (`MojibakeryPackage.OwnPairsCountTwice`).

## Model

| member | source | states |
|---|---|---|
| Wrappers.AsciiDecode | ftfy/autodecode/__init__.py:24-25 | strict ASCII decoding succeeds exactly when every byte is below 0x80, and then character i has the code point of byte i |
| Cesu8.Find | ftfy/bad_codecs.py:12-13 | `bytes.find` of one byte: -1 exactly when the byte is absent, otherwise the first index holding it |
| Cesu8.Cutoff | ftfy/bad_codecs.py:12-20 | the smaller of the two find results: -1 exactly when neither `ED` nor `C0` occurs, otherwise the position of the first byte that is either |
| Cesu8.PairCodePoint | ftfy/bad_codecs.py:64-70 | the reconstructed code point of a matched pair always lies in 0x10000..0x10FFFF |
| Cesu8.BufferDecode | ftfy/bad_codecs.py:10-73 | each branch of the step: no marker hands the whole chunk to the standard step with the caller's `final`; a marker at cutoff > 0 decodes only `input[:cutoff]`, not final, consuming no more than cutoff; `C0 80` is U+0000, two bytes; a lone `C0` gives ('', 0) whatever `final` is; `C0` plus another byte hands the single byte `C0` to the standard step as final; a short `ED` chunk waits, or is flushed when final; a pair is one supplementary character, six bytes; a longer `ED` chunk that is no pair hands three bytes on, not final; never more consumed than given |
| Cesu8.ThreeBytes | ftfy/bad_codecs.py:51 | the three-byte UTF-8 form of a 16-bit value, whose decoded value is that value (reference encoder) |
| Cesu8.EncodePair | ftfy/bad_codecs.py:51 | the CESU-8 form of a supplementary character is six bytes (reference encoder; what it means is stated by `DecodeEncodePair` and `EncodeDecodePair`) |
| Cesu8.PairCodePointIsUtf16 | ftfy/bad_codecs.py:62-71 | the matched halves are a high and a low surrogate, and the bit formula equals RFC 2781 UTF-16 decoding of them |
| Cesu8.HighSurrogateBytes | ftfy/bad_codecs.py:6 | the UTF-8 bytes of every high surrogate have the shape `ED [A0-AF] [80-BF]` the pattern accepts |
| Cesu8.LowSurrogateBytes | ftfy/bad_codecs.py:6 | the UTF-8 bytes of every low surrogate have the shape `ED [B0-BF] [80-BF]` the pattern accepts |
| Cesu8.PairFields | ftfy/bad_codecs.py:64-70 | the code point of a pair is its four fields, ten bits per surrogate, plus 0x10000 |
| Cesu8.DecodeEncodePair | ftfy/bad_codecs.py:62-71 | every supplementary character's CESU-8 form matches the pattern and decodes back to that character |
| Cesu8.EncodeDecodePair | ftfy/bad_codecs.py:62-71 | every six bytes accepted as a pair are exactly the encoding of the character produced, so the pattern and the supplementary planes correspond one to one |
| Cesu8.DecodesEncodedPair | ftfy/bad_codecs.py:23-71 | a chunk that starts with the CESU-8 form of any supplementary character yields that character and consumes exactly six bytes, whatever follows and whatever `final` is |
| Cesu8.SupplementaryEnds | ftfy/bad_codecs.py:62-71 | `ED A0 80 ED B0 80` decodes to U+10000 and `ED AF BF ED BF BF` to U+10FFFF, six bytes each |
| Cesu8.LoneC0AtFinalIsKept | ftfy/bad_codecs.py:33-35 | as written, a final call on the single byte `C0` consumes nothing and produces nothing |
| Cesu8.CutPrefixAtFinalIsKept | ftfy/bad_codecs.py:27-29 | as written, a final call on `E2 82 C0 80` consumes nothing when the standard step waits on an incomplete `E2 82` not marked final |
| Cesu8.BufferDecodeCorrected | ftfy/bad_codecs.py:10-39 | the corrected step never reports more consumed than given |
| Cesu8.CorrectedFinalCallProgresses | ftfy/bad_codecs.py:23-39 | with a standard step that flushes at the end of the stream, a final corrected call on a non-empty chunk consumes at least one byte or raises |
| Cesu8.CorrectedAgreesWhenNotFinal | ftfy/bad_codecs.py:10-39 | on a non-final chunk that has no marker or starts with one, the corrected step behaves exactly like the original |
| SloppyWindows.BuildDecodingTable | ftfy/bad_codecs/sloppy_windows.py:7-13 | the table has 256 entries; entry b is the page's character where the page defines byte b, and the character with code point b where the page gives U+FFFD |
| SloppyWindows.CharmapBuild | ftfy/bad_codecs/sloppy_windows.py:14 | the encoding map holds exactly the table's characters other than U+FFFE, each mapped to a byte holding it, the last such byte when it occurs twice |
| SloppyWindows.CharmapDecode | ftfy/bad_codecs/sloppy_windows.py:20-21 | decoding succeeds exactly when no byte maps to U+FFFE; then the text has the input's length and character i is the table entry of byte i |
| SloppyWindows.CharmapEncode | ftfy/bad_codecs/sloppy_windows.py:17-18 | encoding succeeds exactly when every character is in the map; then byte i is the map's value for character i |
| SloppyWindows.MakeSloppyCodec | ftfy/bad_codecs/sloppy_windows.py:6-45 | the codec is named 'cp1252', decodes through the sloppy table of the page and encodes through `charmap_build` of that table |
| SloppyWindows.DecodeIsTotal | ftfy/bad_codecs/sloppy_windows.py:20-21 | through a table without U+FFFE, decoding never fails and preserves length |
| SloppyWindows.SloppyTableHasNoUnmapped | ftfy/bad_codecs/sloppy_windows.py:7-13 | a sloppy table holds U+FFFE only where the real page produces it |
| SloppyWindows.SloppyTableInjective | ftfy/bad_codecs/sloppy_windows.py:7-13 | a sloppy table is one-to-one when the page is one-to-one on its defined bytes and never yields the Latin-1 character of an undefined byte |
| SloppyWindows.EncodingMapInverts | ftfy/bad_codecs/sloppy_windows.py:14 | for a one-to-one table the encoding map sends every entry back to its own byte |
| SloppyWindows.EncodeAfterDecode | ftfy/bad_codecs/sloppy_windows.py:14-21 | for a one-to-one table without U+FFFE, `encode(decode(b)) == b` for every byte string |
| SloppyWindows.DecodeAfterEncode | ftfy/bad_codecs/sloppy_windows.py:14-21 | `decode(encode(t)) == t` for every text the codec can encode, whatever the table, with the encoding map built as `charmap_build` builds it for a table that starts with U+0000, has no other U+0000 and stays in the Basic Multilingual Plane, as every windows-125x table does |
| SloppyWindows.SloppyCodecRoundTrip | ftfy/bad_codecs/sloppy_windows.py:6-45 | a built codec decodes every byte string, keeps its length, agrees with the real page on every byte the page defines, and its encoder undoes its decoder |
| SloppyWindows.FourDigits | ftfy/bad_codecs/sloppy_windows.py:49-50 | `'%s' % n` of a four-digit number is four decimal digits |
| SloppyWindows.CodePageDigits | ftfy/bad_codecs/sloppy_windows.py:48-50 | the decimal form of 1250..1258 is `125` followed by the last digit |
| SloppyWindows.SloppyName | ftfy/bad_codecs/sloppy_windows.py:50 | the registry key of code page n is `sloppy125` and the digit n - 1250 |
| SloppyWindows.WindowsName | ftfy/bad_codecs/sloppy_windows.py:49 | the page name of code page n is `windows-125` and the digit n - 1250 |
| SloppyWindows.BuildCodecs | ftfy/bad_codecs/sloppy_windows.py:47-50 | the registry's keys are exactly `sloppy<n>` for n in 1250..1258, each the sloppy codec of the page `windows-<n>` |
| SloppyWindows.SloppyNamesDistinct | ftfy/bad_codecs/sloppy_windows.py:48-50 | different code pages get different keys, so no entry overwrites another |
| SloppyWindows.CodecNames | ftfy/bad_codecs/sloppy_windows.py:47-50 | the keys are exactly sloppy1250 .. sloppy1258 |
| Registry.RemoveUnderscores | ftfy/bad_codecs/__init__.py:11 | `replace('_', '')` leaves no underscore and keeps every other character's count |
| Registry.Search | ftfy/bad_codecs/__init__.py:7-20 | a hit returns the cached codec and leaves the cache alone; a miss succeeds exactly for the three variant spellings and returns the variants codec; a success is stored under the requested name; a failure is stored nowhere |
| Registry.SearchIsResolve | ftfy/bad_codecs/__init__.py:7-20 | on a cache holding only correct resolutions, a lookup returns what resolution without the cache gives, the cache stays correct, and it maps only to the one codec |
| Registry.SearchIdempotent | ftfy/bad_codecs/__init__.py:7-20 | asking twice for the same name gives the same answer, and the second call changes nothing |
| Registry.CodecRegistry.constructor | ftfy/bad_codecs/__init__.py:4 | the cache starts empty, which is trivially correct |
| Registry.CodecRegistry.SearchFunction | ftfy/bad_codecs/__init__.py:7-20 | the result and the new cache are those of `Search` on the old cache, the result equals fresh resolution, and the cache stays correct |
| Autodecode.TryMultibyteEncoding | ftfy/autodecode/__init__.py:16-21 | one candidate `(decoded, encoding, weight)` exactly when decoding succeeds, none otherwise |
| Autodecode.DecodeLevel0 | ftfy/autodecode/__init__.py:24-25 | at most one candidate, present exactly for ASCII input, labelled 'ascii', weight 1.0, and reproducing the bytes |
| Autodecode.DecodeLevel1 | ftfy/autodecode/__init__.py:28-41 | starts with the level-0 result and has at most two candidates, all of weight 1.0; with a byte-order mark, a 'utf-16' reading follows exactly when UTF-16 decoding succeeds, and nothing else; without one, exactly one reading follows when UTF-8 decoding of the bytes succeeds and none otherwise, labelled 'cesu-8' when the Java fix changes the bytes and 'utf-8' otherwise, and its text is the UTF-8 reading of the bytes as given |
| Autodecode.AsciiInputHasTwoCandidates | ftfy/autodecode/__init__.py:28-41 | ASCII input gives exactly the 'ascii' and an identical 'utf-8' candidate |
| Autodecode.BomInputIsUtf16Only | ftfy/autodecode/__init__.py:30-31 | input with a byte-order mark gets only the UTF-16 candidate, if any |
| Autodecode.SurrogatePairInputHasNoCandidate | ftfy/autodecode/__init__.py:33-38 | as written, with a UTF-8 decoder that rejects surrogates, input holding a CESU-8 pair never gets a 'cesu-8' candidate, and without a byte-order mark it gets none at all |
| Autodecode.DecodeLevel1Corrected | ftfy/autodecode/__init__.py:28-41 | the corrected cascade keeps the tier structure: the level-0 result first, at most two candidates, weight 1.0 |
| Autodecode.CorrectedSurrogatePairInput | ftfy/autodecode/__init__.py:33-38 | corrected, input holding a pair whose rewritten bytes decode gets exactly one candidate, 'cesu-8', with the text of the rewritten bytes |
| Autodecode.CorrectedAgreesOutsideCesu8 | ftfy/autodecode/__init__.py:28-41 | the correction changes nothing when there is a byte-order mark or the fix leaves the bytes unchanged |
| BuildClassifier.TrigramToRow | ftfy/autodecode/build_classifier.py:13-18 | the row lies in -0x8000..2^23-1, is non-negative when the middle byte has the high bit set, and its low byte is the third byte |
| BuildClassifier.RowToTrigram | ftfy/autodecode/build_classifier.py:20-24 | unpacking succeeds exactly for rows in 0..2^23-1 and gives three bytes whose middle byte is at least 0x80 |
| BuildClassifier.RowOfTrigramRoundTrip | ftfy/autodecode/build_classifier.py:13-24 | every window with a high-bit middle byte packs to a matrix row, and `row_to_trigram(trigram_to_row(t)) == t` |
| BuildClassifier.TrigramOfRowRoundTrip | ftfy/autodecode/build_classifier.py:13-24 | `trigram_to_row(row_to_trigram(r)) == r` for every row of the matrix |
| BuildClassifier.LineCountIsCentres | ftfy/autodecode/build_classifier.py:40-45 | an encoded line adds to a row exactly the number of its positions that are centres of that row |
| BuildClassifier.CentresBelowIsCentres | ftfy/autodecode/build_classifier.py:40-45 | the running count below k is the number of centres below k |
| BuildClassifier.EndsAreNeverCentres | ftfy/autodecode/build_classifier.py:40 | the first and the last byte are never centres, and a line shorter than three bytes adds nothing |
| BuildClassifier.CorpusCountAppend | ftfy/autodecode/build_classifier.py:30-47 | the count of two runs of lines is the sum of their counts, so shards can be summed |
| BuildClassifier.SkippedLinesAddNothing | ftfy/autodecode/build_classifier.py:34-47 | ASCII-only lines and lines the encoding cannot represent add nothing to its column |
| BuildClassifier.CentreStep | ftfy/autodecode/build_classifier.py:40-45 | position pos adds one to the row of its window exactly when its byte has the high bit set |
| BuildClassifier.LoopEndCount | ftfy/autodecode/build_classifier.py:40 | where the position loop stops, no candidate centre is left |
| BuildClassifier.AddEncodedLine | ftfy/autodecode/build_classifier.py:40-45 | the column gains, in each row, the line's count for that row; other columns are unchanged |
| BuildClassifier.AddLine | ftfy/autodecode/build_classifier.py:34-47 | every column gains the line's contribution under its own encoding: nothing for an ASCII-only line or one that raises UnicodeEncodeError |
| BuildClassifier.LearnMatrix | ftfy/autodecode/build_classifier.py:27-47 | a fresh 2^23 by N matrix whose every cell is one plus the number of times its row occurs as a centred window of the corpus under its encoding |
| Ordering.StrLessIrreflexive | scripts/mojibakery.py:143 | no string is below itself |
| Ordering.StrLessTransitive | scripts/mojibakery.py:143 | Python's string order is transitive |
| Ordering.StrLessTotal | scripts/mojibakery.py:143 | of two different strings one is below the other |
| Ordering.StrLessIsStrictTotalOrder | scripts/mojibakery.py:143 | Python's string order is a strict total order |
| Ordering.Insert | scripts/mojibakery.py:124 | insertion adds exactly the one element |
| Ordering.InsertSorted | scripts/mojibakery.py:124 | inserting into an ordered sequence keeps it ordered |
| Ordering.Sort | scripts/mojibakery.py:124 | the library sort returns a permutation of its input, ordered under a strict total order |
| Ordering.SortedUnique | scripts/mojibakery.py:124 | under a strict total order there is only one ordered arrangement of a multiset |
| Ordering.HeadIsLeast | scripts/mojibakery.py:124 | nothing in an ordered sequence is below its first element |
| Ordering.SameTails | scripts/mojibakery.py:124 | equal multisets with equal heads have equal tails |
| Ordering.SortIgnoresOrder | scripts/mojibakery.py:124 | the sorted result depends only on the multiset of the input, so not on dict iteration order |
| Ordering.Join | scripts/mojibakery.py:121 | joining no parts gives the empty string, one part gives that part |
| Ordering.JoinLength | scripts/mojibakery.py:121-122 | the joined text is the parts' total length plus one separator between each two parts |
| Mining.GetTrigrams | scripts/mojibakery.py:59-62 | `max(0, len - 2)` windows; window i is `text[i:i+3]` |
| Mining.Pad | scripts/mojibakery.py:69 | `' %s ' % word` is the word between two spaces |
| Mining.Weighted | scripts/mojibakery.py:70-71 | one weighted entry per key |
| Mining.WeightedAt | scripts/mojibakery.py:70-71 | entry i is key i with the common weight |
| Mining.WeightedSnoc | scripts/mojibakery.py:70-71 | one more key is one more `+=` |
| Mining.AccumulateGet | scripts/mojibakery.py:86-87 | after the `+=` loop each key holds its old value (0.0 when missing) plus all the weight given to it |
| Mining.AccumulateKeys | scripts/mojibakery.py:86-87 | the keys afterwards are those before plus every key that received a weight |
| Mining.AccumulateAppend | scripts/mojibakery.py:65-82 | accumulating two runs is accumulating the first and then the second |
| Mining.TotalAppend | scripts/mojibakery.py:68 | a key's weight is additive over runs |
| Mining.AccumulateSwap | scripts/mojibakery.py:68-71 | two runs of `+=` accumulated in either order give the same table, so the iteration order of `set([baseword, baseword.upper()])` does not change the tables |
| Mining.TimesIsProduct | scripts/mojibakery.py:71 | adding up n copies of a frequency is multiplying it by n |
| Mining.TotalWeighted | scripts/mojibakery.py:70-71 | a key listed n times with weight f receives n times f |
| Mining.Variants | scripts/mojibakery.py:68 | the words of `set([baseword, baseword.upper()])`, once each |
| Mining.Keyed | scripts/mojibakery.py:79-80 | each trigram labelled `(trigram, enc2, enc1)` |
| Mining.BakeEntriesMembers | scripts/mojibakery.py:76-82 | a `try` block adds entries only when both steps succeed and change the word, each a trigram of the result under exactly its own pair, with the word's frequency |
| Mining.BakedWeight | scripts/mojibakery.py:76-82 | a `try` block gives a key the word's frequency once per occurrence of the trigram in the mojibake, under its own pair only, and nothing when a step raises or the word is unchanged |
| Mining.KeyedCount | scripts/mojibakery.py:79-80 | labelling keeps each trigram's multiplicity |
| Mining.TotalAbsent | scripts/mojibakery.py:71 | a key that no entry carries receives nothing |
| Mining.VariantOccurrences | scripts/mojibakery.py:66-68 | one pass per word of the variant set, each with the base word's frequency |
| Mining.VariantOccurrencesMembers | scripts/mojibakery.py:67-68 | the passes of a base word are its two forms, weighted by the base word's frequency |
| Mining.Occurrences | scripts/mojibakery.py:66-68 | every pass of a language's loop carries that language |
| Mining.OccurrencesMembers | scripts/mojibakery.py:66-71 | every pass is a base word or its upper-case form with the base word's frequency, and both forms of every base word get a pass |
| Mining.AllOccurrences | scripts/mojibakery.py:88-90 | every pass of the build belongs to a listed language |
| Mining.NormalOfMembers | scripts/mojibakery.py:68-71 | every `normal_freqs` entry is a trigram of a padded word with that word's frequency, and every such trigram has an entry |
| Mining.NormalOfAppend | scripts/mojibakery.py:66-71 | the entries of consecutive runs of passes are consecutive |
| Mining.NormalEntriesMembers | scripts/mojibakery.py:69-71 | one word's entries are its padded trigrams with its frequency |
| Mining.NormalKeys | scripts/mojibakery.py:68-71 | `normal_freqs` holds exactly its old keys and the trigrams of the padded words |
| Mining.NormalWeight | scripts/mojibakery.py:69-71 | a word adds its frequency to a trigram once per occurrence in the padded word |
| Mining.LastNotInPrefix | scripts/mojibakery.py:73-74 | the last encoding of a list without repeats does not occur before it |
| Mining.FreqTables.constructor | scripts/mojibakery.py:86-87 | two empty tables |
| Mining.FreqTables.AddNormal | scripts/mojibakery.py:70-71 | `normal_freqs` becomes the old table with each trigram's `+= freq`; `baked_freqs` is unchanged |
| Mining.FreqTables.AddBaked | scripts/mojibakery.py:79-80 | `baked_freqs` becomes the old table with `+= freq` on each `(trigram, enc2, enc1)`; `normal_freqs` is unchanged |
| Mining.FreqTables.TryBake | scripts/mojibakery.py:76-82 | `baked_freqs` gains exactly that `try` block's entries; `normal_freqs` is unchanged |
| Mining.ExcludeTrigramWith | scripts/mojibakery.py:100-114 | excluded exactly when the three characters are equal, or one is suspicious, or the class shape is a natural spelling with at most 5 code points after NFD |
| Mining.Truncate | scripts/mojibakery.py:123 | Python's `int` truncates toward zero |
| Mining.ScoreMonotone | scripts/mojibakery.py:123 | a higher frequency never gets a lower score |
| Mining.GreaterIsStrictTotalOrder | scripts/mojibakery.py:124 | tuple order on items, and its reverse, are strict total orders |
| Mining.ItemOf | scripts/mojibakery.py:123 | the item keeps the trigram and puts `decodedAs` second and `encodedAs` third |
| Mining.CandidatesMembers | scripts/mojibakery.py:118-123 | the collected items are exactly the items of the keys whose trigram survives the filter |
| Mining.CandidatesAppend | scripts/mojibakery.py:118-123 | the items of two runs of keys are those of the first run, then those of the second |
| Mining.CandidatesRemoveAt | scripts/mojibakery.py:118-123 | taking one key out of the iteration order takes exactly that key's item out of the collected items |
| Mining.CandidatesIgnoreKeyOrder | scripts/mojibakery.py:118-123 | two iteration orders of the same keys collect the same multiset of items |
| Mining.TopIgnoresKeyOrder | scripts/mojibakery.py:117-125 | two iteration orders of the same keys give the same ranked, cut result |
| Mining.FindMojibakeWith | scripts/mojibakery.py:117-125 | the result is the top `limit` of the candidates in descending order; only surviving trigrams are kept, each scored from its own key |
| Mining.Top | scripts/mojibakery.py:124-125 | at most `limit` items, descending, drawn from the input, and no left-out item is greater than a kept one |
| Mining.SortedDescending | scripts/mojibakery.py:124 | `sort(reverse=True)` orders items descending |
| Mining.SameElements | scripts/mojibakery.py:124 | a permutation has the same length and elements |
| Mining.TopOfSorted | scripts/mojibakery.py:125 | a prefix of an ordered sequence is ordered, part of it, and nothing left out comes before anything kept |
| Mining.PairsFor | scripts/mojibakery.py:140-142 | a trigram's list is no longer than the items |
| Mining.PairsForMembers | scripts/mojibakery.py:140-142 | a pair is in a trigram's list exactly when some item has that trigram and that pair |
| Mining.GroupFound | scripts/mojibakery.py:140-142 | the keys are exactly the items' trigrams, each mapped to the non-empty list of its items' pairs in result order, and the insertion order lists each key once |
| Mining.GroupStep | scripts/mojibakery.py:141-142 | the grouping of the first n items extends to n + 1 by the loop's update |
| Mining.GroupAppend | scripts/mojibakery.py:141-142 | one more item's pair is appended to its trigram's list, a new list when the trigram is new |
| Mining.GroupKeysStep | scripts/mojibakery.py:141-142 | one more item adds its own trigram to the keys |
| Mining.GroupPairsStep | scripts/mojibakery.py:141-142 | the updated lists are those of the extended items |
| Mining.GroupOrderStep | scripts/mojibakery.py:141-142 | a new key is listed once and an old key keeps its place |
| Mining.RegexText | scripts/mojibakery.py:143 | the sorted keys are the same keys in strictly ascending order, and the text is them joined by `|` |
| Mining.WriteDetector | scripts/mojibakery.py:140-143 | the lookup table groups the pairs by trigram, and the pattern text is its keys in ascending order joined by `|` (the same as lines 116-119 of ftfy/mojibakery/find_mojibake.py) |
| Mining.PairsForEmpty | scripts/mojibakery.py:140-142 | a trigram that no item has gets no pairs |
| Mining.DistinctAfterSort | scripts/mojibakery.py:143 | sorting distinct keys keeps them distinct |
| Mining.AtMostOnce | scripts/mojibakery.py:143 | a value occurs at most once in a sequence without repeats |
| MojibakeryScript.LanguagesListed | scripts/mojibakery.py:88 | the loop visits exactly the languages of `LANGUAGE_ENCODINGS` |
| MojibakeryScript.EncodingsDistinct | scripts/mojibakery.py:73-74 | no language's encoding list repeats an encoding |
| MojibakeryScript.ExcludeTrigram | scripts/mojibakery.py:100-114 | three equal characters, or any character of line 104, exclude a trigram |
| MojibakeryScript.RowEntriesMembers | scripts/mojibakery.py:74-80 | every entry of a row is for `enc1` and a tried partner, produced by the word |
| MojibakeryScript.PairEntriesMembers | scripts/mojibakery.py:73-80 | only ordered pairs of different encodings, not both common, produce entries, each from the word |
| MojibakeryScript.RowTotal | scripts/mojibakery.py:74-82 | in a row a key receives what its own pair gives, if that pair is tried there |
| MojibakeryScript.PairTotal | scripts/mojibakery.py:73-82 | over both loops a key receives its own pair's weight once, if the pair is tried |
| MojibakeryScript.WordBakedWeight | scripts/mojibakery.py:73-82 | a word gives `(trigram, enc2, enc1)` its frequency once per occurrence in `word.encode(enc1).decode(enc2)` when the pair is tried, both steps succeed and the word changes; a raising pair adds nothing |
| MojibakeryScript.BakedOfMembers | scripts/mojibakery.py:65-82 | every entry is for a tried pair of a pass's language, produced by that pass's word |
| MojibakeryScript.BakedKeys | scripts/mojibakery.py:65-91 | every key of the built `baked_freqs` is a tried pair under which some word transcodes, without raising, into a different text holding the trigram |
| MojibakeryScript.AddPairs | scripts/mojibakery.py:73-82 | `baked_freqs` gains exactly the entries of the two pair loops; `normal_freqs` is unchanged |
| MojibakeryScript.AddRow | scripts/mojibakery.py:74-82 | `baked_freqs` gains exactly the entries of the inner loop; `normal_freqs` is unchanged |
| MojibakeryScript.AddWord | scripts/mojibakery.py:69-82 | `normal_freqs` gains the padded word's trigrams and `baked_freqs` its pair entries |
| MojibakeryScript.AddLanguageTrigrams | scripts/mojibakery.py:65-82 | both tables gain exactly the entries of the language's passes, in order |
| MojibakeryScript.AddBaseword | scripts/mojibakery.py:68-82 | both tables gain the entries of the base word's variants |
| MojibakeryScript.VariantStep | scripts/mojibakery.py:68-82 | one more variant's entries come after the earlier variants' |
| MojibakeryScript.BuildTrigrams | scripts/mojibakery.py:85-91 | fresh tables holding exactly the entries of every pass of every language |
| MojibakeryScript.AddLanguages | scripts/mojibakery.py:88-90 | the tables gain the languages' entries, language by language |
| MojibakeryScript.BasewordStep | scripts/mojibakery.py:66-82 | one more base word's entries come after the earlier base words' |
| MojibakeryScript.LanguageStep | scripts/mojibakery.py:88-90 | one more language's entries come after the earlier languages' |
| MojibakeryScript.AccumulateRuns | scripts/mojibakery.py:65-91 | two runs of passes fill both tables as the first and then the second |
| MojibakeryScript.BakedOfAppend | scripts/mojibakery.py:65-82 | the pair entries of consecutive runs of passes are consecutive |
| MojibakeryScript.FindMojibake | scripts/mojibakery.py:117-125 | at most 25000 items in descending order; no kept trigram is in `normal_freqs` as-is or lower-cased, or is excluded; each item is scored from its own key |
| MojibakeryPackage.LanguagesListed | ftfy/mojibakery/find_mojibake.py:68 | the loop visits exactly the languages of `LANGUAGE_ENCODINGS` |
| MojibakeryPackage.EncodingsDistinct | ftfy/mojibakery/find_mojibake.py:46-47 | neither loop's range repeats an encoding |
| MojibakeryPackage.ExcludeTrigram | ftfy/mojibakery/find_mojibake.py:80-94 | three equal characters, or any character of line 84, exclude a trigram |
| MojibakeryPackage.RowEntriesMembers | ftfy/mojibakery/find_mojibake.py:47-62 | every entry of a row pairs `enc1` with a different encoding of the inner range, in either direction, produced by the word |
| MojibakeryPackage.PairEntriesMembers | ftfy/mojibakery/find_mojibake.py:46-62 | every entry is for two different encodings, one of the language's own, in either direction, produced by the word |
| MojibakeryPackage.BothWaysTotal | ftfy/mojibakery/find_mojibake.py:49-62 | the two `try` blocks give a key its pair's weight for each of the two directions that is its own |
| MojibakeryPackage.RowTotal | ftfy/mojibakery/find_mojibake.py:47-62 | in a row a key receives its pair's weight once per direction in which the row tries it |
| MojibakeryPackage.PairTotal | ftfy/mojibakery/find_mojibake.py:46-62 | over both loops a key receives its pair's weight once per way the loops try it |
| MojibakeryPackage.WordBakedWeight | ftfy/mojibakery/find_mojibake.py:46-62 | a word gives a key its frequency per occurrence of the trigram in that direction's mojibake, once for each way the loops reach the pair; a direction that raises or leaves the word unchanged adds nothing |
| MojibakeryPackage.OwnPairsCountTwice | ftfy/mojibakery/find_mojibake.py:46-62 | a pair of two own encodings gets twice its weight, a pair with a common encoding once |
| MojibakeryPackage.CommonAndOwnDisjoint | ftfy/mojibakery/find_mojibake.py:13-29 | no language lists a common encoding among its own |
| MojibakeryPackage.BakedOfMembers | ftfy/mojibakery/find_mojibake.py:38-62 | every entry is for a pair the loops try for a pass's language, produced by that pass's word |
| MojibakeryPackage.BakedKeys | ftfy/mojibakery/find_mojibake.py:38-71 | every key of the built `baked_freqs` pairs two different encodings, one the language's own, under which some word transcodes, without raising, into a different text holding the trigram |
| MojibakeryPackage.AddPairs | ftfy/mojibakery/find_mojibake.py:46-62 | `baked_freqs` gains exactly the entries of the two-way pair loops; `normal_freqs` is unchanged |
| MojibakeryPackage.AddRow | ftfy/mojibakery/find_mojibake.py:47-62 | `baked_freqs` gains exactly both directions of each pair of the inner loop; `normal_freqs` is unchanged |
| MojibakeryPackage.AddWord | ftfy/mojibakery/find_mojibake.py:42-62 | `normal_freqs` gains the padded word's trigrams and `baked_freqs` its pair entries |
| MojibakeryPackage.AddLanguageTrigrams | ftfy/mojibakery/find_mojibake.py:38-62 | both tables gain exactly the entries of the language's passes, in order |
| MojibakeryPackage.AddBaseword | ftfy/mojibakery/find_mojibake.py:41-62 | both tables gain the entries of the base word's variants |
| MojibakeryPackage.VariantStep | ftfy/mojibakery/find_mojibake.py:41-62 | one more variant's entries come after the earlier variants' |
| MojibakeryPackage.BuildTrigrams | ftfy/mojibakery/find_mojibake.py:65-71 | fresh tables holding exactly the entries of every pass of every language |
| MojibakeryPackage.AddLanguages | ftfy/mojibakery/find_mojibake.py:68-70 | the tables gain the languages' entries, language by language |
| MojibakeryPackage.BasewordStep | ftfy/mojibakery/find_mojibake.py:39-62 | one more base word's entries come after the earlier base words' |
| MojibakeryPackage.LanguageStep | ftfy/mojibakery/find_mojibake.py:68-70 | one more language's entries come after the earlier languages' |
| MojibakeryPackage.AccumulateRuns | ftfy/mojibakery/find_mojibake.py:38-71 | two runs of passes fill both tables as the first and then the second |
| MojibakeryPackage.BakedOfAppend | ftfy/mojibakery/find_mojibake.py:38-62 | the pair entries of consecutive runs of passes are consecutive |
| MojibakeryPackage.FindMojibake | ftfy/mojibakery/find_mojibake.py:97-105 | at most 20000 items in descending order; no kept trigram is in `normal_freqs` as-is or lower-cased, or is excluded; each item is scored from its own key |

## Left out

- The incremental decoder around the chunk step is not part of this model: the buffering that `UTF8IncrementalDecoder` inherits, and so the streaming-equivalence property of a feed loop. The model covers one step and what it reports consumed.
- The standard UTF-8 step, the real code pages, and the UTF-8 and UTF-16 codecs are parameters. So are `fix_java_encoding`, `normalize_encoding`, `utf8_variants.CODEC_INFO`, `str.encode`/`bytes.decode` by name, `str.upper`/`str.lower`, `chars_to_classes`, `unicodedata.normalize`, `wordfreq.simple_tokenize`, `wordfreq.iter_wordlist` and `wordfreq.word_frequency`. They are library code that is not part of this model; `fix_java_encoding` is not even bound in the module that calls it (see the `Autodecode.DecodeLevel1` line below).
- Autodecode.DecodeLevel1: the module neither imports nor defines `fix_java_encoding` (ftfy/autodecode/__init__.py:13 imports only `possible_encoding`), so as shown line 33 raises `NameError` on every input without a byte-order mark. The model supplies the function as a total parameter, the `fixJavaEncoding` field of `Autodecode.Codecs`, as if it were imported; every statement about that branch, and Findings row 3, holds once the name is bound.
- `codecs.register(search_function)` (ftfy/bad_codecs/__init__.py:23): it hands the function to the interpreter's global registry.
- The miners assume that every listed encoding name resolves. `Transcoder` returns None only for a `UnicodeError`, which the `try` blocks catch (scripts/mojibakery.py:82; ftfy/mojibakery/find_mojibake.py:54, 61). A name that does not resolve raises `LookupError`, which is not caught and aborts `build_trigrams`; that failure is not modelled. Nothing in the code shown here registers the 'sloppy-windows-125x' names that both miners list: `search_function` answers only the UTF-8 variant names, and `CODECS` is keyed 'sloppy1250'..'sloppy1258' and is never registered.
- String encoding errors are modelled under the strict policy only, because every call in the core uses it. Other `errors=` policies of `charmap_encode`/`charmap_decode` are not modelled.
- The `CodecInfo`'s incremental and stream classes: they share the same two tables and lookups, so the model gives only `Decode` and `Encode`.
- File and console I/O: `codecs.open` and the line loop's `print` progress counter (build_classifier.py:30-33); `np.save` (lines 52-54); `print(language)` in both miners; writing `_heuristic.py` / `tricky_mojibake.py` and `pprint.pformat` in `write_detector`.
- The `sys.hexversion` / `do_it_anyway` check (scripts/mojibakery.py:136-139): it depends on the interpreter and an undefined global.
- The module-level runs of `build_trigrams()` and the `__main__` blocks.
- The normalisation of the matrix (build_classifier.py:49-50) is not modelled. `N` is the length of the encoder list.
- BuildClassifier.LearnMatrix: cells are unbounded integers, but the source allocates float32 cells (build_classifier.py:28). `matrix[row, i] += 1` (line 45) is exact only below 2^24 = 16,777,216; at that value adding 1 gives 16,777,216 again and the cell stops counting. "1 plus the corpus count" matches the source only while every count stays below 2^24 - 1. The saturation is not modelled.
- Word frequencies are exact reals rather than IEEE doubles, so `int(freq * 1e6)` is truncation of an exact product.
- Dict and set iteration order is not modelled. It enters as parameters: the key order of `baked_freqs.items()` is `keys`, and the order of `set([baseword, baseword.upper()])` is fixed as base word first. `Mining.AccumulateSwap` shows that the order of the variant set does not change the tables. `Mining.TopIgnoresKeyOrder` shows that the key order does not change what `find_mojibake` returns.
- Python 2/3 details: `nextchar == ''` and `sup('\xc0', ...)` (ftfy/bad_codecs.py:34, 39) are read by their byte-level intent ("no next byte", "the single byte C0").
- MojibakeryScript.WordBaked: gives no entries for a language without an entry, where the source would raise KeyError; the loops only visit listed languages (`LanguagesListed`).
- MojibakeryPackage.WordBaked: the same, for the package miner.
- Cesu8.CorrectedFinalCallProgresses: does not cover an `ED` chunk of six or more bytes that is not a pair. That branch hands three bytes to the standard step with `final=False`, unchanged from the source, so progress there depends on how the standard step treats an incomplete sequence.
- Cesu8.CorrectedAgreesWhenNotFinal: only claims agreement for chunks with no marker or a marker at the start. The correction changes the flag passed for the prefix before a marker on every call.
- Mining.Top: states Python's sort as the ordered permutation it returns, not its algorithm; under a strict total order the two are the same.

## Findings

| source | as written | input that shows it | evidently intended | confidence | as-written member | corrected member |
|---|---|---|---|---|---|---|
| ftfy/bad_codecs.py:34-35 | a chunk that is the single byte `C0` returns `('', 0)` even on the final call, so the byte is never decoded and no error is reported | the chunk `C0` with `final=True` | at the end of the stream the lone `C0` goes to the standard step, as a short `ED` chunk does (lines 56-58) | not executed; high | Cesu8.LoneC0AtFinalIsKept | Cesu8.BufferDecodeCorrected (Cesu8.CorrectedFinalCallProgresses) |
| ftfy/bad_codecs.py:29 | the bytes before the first marker are always decoded with `final=False`, so an incomplete UTF-8 sequence cut off by a marker waits even on the final call, and the call consumes nothing | the chunk `E2 82 C0 80` with `final=True` | the prefix before a marker is decoded as final, since a marker byte can never continue a UTF-8 sequence; the final call then progresses | not executed; medium | Cesu8.CutPrefixAtFinalIsKept | Cesu8.BufferDecodeCorrected (Cesu8.CorrectedFinalCallProgresses) |
| ftfy/autodecode/__init__.py:35 | the 'cesu-8' candidate is the UTF-8 decoding of the original bytes, not of the bytes `fix_java_encoding` produced, and a UTF-8 decoder rejects an encoded surrogate | once `fix_java_encoding` is bound, any input holding `ED A0 80 ED B0 80` without a byte-order mark: no candidate at all | the UTF-8 decoding of `fixed`, labelled 'cesu-8': `fixed` is computed at line 33 and used for nothing but the label, so the decode at line 35 was meant to read it | not executed; high | Autodecode.SurrogatePairInputHasNoCandidate | Autodecode.DecodeLevel1Corrected (Autodecode.CorrectedSurrogatePairInput) |
