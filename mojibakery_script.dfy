/** The miner of `scripts/mojibakery.py`: every ordered pair of distinct encodings among the
    common ones and the language's own, except pairs of two common encodings, is tried on every
    word; the survivors are ranked and cut to 25000. */
module MojibakeryScript {
  import opened Wrappers
  import opened Ordering
  import opened Mining

  /** The languages of `LANGUAGE_ENCODINGS`, in the dict's (insertion) order. */
  const Languages: seq<string> := [
    "ar", "de", "el", "en", "es", "fr", "id", "ja", "ko", "ms", "nl", "pl", "pt", "ru", "sv", "tr"]

  /** `LANGUAGE_ENCODINGS` (lines 37-55; the line for 'zh' is commented out). */
  const LanguageEncodings: map<string, seq<string>> := map[
    "ar" := ["iso-8859-6", "sloppy-windows-1256"],
    "de" := ["macroman", "iso-8859-2", "cp437", "cp850"],
    "el" := ["sloppy-windows-1253"],
    "en" := ["macroman", "cp437", "cp850"],
    "es" := ["macroman", "cp437", "cp850"],
    "fr" := ["macroman", "cp437", "cp850"],
    "id" := ["macroman", "cp437", "cp850"],
    "ja" := ["shift-jis", "euc-jp"],
    "ko" := ["euc-kr"],
    "ms" := ["macroman", "cp437"],
    "nl" := ["macroman", "cp437", "cp850"],
    "pl" := ["iso-8859-2", "windows-1250"],
    "pt" := ["macroman", "cp437", "cp850"],
    "ru" := ["sloppy-windows-1251", "koi8-r", "iso-8859-5", "cp866"],
    "sv" := ["macroman", "iso-8859-2", "cp437", "cp850"],
    "tr" := ["macroman", "cp850", "iso-8859-9", "sloppy-windows-1254"]]

  /** `COMMON_ENCODINGS`. */
  const CommonEncodings: seq<string> := ["iso-8859-1", "sloppy-windows-1252", "utf-8"]

  /** The characters of line 104 whose presence excludes a trigram. */
  const Suspicious: set<char> := {
    '\'', '\U{2019}', '\U{92}', '\U{A0}', '\\', '|', '(', ')', '[', ']', '{', '}', '.', '+', '*'}

  /** `COMMON_ENCODINGS + LANGUAGE_ENCODINGS[language]`. */
  function Encodings(language: string): seq<string>
    requires language in LanguageEncodings
  {
    CommonEncodings + LanguageEncodings[language]
  }

  /** The loop visits exactly the languages that have an entry. */
  lemma LanguagesListed()
    ensures forall language :: language in Languages <==> language in LanguageEncodings
  {
  }

  /** No encoding list repeats an encoding. */
  lemma EncodingsDistinct()
    ensures forall language :: language in LanguageEncodings ==> NoDuplicates(Encodings(language))
  {
  }

  /** The test on line 75: two different encodings, not both common. */
  predicate Tried(enc1: string, enc2: string)
  {
    enc1 != enc2 && (enc1 !in CommonEncodings || enc2 !in CommonEncodings)
  }

  /** `exclude_trigram` (lines 100-114). */
  function ExcludeTrigram(oracles: CharOracles, trigram: Trigram): (r: bool)
    ensures trigram[0] == trigram[1] == trigram[2] ==> r
    ensures trigram[0] in Suspicious || trigram[1] in Suspicious || trigram[2] in Suspicious ==> r
  {
    ExcludeTrigramWith(Suspicious, oracles, trigram)
  }

  // ---------------------------------------------------------------------------------------
  // The pair loops (lines 73-82).

  /** The `baked_freqs` entries of the inner loop for `enc1`, over the encodings `inner`. */
  function RowEntries(codecs: Transcoder, word: string, freq: real, enc1: string, inner: seq<string>)
    : seq<(BakedKey, real)>
    decreases |inner|
  {
    if |inner| == 0 then []
    else
      var enc2 := inner[|inner| - 1];
      RowEntries(codecs, word, freq, enc1, inner[..|inner| - 1]) +
        (if Tried(enc1, enc2) then BakeEntries(codecs, word, freq, enc1, enc2) else [])
  }

  /** The `baked_freqs` entries of the outer loop over `outer`, each run over `inner`. */
  function PairEntries(codecs: Transcoder, word: string, freq: real, outer: seq<string>, inner: seq<string>)
    : seq<(BakedKey, real)>
    decreases |outer|
  {
    if |outer| == 0 then []
    else PairEntries(codecs, word, freq, outer[..|outer| - 1], inner) +
         RowEntries(codecs, word, freq, outer[|outer| - 1], inner)
  }

  /** Every entry of a row is for `enc1` and a tried partner from `inner`, produced by the word. */
  lemma {:induction false} RowEntriesMembers(codecs: Transcoder, word: string, freq: real, enc1: string, inner: seq<string>)
    ensures forall e :: e in RowEntries(codecs, word, freq, enc1, inner) ==>
              e.0.encodedAs == enc1 && e.0.decodedAs in inner && Tried(enc1, e.0.decodedAs) &&
              FromWord(codecs, word, freq, e)
    decreases |inner|
  {
    if |inner| > 0 {
      var prefix, enc2 := inner[..|inner| - 1], inner[|inner| - 1];
      RowEntriesMembers(codecs, word, freq, enc1, prefix);
      BakeEntriesMembers(codecs, word, freq, enc1, enc2);
      assert forall x :: x in prefix ==> x in inner;
    }
  }

  /** Every entry of the two loops is for a tried pair from `outer` and `inner`, produced by
      the word. */
  lemma {:induction false} PairEntriesMembers(codecs: Transcoder, word: string, freq: real, outer: seq<string>, inner: seq<string>)
    ensures forall e :: e in PairEntries(codecs, word, freq, outer, inner) ==>
              e.0.encodedAs in outer && e.0.decodedAs in inner && Tried(e.0.encodedAs, e.0.decodedAs) &&
              FromWord(codecs, word, freq, e)
    decreases |outer|
  {
    if |outer| > 0 {
      var prefix, enc1 := outer[..|outer| - 1], outer[|outer| - 1];
      PairEntriesMembers(codecs, word, freq, prefix, inner);
      RowEntriesMembers(codecs, word, freq, enc1, inner);
      assert forall x :: x in prefix ==> x in outer;
    }
  }

  /** The `baked_freqs` entries of one pass of the word loop. The loops only visit languages
      that have an entry; another language is given no entries. */
  function WordBaked(codecs: Transcoder, occ: Occurrence): seq<(BakedKey, real)>
  {
    if occ.language in LanguageEncodings
    then PairEntries(codecs, occ.word, occ.freq, Encodings(occ.language), Encodings(occ.language))
    else []
  }

  /** In one row a key receives what its own pair gives it, if that pair is tried there. */
  lemma {:induction false} RowTotal(codecs: Transcoder, word: string, freq: real, enc1: string, inner: seq<string>, key: BakedKey)
    requires NoDuplicates(inner)
    ensures Total(RowEntries(codecs, word, freq, enc1, inner), key) ==
              if key.encodedAs == enc1 && key.decodedAs in inner && Tried(enc1, key.decodedAs)
              then Total(BakeEntries(codecs, word, freq, enc1, key.decodedAs), key)
              else 0.0
    decreases |inner|
  {
    if |inner| > 0 {
      var prefix, enc2 := inner[..|inner| - 1], inner[|inner| - 1];
      LastNotInPrefix(inner);
      RowTotal(codecs, word, freq, enc1, prefix, key);
      var tail := if Tried(enc1, enc2) then BakeEntries(codecs, word, freq, enc1, enc2) else [];
      TotalAppend(RowEntries(codecs, word, freq, enc1, prefix), tail, key);
      if key.encodedAs != enc1 || key.decodedAs != enc2 {
        BakeEntriesMembers(codecs, word, freq, enc1, enc2);
        TotalAbsent(tail, key);
      }
      assert key.decodedAs in inner <==> key.decodedAs in prefix || key.decodedAs == enc2;
    }
  }

  /** Over the two loops a key receives what its own pair gives it, once, if that pair is
      tried. */
  lemma {:induction false} PairTotal(codecs: Transcoder, word: string, freq: real, outer: seq<string>, inner: seq<string>, key: BakedKey)
    requires NoDuplicates(outer) && NoDuplicates(inner)
    ensures Total(PairEntries(codecs, word, freq, outer, inner), key) ==
              if key.encodedAs in outer && key.decodedAs in inner && Tried(key.encodedAs, key.decodedAs)
              then Total(BakeEntries(codecs, word, freq, key.encodedAs, key.decodedAs), key)
              else 0.0
    decreases |outer|
  {
    if |outer| > 0 {
      var prefix, enc1 := outer[..|outer| - 1], outer[|outer| - 1];
      LastNotInPrefix(outer);
      PairTotal(codecs, word, freq, prefix, inner, key);
      RowTotal(codecs, word, freq, enc1, inner, key);
      TotalAppend(PairEntries(codecs, word, freq, prefix, inner), RowEntries(codecs, word, freq, enc1, inner), key);
      assert key.encodedAs in outer <==> key.encodedAs in prefix || key.encodedAs == enc1;
    }
  }

  /** What one word gives a key `(trigram, enc2, enc1)`: its frequency once per occurrence of the
      trigram in `word.encode(enc1).decode(enc2)`, when the pair is tried, both steps succeed and
      the word changes, and nothing otherwise; in particular a pair that raises adds nothing. */
  lemma WordBakedWeight(codecs: Transcoder, occ: Occurrence, key: BakedKey)
    requires occ.language in LanguageEncodings
    ensures var m := Transcode(codecs, occ.word, key.encodedAs, key.decodedAs);
            Total(WordBaked(codecs, occ), key) ==
              if key.encodedAs in Encodings(occ.language) && key.decodedAs in Encodings(occ.language) &&
                 Tried(key.encodedAs, key.decodedAs) && m.Some? && m.value != occ.word
              then Times(multiset(GetTrigrams(m.value))[key.trigram], occ.freq)
              else 0.0
  {
    EncodingsDistinct();
    var encodings := Encodings(occ.language);
    PairTotal(codecs, occ.word, occ.freq, encodings, encodings, key);
    BakedWeight(codecs, occ.word, occ.freq, key.encodedAs, key.decodedAs, key);
  }

  /** The `baked_freqs` entries of the given passes, in order. */
  function BakedOf(codecs: Transcoder, occs: seq<Occurrence>): seq<(BakedKey, real)>
    decreases |occs|
  {
    if |occs| == 0 then []
    else BakedOf(codecs, occs[..|occs| - 1]) + WordBaked(codecs, occs[|occs| - 1])
  }

  /** Every entry is for a tried pair, produced by transcoding one of the passes' words under
      encodings of its language. */
  lemma {:induction false} BakedOfMembers(codecs: Transcoder, occs: seq<Occurrence>)
    requires forall o :: o in occs ==> o.language in LanguageEncodings
    ensures forall e :: e in BakedOf(codecs, occs) ==>
              Tried(e.0.encodedAs, e.0.decodedAs) &&
              exists o :: o in occs && e.0.encodedAs in Encodings(o.language) && e.0.decodedAs in Encodings(o.language) &&
                          FromWord(codecs, o.word, o.freq, e)
    decreases |occs|
  {
    if |occs| > 0 {
      var prefix, last := occs[..|occs| - 1], occs[|occs| - 1];
      assert forall o :: o in prefix ==> o in occs;
      BakedOfMembers(codecs, prefix);
      PairEntriesMembers(codecs, last.word, last.freq, Encodings(last.language), Encodings(last.language));
      assert last in occs;
    }
  }

  /** Every key of the built `baked_freqs` is a tried pair under which some word of some language
      transcodes, without raising, into a different text holding the trigram. */
  lemma BakedKeys(codecs: Transcoder, occs: seq<Occurrence>)
    requires forall o :: o in occs ==> o.language in LanguageEncodings
    ensures forall k :: k in Accumulate(map[], BakedOf(codecs, occs)) ==>
              Tried(k.encodedAs, k.decodedAs) &&
              exists o :: o in occs && k.encodedAs in Encodings(o.language) && k.decodedAs in Encodings(o.language) &&
                          var m := Transcode(codecs, o.word, k.encodedAs, k.decodedAs);
                          m.Some? && m.value != o.word && k.trigram in GetTrigrams(m.value)
  {
    var entries := BakedOf(codecs, occs);
    AccumulateKeys(map[], entries);
    BakedOfMembers(codecs, occs);
    forall k: BakedKey | k in Accumulate(map[], entries)
      ensures Tried(k.encodedAs, k.decodedAs)
      ensures exists o :: o in occs && k.encodedAs in Encodings(o.language) && k.decodedAs in Encodings(o.language) &&
                          var m := Transcode(codecs, o.word, k.encodedAs, k.decodedAs);
                          m.Some? && m.value != o.word && k.trigram in GetTrigrams(m.value)
    {
      var i :| 0 <= i < |entries| && entries[i].0 == k;
      assert entries[i] in entries;
    }
  }

  // ---------------------------------------------------------------------------------------
  // The loops themselves.

  /** The pair loops for one word over the language's `encodings` (lines 73-82). */
  method AddPairs(tables: FreqTables, codecs: Transcoder, word: string, freq: real, encodings: seq<string>)
    modifies tables
    ensures tables.bakedFreqs == Accumulate(old(tables.bakedFreqs), PairEntries(codecs, word, freq, encodings, encodings))
    ensures tables.normalFreqs == old(tables.normalFreqs)
  {
    for a := 0 to |encodings|
      invariant tables.bakedFreqs == Accumulate(old(tables.bakedFreqs), PairEntries(codecs, word, freq, encodings[..a], encodings))
      invariant tables.normalFreqs == old(tables.normalFreqs)
    {
      ghost var done := PairEntries(codecs, word, freq, encodings[..a], encodings);
      AddRow(tables, codecs, word, freq, encodings[a], encodings);
      assert encodings[..a + 1][..a] == encodings[..a];
      AccumulateAppend(old(tables.bakedFreqs), done, RowEntries(codecs, word, freq, encodings[a], encodings));
    }
    assert encodings[..|encodings|] == encodings;
  }

  /** The inner loop for `enc1` (lines 74-82). */
  method AddRow(tables: FreqTables, codecs: Transcoder, word: string, freq: real, enc1: string, encodings: seq<string>)
    modifies tables
    ensures tables.bakedFreqs == Accumulate(old(tables.bakedFreqs), RowEntries(codecs, word, freq, enc1, encodings))
    ensures tables.normalFreqs == old(tables.normalFreqs)
  {
    for b := 0 to |encodings|
      invariant tables.bakedFreqs == Accumulate(old(tables.bakedFreqs), RowEntries(codecs, word, freq, enc1, encodings[..b]))
      invariant tables.normalFreqs == old(tables.normalFreqs)
    {
      var enc2 := encodings[b];
      assert encodings[..b + 1][..b] == encodings[..b];
      ghost var row := RowEntries(codecs, word, freq, enc1, encodings[..b]);
      if Tried(enc1, enc2) {
        AccumulateAppend(old(tables.bakedFreqs), row, BakeEntries(codecs, word, freq, enc1, enc2));
        tables.TryBake(codecs, word, freq, enc1, enc2);
      } else {
        assert row + [] == row;
      }
    }
    assert encodings[..|encodings|] == encodings;
  }

  /** The body of the word loop for one word (lines 69-82). */
  method AddWord(tables: FreqTables, codecs: Transcoder, occ: Occurrence)
    requires occ.language in LanguageEncodings
    modifies tables
    ensures tables.normalFreqs == Accumulate(old(tables.normalFreqs), NormalEntries(occ.word, occ.freq))
    ensures tables.bakedFreqs == Accumulate(old(tables.bakedFreqs), WordBaked(codecs, occ))
  {
    var padded := Pad(occ.word);
    tables.AddNormal(GetTrigrams(padded), occ.freq);
    var encodings := CommonEncodings + LanguageEncodings[occ.language];
    AddPairs(tables, codecs, occ.word, occ.freq, encodings);
  }

  /** `add_language_trigrams(normal_freqs, baked_freqs, language)` (lines 65-82). */
  method AddLanguageTrigrams(tables: FreqTables, source: WordSource, codecs: Transcoder, language: string)
    requires language in LanguageEncodings
    modifies tables
    ensures tables.normalFreqs ==
              Accumulate(old(tables.normalFreqs), NormalOf(Occurrences(source, source.wordlist(language), language)))
    ensures tables.bakedFreqs ==
              Accumulate(old(tables.bakedFreqs), BakedOf(codecs, Occurrences(source, source.wordlist(language), language)))
  {
    var basewords := source.wordlist(language);
    for i := 0 to |basewords|
      invariant tables.normalFreqs == Accumulate(old(tables.normalFreqs), NormalOf(Occurrences(source, basewords[..i], language)))
      invariant tables.bakedFreqs == Accumulate(old(tables.bakedFreqs), BakedOf(codecs, Occurrences(source, basewords[..i], language)))
    {
      BasewordStep(codecs, source, basewords, i, language, old(tables.normalFreqs), old(tables.bakedFreqs));
      AddBaseword(tables, source, codecs, basewords[i], language);
    }
    assert basewords[..|basewords|] == basewords;
  }

  /** The loop over `set([baseword, baseword.upper()])` (lines 68-82). */
  method AddBaseword(tables: FreqTables, source: WordSource, codecs: Transcoder, baseword: string, language: string)
    requires language in LanguageEncodings
    modifies tables
    ensures tables.normalFreqs ==
              Accumulate(old(tables.normalFreqs), NormalOf(VariantOccurrences(source, baseword, language)))
    ensures tables.bakedFreqs ==
              Accumulate(old(tables.bakedFreqs), BakedOf(codecs, VariantOccurrences(source, baseword, language)))
  {
    var freq := source.wordFrequency(baseword, language);
    var words := Variants(source, baseword);
    ghost var variants := VariantOccurrences(source, baseword, language);
    for j := 0 to |words|
      invariant tables.normalFreqs == Accumulate(old(tables.normalFreqs), NormalOf(variants[..j]))
      invariant tables.bakedFreqs == Accumulate(old(tables.bakedFreqs), BakedOf(codecs, variants[..j]))
    {
      var occ := Occurrence(words[j], freq, language);
      VariantStep(codecs, variants, j, old(tables.normalFreqs), old(tables.bakedFreqs));
      AddWord(tables, codecs, occ);
    }
    assert variants[..|words|] == variants;
  }

  /** One more variant: its entries are accumulated after those of the variants before it. */
  lemma VariantStep(codecs: Transcoder, variants: seq<Occurrence>, j: nat,
                    normalFreqs: map<Trigram, real>, bakedFreqs: map<BakedKey, real>)
    requires j < |variants|
    ensures var occ := variants[j];
            Accumulate(normalFreqs, NormalOf(variants[..j + 1])) ==
              Accumulate(Accumulate(normalFreqs, NormalOf(variants[..j])), NormalEntries(occ.word, occ.freq)) &&
            Accumulate(bakedFreqs, BakedOf(codecs, variants[..j + 1])) ==
              Accumulate(Accumulate(bakedFreqs, BakedOf(codecs, variants[..j])), WordBaked(codecs, occ))
  {
    var occ := variants[j];
    assert variants[..j + 1][..j] == variants[..j] && variants[..j + 1][j] == occ;
    AccumulateAppend(normalFreqs, NormalOf(variants[..j]), NormalEntries(occ.word, occ.freq));
    AccumulateAppend(bakedFreqs, BakedOf(codecs, variants[..j]), WordBaked(codecs, occ));
  }

  /** `build_trigrams()` (lines 85-91): both tables, filled language by language. */
  method BuildTrigrams(source: WordSource, codecs: Transcoder) returns (tables: FreqTables)
    ensures fresh(tables)
    ensures tables.normalFreqs == Accumulate(map[], NormalOf(AllOccurrences(source, Languages)))
    ensures tables.bakedFreqs == Accumulate(map[], BakedOf(codecs, AllOccurrences(source, Languages)))
  {
    LanguagesListed();
    tables := new FreqTables();
    AddLanguages(tables, source, codecs, Languages);
  }

  /** The loop of `build_trigrams` over the given languages. */
  method AddLanguages(tables: FreqTables, source: WordSource, codecs: Transcoder, languages: seq<string>)
    requires forall language :: language in languages ==> language in LanguageEncodings
    modifies tables
    ensures tables.normalFreqs == Accumulate(old(tables.normalFreqs), NormalOf(AllOccurrences(source, languages)))
    ensures tables.bakedFreqs == Accumulate(old(tables.bakedFreqs), BakedOf(codecs, AllOccurrences(source, languages)))
  {
    for n := 0 to |languages|
      invariant tables.normalFreqs == Accumulate(old(tables.normalFreqs), NormalOf(AllOccurrences(source, languages[..n])))
      invariant tables.bakedFreqs == Accumulate(old(tables.bakedFreqs), BakedOf(codecs, AllOccurrences(source, languages[..n])))
    {
      LanguageStep(codecs, source, languages, n, old(tables.normalFreqs), old(tables.bakedFreqs));
      AddLanguageTrigrams(tables, source, codecs, languages[n]);
    }
    assert languages[..|languages|] == languages;
  }

  /** One more base word: its passes are accumulated after those of the base words before it. */
  lemma BasewordStep(codecs: Transcoder, source: WordSource, basewords: seq<string>, i: nat, language: string,
                     normalFreqs: map<Trigram, real>, bakedFreqs: map<BakedKey, real>)
    requires i < |basewords|
    ensures var done, added := Occurrences(source, basewords[..i], language), VariantOccurrences(source, basewords[i], language);
            Accumulate(normalFreqs, NormalOf(Occurrences(source, basewords[..i + 1], language))) ==
              Accumulate(Accumulate(normalFreqs, NormalOf(done)), NormalOf(added)) &&
            Accumulate(bakedFreqs, BakedOf(codecs, Occurrences(source, basewords[..i + 1], language))) ==
              Accumulate(Accumulate(bakedFreqs, BakedOf(codecs, done)), BakedOf(codecs, added))
  {
    var done, added := Occurrences(source, basewords[..i], language), VariantOccurrences(source, basewords[i], language);
    assert basewords[..i + 1][..i] == basewords[..i];
    assert Occurrences(source, basewords[..i + 1], language) == done + added;
    AccumulateRuns(codecs, normalFreqs, bakedFreqs, done, added);
  }

  /** One more language: its passes are accumulated after those of the languages before it. */
  lemma LanguageStep(codecs: Transcoder, source: WordSource, languages: seq<string>, n: nat,
                     normalFreqs: map<Trigram, real>, bakedFreqs: map<BakedKey, real>)
    requires n < |languages|
    ensures var done := AllOccurrences(source, languages[..n]);
            var added := Occurrences(source, source.wordlist(languages[n]), languages[n]);
            Accumulate(normalFreqs, NormalOf(AllOccurrences(source, languages[..n + 1]))) ==
              Accumulate(Accumulate(normalFreqs, NormalOf(done)), NormalOf(added)) &&
            Accumulate(bakedFreqs, BakedOf(codecs, AllOccurrences(source, languages[..n + 1]))) ==
              Accumulate(Accumulate(bakedFreqs, BakedOf(codecs, done)), BakedOf(codecs, added))
  {
    var done := AllOccurrences(source, languages[..n]);
    var added := Occurrences(source, source.wordlist(languages[n]), languages[n]);
    assert languages[..n + 1][..n] == languages[..n];
    AccumulateRuns(codecs, normalFreqs, bakedFreqs, done, added);
  }

  /** Two consecutive runs of passes fill both tables as the first run and then the second. */
  lemma AccumulateRuns(codecs: Transcoder, normalFreqs: map<Trigram, real>, bakedFreqs: map<BakedKey, real>,
                       a: seq<Occurrence>, b: seq<Occurrence>)
    ensures Accumulate(normalFreqs, NormalOf(a + b)) == Accumulate(Accumulate(normalFreqs, NormalOf(a)), NormalOf(b))
    ensures Accumulate(bakedFreqs, BakedOf(codecs, a + b)) ==
              Accumulate(Accumulate(bakedFreqs, BakedOf(codecs, a)), BakedOf(codecs, b))
  {
    NormalOfAppend(a, b);
    BakedOfAppend(codecs, a, b);
    AccumulateAppend(normalFreqs, NormalOf(a), NormalOf(b));
    AccumulateAppend(bakedFreqs, BakedOf(codecs, a), BakedOf(codecs, b));
  }

  /** Entries of consecutive runs of passes are consecutive. */
  lemma {:induction false} BakedOfAppend(codecs: Transcoder, a: seq<Occurrence>, b: seq<Occurrence>)
    ensures BakedOf(codecs, a + b) == BakedOf(codecs, a) + BakedOf(codecs, b)
    decreases |b|
  {
    if |b| == 0 {
      assert a + b == a;
    } else {
      var ab := a + b;
      var prefix := b[..|b| - 1];
      assert ab[..|ab| - 1] == a + prefix;
      assert ab[|ab| - 1] == b[|b| - 1];
      BakedOfAppend(codecs, a, prefix);
      assert BakedOf(codecs, ab) == BakedOf(codecs, a + prefix) + WordBaked(codecs, b[|b| - 1]);
      ConcatAssoc(BakedOf(codecs, a), BakedOf(codecs, prefix), WordBaked(codecs, b[|b| - 1]));
    }
  }

  // ---------------------------------------------------------------------------------------
  // Selection.

  /** `find_mojibake(normal_freqs, baked_freqs)` (lines 117-125). `keys` is the dict's iteration
      order, which lists each key once. */
  method FindMojibake(normalFreqs: map<Trigram, real>, bakedFreqs: map<BakedKey, real>, keys: seq<BakedKey>,
                      oracles: CharOracles)
    returns (found: seq<Item>)
    requires forall k :: k in bakedFreqs <==> k in keys
    requires NoDuplicates(keys)
    ensures found == Top(Candidates(normalFreqs, bakedFreqs, keys, oracles, Suspicious), 25000)
    ensures |found| <= 25000
    ensures Sorted(found, Greater)
    ensures forall it :: it in found ==>
              it.trigram !in normalFreqs && oracles.lower(it.trigram) !in normalFreqs &&
              !ExcludeTrigram(oracles, it.trigram)
    ensures forall it :: it in found ==> exists k :: k in bakedFreqs && it == ItemOf(k, bakedFreqs[k])
  {
    found := FindMojibakeWith(normalFreqs, bakedFreqs, keys, oracles, Suspicious, 25000);
  }
}
