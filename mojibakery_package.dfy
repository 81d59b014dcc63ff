/** The miner of `ftfy/mojibakery/find_mojibake.py`: each of the language's own encodings is
    paired with every other encoding, common or the language's own, and each pair is tried in
    both directions on every word; the survivors are ranked and cut to 20000. */
module MojibakeryPackage {
  import opened Wrappers
  import opened Ordering
  import opened Mining

  /** The languages of `LANGUAGE_ENCODINGS`, in the dict's (insertion) order. */
  const Languages: seq<string> := [
    "ar", "de", "el", "en", "es", "fr", "id", "ja", "ko", "ms", "nl", "pt", "ru", "zh"]

  /** `LANGUAGE_ENCODINGS` (lines 13-28). */
  const LanguageEncodings: map<string, seq<string>> := map[
    "ar" := ["iso-8859-6", "sloppy-windows-1256"],
    "de" := ["macroman", "iso-8859-2", "cp437"],
    "el" := ["sloppy-windows-1253"],
    "en" := ["macroman", "cp437"],
    "es" := ["macroman", "cp437"],
    "fr" := ["macroman", "cp437"],
    "id" := ["macroman", "cp437"],
    "ja" := ["shift-jis", "euc-jp"],
    "ko" := ["euc-kr"],
    "ms" := ["macroman", "cp437"],
    "nl" := ["macroman", "cp437"],
    "pt" := ["macroman", "cp437"],
    "ru" := ["sloppy-windows-1251", "koi8-r"],
    "zh" := ["euc-cn", "gbk", "big5"]]

  /** `COMMON_ENCODINGS`. */
  const CommonEncodings: seq<string> := ["iso-8859-1", "sloppy-windows-1252", "utf-8"]

  /** The characters of line 84 whose presence excludes a trigram. */
  const Suspicious: set<char> := {
    '\'', '\U{E2}', '\U{20AC}', '\U{2122}', '\U{92}', '\U{A0}', '\\', '|', '(', ')', '[', ']', '{', '}', '.', '+', '*'}

  /** `COMMON_ENCODINGS + LANGUAGE_ENCODINGS[language]`, the range of the inner loop. */
  function Encodings(language: string): seq<string>
    requires language in LanguageEncodings
  {
    CommonEncodings + LanguageEncodings[language]
  }

  /** The loop visits exactly the languages that have an entry. */
  lemma LanguagesListed()
    ensures forall language :: language in Languages <==> language in LanguageEncodings
  {
  }

  /** No encoding list repeats an encoding. */
  lemma EncodingsDistinct()
    ensures forall language :: language in LanguageEncodings ==> NoDuplicates(LanguageEncodings[language])
    ensures forall language :: language in LanguageEncodings ==> NoDuplicates(Encodings(language))
  {
  }

  /** `exclude_trigram` (lines 80-94). */
  function ExcludeTrigram(oracles: CharOracles, trigram: Trigram): (r: bool)
    ensures trigram[0] == trigram[1] == trigram[2] ==> r
    ensures trigram[0] in Suspicious || trigram[1] in Suspicious || trigram[2] in Suspicious ==> r
  {
    ExcludeTrigramWith(Suspicious, oracles, trigram)
  }

  // ---------------------------------------------------------------------------------------
  // The pair loops (lines 46-62).

  /** The two `try` blocks for `enc1` and `enc2`: `enc1` to `enc2`, recorded as
      `(trigram, enc2, enc1)`, then `enc2` to `enc1`, recorded as `(trigram, enc1, enc2)`. */
  function BothWays(codecs: Transcoder, word: string, freq: real, enc1: string, enc2: string): seq<(BakedKey, real)>
  {
    BakeEntries(codecs, word, freq, enc1, enc2) + BakeEntries(codecs, word, freq, enc2, enc1)
  }

  /** The `baked_freqs` entries of the inner loop for `enc1`, over the encodings `inner`. */
  function RowEntries(codecs: Transcoder, word: string, freq: real, enc1: string, inner: seq<string>)
    : seq<(BakedKey, real)>
    decreases |inner|
  {
    if |inner| == 0 then []
    else
      var enc2 := inner[|inner| - 1];
      RowEntries(codecs, word, freq, enc1, inner[..|inner| - 1]) +
        (if enc1 != enc2 then BothWays(codecs, word, freq, enc1, enc2) else [])
  }

  /** The `baked_freqs` entries of the outer loop over `outer`, each run over `inner`. */
  function PairEntries(codecs: Transcoder, word: string, freq: real, outer: seq<string>, inner: seq<string>)
    : seq<(BakedKey, real)>
    decreases |outer|
  {
    if |outer| == 0 then []
    else PairEntries(codecs, word, freq, outer[..|outer| - 1], inner) +
         RowEntries(codecs, word, freq, outer[|outer| - 1], inner)
  }

  /** A key the two loops can produce: two different encodings, one from `outer` and the other
      from `inner`, in either role. */
  predicate Paired(outer: seq<string>, inner: seq<string>, encodedAs: string, decodedAs: string)
  {
    encodedAs != decodedAs &&
    ((encodedAs in outer && decodedAs in inner) || (decodedAs in outer && encodedAs in inner))
  }

  /** Every entry of a row pairs `enc1` with a different encoding of `inner`, in one direction
      or the other, and was produced by the word. */
  lemma {:induction false} RowEntriesMembers(codecs: Transcoder, word: string, freq: real, enc1: string, inner: seq<string>)
    ensures forall e :: e in RowEntries(codecs, word, freq, enc1, inner) ==>
              Paired([enc1], inner, e.0.encodedAs, e.0.decodedAs) && FromWord(codecs, word, freq, e)
    decreases |inner|
  {
    if |inner| > 0 {
      var prefix, enc2 := inner[..|inner| - 1], inner[|inner| - 1];
      RowEntriesMembers(codecs, word, freq, enc1, prefix);
      BakeEntriesMembers(codecs, word, freq, enc1, enc2);
      BakeEntriesMembers(codecs, word, freq, enc2, enc1);
      assert forall x :: x in prefix ==> x in inner;
      assert enc1 in [enc1];
    }
  }

  /** Every entry of the two loops is for a pair they try, produced by the word. */
  lemma {:induction false} PairEntriesMembers(codecs: Transcoder, word: string, freq: real, outer: seq<string>, inner: seq<string>)
    ensures forall e :: e in PairEntries(codecs, word, freq, outer, inner) ==>
              Paired(outer, inner, e.0.encodedAs, e.0.decodedAs) && FromWord(codecs, word, freq, e)
    decreases |outer|
  {
    if |outer| > 0 {
      var prefix, enc1 := outer[..|outer| - 1], outer[|outer| - 1];
      PairEntriesMembers(codecs, word, freq, prefix, inner);
      RowEntriesMembers(codecs, word, freq, enc1, inner);
      assert forall x :: x in prefix ==> x in outer;
    }
  }

  /** The `baked_freqs` entries of one pass of the word loop. The loops only visit languages
      that have an entry; another language is given no entries. */
  function WordBaked(codecs: Transcoder, occ: Occurrence): seq<(BakedKey, real)>
  {
    if occ.language in LanguageEncodings
    then PairEntries(codecs, occ.word, occ.freq, LanguageEncodings[occ.language], Encodings(occ.language))
    else []
  }

  /** The weight one `try` block gives a key. */
  function Direct(codecs: Transcoder, word: string, freq: real, key: BakedKey): real
  {
    Total(BakeEntries(codecs, word, freq, key.encodedAs, key.decodedAs), key)
  }

  /** The two `try` blocks give a key its pair's weight when it is one of their two keys. */
  lemma BothWaysTotal(codecs: Transcoder, word: string, freq: real, enc1: string, enc2: string, key: BakedKey)
    ensures Total(BothWays(codecs, word, freq, enc1, enc2), key) ==
              (if key.encodedAs == enc1 && key.decodedAs == enc2 then Direct(codecs, word, freq, key) else 0.0) +
              (if key.encodedAs == enc2 && key.decodedAs == enc1 then Direct(codecs, word, freq, key) else 0.0)
  {
    var forward, backward := BakeEntries(codecs, word, freq, enc1, enc2), BakeEntries(codecs, word, freq, enc2, enc1);
    TotalAppend(forward, backward, key);
    BakeEntriesMembers(codecs, word, freq, enc1, enc2);
    BakeEntriesMembers(codecs, word, freq, enc2, enc1);
    if key.encodedAs != enc1 || key.decodedAs != enc2 {
      TotalAbsent(forward, key);
    }
    if key.encodedAs != enc2 || key.decodedAs != enc1 {
      TotalAbsent(backward, key);
    }
  }

  /** In one row a key receives its own pair's weight once for each direction in which the row
      tries that pair. */
  lemma {:induction false} RowTotal(codecs: Transcoder, word: string, freq: real, enc1: string, inner: seq<string>, key: BakedKey)
    requires NoDuplicates(inner)
    ensures Total(RowEntries(codecs, word, freq, enc1, inner), key) ==
              (if key.encodedAs == enc1 && key.decodedAs in inner && enc1 != key.decodedAs
               then Direct(codecs, word, freq, key) else 0.0) +
              (if key.decodedAs == enc1 && key.encodedAs in inner && enc1 != key.encodedAs
               then Direct(codecs, word, freq, key) else 0.0)
    decreases |inner|
  {
    if |inner| > 0 {
      var prefix, enc2 := inner[..|inner| - 1], inner[|inner| - 1];
      var d := Direct(codecs, word, freq, key);
      var entries := RowEntries(codecs, word, freq, enc1, prefix);
      var tail := if enc1 != enc2 then BothWays(codecs, word, freq, enc1, enc2) else [];
      var a1 := key.encodedAs == enc1 && key.decodedAs in prefix && enc1 != key.decodedAs;
      var b1 := key.decodedAs == enc1 && key.encodedAs in prefix && enc1 != key.encodedAs;
      var a2 := key.encodedAs == enc1 && key.decodedAs == enc2 && enc1 != enc2;
      var b2 := key.decodedAs == enc1 && key.encodedAs == enc2 && enc1 != enc2;
      var a := key.encodedAs == enc1 && key.decodedAs in inner && enc1 != key.decodedAs;
      var b := key.decodedAs == enc1 && key.encodedAs in inner && enc1 != key.encodedAs;
      assert Total(entries, key) == (if a1 then d else 0.0) + (if b1 then d else 0.0) by {
        LastNotInPrefix(inner);
        RowTotal(codecs, word, freq, enc1, prefix, key);
      }
      assert Total(tail, key) == (if a2 then d else 0.0) + (if b2 then d else 0.0) by {
        if enc1 != enc2 {
          BothWaysTotal(codecs, word, freq, enc1, enc2, key);
        }
      }
      assert !(a1 && a2) && !(b1 && b2) && a == (a1 || a2) && b == (b1 || b2) by {
        LastNotInPrefix(inner);
        InLast(inner, key.decodedAs);
        InLast(inner, key.encodedAs);
      }
      assert Total(RowEntries(codecs, word, freq, enc1, inner), key) == Total(entries, key) + Total(tail, key) by {
        TotalAppend(entries, tail, key);
      }
      AddTried(Total(entries, key), Total(tail, key), d, a1, a2, b1, b2, a, b);
    }
  }

  /** An element of a non-empty sequence is in its prefix or is its last element. */
  lemma InLast<T>(xs: seq<T>, x: T)
    requires |xs| > 0
    ensures x in xs <==> x in xs[..|xs| - 1] || x == xs[|xs| - 1]
  {
    assert xs == xs[..|xs| - 1] + [xs[|xs| - 1]];
  }

  /** The two `if` terms of earlier loop steps and those of one more step add up, when no key
      is counted by both. */
  lemma AddTried(prev: real, step: real, d: real, a1: bool, a2: bool, b1: bool, b2: bool, a: bool, b: bool)
    requires prev == (if a1 then d else 0.0) + (if b1 then d else 0.0)
    requires step == (if a2 then d else 0.0) + (if b2 then d else 0.0)
    requires !(a1 && a2) && !(b1 && b2) && a == (a1 || a2) && b == (b1 || b2)
    ensures prev + step == (if a then d else 0.0) + (if b then d else 0.0)
  {
  }

  /** Over the two loops a key receives its own pair's weight once for each way the loops try
      that pair. */
  lemma {:induction false} PairTotal(codecs: Transcoder, word: string, freq: real, outer: seq<string>, inner: seq<string>, key: BakedKey)
    requires NoDuplicates(outer) && NoDuplicates(inner)
    ensures Total(PairEntries(codecs, word, freq, outer, inner), key) ==
              (if key.encodedAs in outer && key.decodedAs in inner && key.encodedAs != key.decodedAs
               then Direct(codecs, word, freq, key) else 0.0) +
              (if key.decodedAs in outer && key.encodedAs in inner && key.encodedAs != key.decodedAs
               then Direct(codecs, word, freq, key) else 0.0)
    decreases |outer|
  {
    if |outer| > 0 {
      var prefix, enc1 := outer[..|outer| - 1], outer[|outer| - 1];
      var d := Direct(codecs, word, freq, key);
      var entries, row := PairEntries(codecs, word, freq, prefix, inner), RowEntries(codecs, word, freq, enc1, inner);
      var a1 := key.encodedAs in prefix && key.decodedAs in inner && key.encodedAs != key.decodedAs;
      var b1 := key.decodedAs in prefix && key.encodedAs in inner && key.encodedAs != key.decodedAs;
      var a2 := key.encodedAs == enc1 && key.decodedAs in inner && enc1 != key.decodedAs;
      var b2 := key.decodedAs == enc1 && key.encodedAs in inner && enc1 != key.encodedAs;
      var a := key.encodedAs in outer && key.decodedAs in inner && key.encodedAs != key.decodedAs;
      var b := key.decodedAs in outer && key.encodedAs in inner && key.encodedAs != key.decodedAs;
      assert Total(entries, key) == (if a1 then d else 0.0) + (if b1 then d else 0.0) by {
        LastNotInPrefix(outer);
        PairTotal(codecs, word, freq, prefix, inner, key);
      }
      assert Total(row, key) == (if a2 then d else 0.0) + (if b2 then d else 0.0) by {
        RowTotal(codecs, word, freq, enc1, inner, key);
      }
      assert !(a1 && a2) && !(b1 && b2) && a == (a1 || a2) && b == (b1 || b2) by {
        LastNotInPrefix(outer);
        InLast(outer, key.decodedAs);
        InLast(outer, key.encodedAs);
      }
      assert Total(PairEntries(codecs, word, freq, outer, inner), key) == Total(entries, key) + Total(row, key) by {
        TotalAppend(entries, row, key);
      }
      AddTried(Total(entries, key), Total(row, key), d, a1, a2, b1, b2, a, b);
    }
  }

  /** What one word gives a key `(trigram, decodedAs, encodedAs)`: its frequency once per
      occurrence of the trigram in `word.encode(encodedAs).decode(decodedAs)` when both steps
      succeed and the word changes, counted once for each of the two directions in which the
      loops try the pair; nothing for a direction that raises or leaves the word as it was. */
  lemma WordBakedWeight(codecs: Transcoder, occ: Occurrence, key: BakedKey)
    requires occ.language in LanguageEncodings
    ensures var m := Transcode(codecs, occ.word, key.encodedAs, key.decodedAs);
            var weight := if m.Some? && m.value != occ.word
                          then Times(multiset(GetTrigrams(m.value))[key.trigram], occ.freq) else 0.0;
            var own, all := LanguageEncodings[occ.language], Encodings(occ.language);
            Total(WordBaked(codecs, occ), key) ==
              (if key.encodedAs in own && key.decodedAs in all && key.encodedAs != key.decodedAs then weight else 0.0) +
              (if key.decodedAs in own && key.encodedAs in all && key.encodedAs != key.decodedAs then weight else 0.0)
  {
    EncodingsDistinct();
    PairTotal(codecs, occ.word, occ.freq, LanguageEncodings[occ.language], Encodings(occ.language), key);
    BakedWeight(codecs, occ.word, occ.freq, key.encodedAs, key.decodedAs, key);
  }

  /** A pair of two encodings of the language itself is tried in both directions twice, once
      with each as `enc1`, so its trigrams get twice the word's frequency; a pair with a common
      encoding gets it once. */
  lemma OwnPairsCountTwice(codecs: Transcoder, occ: Occurrence, key: BakedKey)
    requires occ.language in LanguageEncodings
    requires key.encodedAs != key.decodedAs
    ensures key.encodedAs in LanguageEncodings[occ.language] && key.decodedAs in LanguageEncodings[occ.language] ==>
              Total(WordBaked(codecs, occ), key) == Direct(codecs, occ.word, occ.freq, key) + Direct(codecs, occ.word, occ.freq, key)
    ensures key.encodedAs in LanguageEncodings[occ.language] && key.decodedAs in CommonEncodings ==>
              Total(WordBaked(codecs, occ), key) == Direct(codecs, occ.word, occ.freq, key)
  {
    EncodingsDistinct();
    PairTotal(codecs, occ.word, occ.freq, LanguageEncodings[occ.language], Encodings(occ.language), key);
    if key.decodedAs in CommonEncodings {
      assert key.decodedAs !in LanguageEncodings[occ.language] by {
        CommonAndOwnDisjoint(occ.language, key.decodedAs);
      }
    }
  }

  /** No language lists a common encoding among its own. */
  lemma CommonAndOwnDisjoint(language: string, encoding: string)
    requires language in LanguageEncodings && encoding in CommonEncodings
    ensures encoding !in LanguageEncodings[language]
  {
    EncodingsDistinct();
    var all := Encodings(language);
    var i :| 0 <= i < 3 && CommonEncodings[i] == encoding;
    assert all[i] == encoding;
    forall j | 0 <= j < |LanguageEncodings[language]| ensures LanguageEncodings[language][j] != encoding {
      assert all[3 + j] == LanguageEncodings[language][j];
    }
  }

  /** The `baked_freqs` entries of the given passes, in order. */
  function BakedOf(codecs: Transcoder, occs: seq<Occurrence>): seq<(BakedKey, real)>
    decreases |occs|
  {
    if |occs| == 0 then []
    else BakedOf(codecs, occs[..|occs| - 1]) + WordBaked(codecs, occs[|occs| - 1])
  }

  /** Every entry is for a pair the loops try for the language of one of the passes, produced
      by transcoding that pass's word. */
  lemma {:induction false} BakedOfMembers(codecs: Transcoder, occs: seq<Occurrence>)
    requires forall o :: o in occs ==> o.language in LanguageEncodings
    ensures forall e :: e in BakedOf(codecs, occs) ==>
              exists o :: o in occs &&
                          Paired(LanguageEncodings[o.language], Encodings(o.language), e.0.encodedAs, e.0.decodedAs) &&
                          FromWord(codecs, o.word, o.freq, e)
    decreases |occs|
  {
    if |occs| > 0 {
      var prefix, last := occs[..|occs| - 1], occs[|occs| - 1];
      assert forall o :: o in prefix ==> o in occs;
      BakedOfMembers(codecs, prefix);
      PairEntriesMembers(codecs, last.word, last.freq, LanguageEncodings[last.language], Encodings(last.language));
      assert last in occs;
    }
  }

  /** Every key of the built `baked_freqs` pairs two different encodings, at least one of them
      the language's own, under which some word transcodes, without raising, into a different
      text holding the trigram. */
  lemma BakedKeys(codecs: Transcoder, occs: seq<Occurrence>)
    requires forall o :: o in occs ==> o.language in LanguageEncodings
    ensures forall k :: k in Accumulate(map[], BakedOf(codecs, occs)) ==>
              exists o :: o in occs &&
                          Paired(LanguageEncodings[o.language], Encodings(o.language), k.encodedAs, k.decodedAs) &&
                          var m := Transcode(codecs, o.word, k.encodedAs, k.decodedAs);
                          m.Some? && m.value != o.word && k.trigram in GetTrigrams(m.value)
  {
    var entries := BakedOf(codecs, occs);
    AccumulateKeys(map[], entries);
    BakedOfMembers(codecs, occs);
    forall k: BakedKey | k in Accumulate(map[], entries)
      ensures exists o :: o in occs &&
                          Paired(LanguageEncodings[o.language], Encodings(o.language), k.encodedAs, k.decodedAs) &&
                          var m := Transcode(codecs, o.word, k.encodedAs, k.decodedAs);
                          m.Some? && m.value != o.word && k.trigram in GetTrigrams(m.value)
    {
      var i :| 0 <= i < |entries| && entries[i].0 == k;
      assert entries[i] in entries;
    }
  }

  // ---------------------------------------------------------------------------------------
  // The loops themselves.

  /** The pair loops for one word: `enc1` over `own`, `enc2` over `encodings` (lines 46-62). */
  method AddPairs(tables: FreqTables, codecs: Transcoder, word: string, freq: real, own: seq<string>, encodings: seq<string>)
    modifies tables
    ensures tables.bakedFreqs == Accumulate(old(tables.bakedFreqs), PairEntries(codecs, word, freq, own, encodings))
    ensures tables.normalFreqs == old(tables.normalFreqs)
  {
    for a := 0 to |own|
      invariant tables.bakedFreqs == Accumulate(old(tables.bakedFreqs), PairEntries(codecs, word, freq, own[..a], encodings))
      invariant tables.normalFreqs == old(tables.normalFreqs)
    {
      ghost var done := PairEntries(codecs, word, freq, own[..a], encodings);
      AddRow(tables, codecs, word, freq, own[a], encodings);
      assert own[..a + 1][..a] == own[..a];
      AccumulateAppend(old(tables.bakedFreqs), done, RowEntries(codecs, word, freq, own[a], encodings));
    }
    assert own[..|own|] == own;
  }

  /** The inner loop for `enc1` (lines 47-62). */
  method AddRow(tables: FreqTables, codecs: Transcoder, word: string, freq: real, enc1: string, encodings: seq<string>)
    modifies tables
    ensures tables.bakedFreqs == Accumulate(old(tables.bakedFreqs), RowEntries(codecs, word, freq, enc1, encodings))
    ensures tables.normalFreqs == old(tables.normalFreqs)
  {
    for b := 0 to |encodings|
      invariant tables.bakedFreqs == Accumulate(old(tables.bakedFreqs), RowEntries(codecs, word, freq, enc1, encodings[..b]))
      invariant tables.normalFreqs == old(tables.normalFreqs)
    {
      var enc2 := encodings[b];
      assert encodings[..b + 1][..b] == encodings[..b];
      ghost var row := RowEntries(codecs, word, freq, enc1, encodings[..b]);
      if enc1 != enc2 {
        ghost var forward := BakeEntries(codecs, word, freq, enc1, enc2);
        ghost var backward := BakeEntries(codecs, word, freq, enc2, enc1);
        AccumulateAppend(old(tables.bakedFreqs), row, forward);
        AccumulateAppend(old(tables.bakedFreqs), row + forward, backward);
        ConcatAssoc(row, forward, backward);
        tables.TryBake(codecs, word, freq, enc1, enc2);
        tables.TryBake(codecs, word, freq, enc2, enc1);
      } else {
        assert row + [] == row;
      }
    }
    assert encodings[..|encodings|] == encodings;
  }

  /** The body of the word loop for one word (lines 42-62). */
  method AddWord(tables: FreqTables, codecs: Transcoder, occ: Occurrence)
    requires occ.language in LanguageEncodings
    modifies tables
    ensures tables.normalFreqs == Accumulate(old(tables.normalFreqs), NormalEntries(occ.word, occ.freq))
    ensures tables.bakedFreqs == Accumulate(old(tables.bakedFreqs), WordBaked(codecs, occ))
  {
    var padded := Pad(occ.word);
    tables.AddNormal(GetTrigrams(padded), occ.freq);
    var languageEncodings := LanguageEncodings[occ.language];
    AddPairs(tables, codecs, occ.word, occ.freq, languageEncodings, CommonEncodings + languageEncodings);
  }

  /** `add_language_trigrams(normal_freqs, baked_freqs, language)` (lines 38-62). */
  method AddLanguageTrigrams(tables: FreqTables, source: WordSource, codecs: Transcoder, language: string)
    requires language in LanguageEncodings
    modifies tables
    ensures tables.normalFreqs ==
              Accumulate(old(tables.normalFreqs), NormalOf(Occurrences(source, source.wordlist(language), language)))
    ensures tables.bakedFreqs ==
              Accumulate(old(tables.bakedFreqs), BakedOf(codecs, Occurrences(source, source.wordlist(language), language)))
  {
    var basewords := source.wordlist(language);
    for i := 0 to |basewords|
      invariant tables.normalFreqs == Accumulate(old(tables.normalFreqs), NormalOf(Occurrences(source, basewords[..i], language)))
      invariant tables.bakedFreqs == Accumulate(old(tables.bakedFreqs), BakedOf(codecs, Occurrences(source, basewords[..i], language)))
    {
      BasewordStep(codecs, source, basewords, i, language, old(tables.normalFreqs), old(tables.bakedFreqs));
      AddBaseword(tables, source, codecs, basewords[i], language);
    }
    assert basewords[..|basewords|] == basewords;
  }

  /** The loop over `set([baseword, baseword.upper()])` (lines 41-62). */
  method AddBaseword(tables: FreqTables, source: WordSource, codecs: Transcoder, baseword: string, language: string)
    requires language in LanguageEncodings
    modifies tables
    ensures tables.normalFreqs ==
              Accumulate(old(tables.normalFreqs), NormalOf(VariantOccurrences(source, baseword, language)))
    ensures tables.bakedFreqs ==
              Accumulate(old(tables.bakedFreqs), BakedOf(codecs, VariantOccurrences(source, baseword, language)))
  {
    var freq := source.wordFrequency(baseword, language);
    var words := Variants(source, baseword);
    ghost var variants := VariantOccurrences(source, baseword, language);
    for j := 0 to |words|
      invariant tables.normalFreqs == Accumulate(old(tables.normalFreqs), NormalOf(variants[..j]))
      invariant tables.bakedFreqs == Accumulate(old(tables.bakedFreqs), BakedOf(codecs, variants[..j]))
    {
      var occ := Occurrence(words[j], freq, language);
      VariantStep(codecs, variants, j, old(tables.normalFreqs), old(tables.bakedFreqs));
      AddWord(tables, codecs, occ);
    }
    assert variants[..|words|] == variants;
  }

  /** One more variant: its entries are accumulated after those of the variants before it. */
  lemma VariantStep(codecs: Transcoder, variants: seq<Occurrence>, j: nat,
                    normalFreqs: map<Trigram, real>, bakedFreqs: map<BakedKey, real>)
    requires j < |variants|
    ensures var occ := variants[j];
            Accumulate(normalFreqs, NormalOf(variants[..j + 1])) ==
              Accumulate(Accumulate(normalFreqs, NormalOf(variants[..j])), NormalEntries(occ.word, occ.freq)) &&
            Accumulate(bakedFreqs, BakedOf(codecs, variants[..j + 1])) ==
              Accumulate(Accumulate(bakedFreqs, BakedOf(codecs, variants[..j])), WordBaked(codecs, occ))
  {
    var occ := variants[j];
    assert variants[..j + 1][..j] == variants[..j] && variants[..j + 1][j] == occ;
    AccumulateAppend(normalFreqs, NormalOf(variants[..j]), NormalEntries(occ.word, occ.freq));
    AccumulateAppend(bakedFreqs, BakedOf(codecs, variants[..j]), WordBaked(codecs, occ));
  }

  /** `build_trigrams()` (lines 65-71): both tables, filled language by language. */
  method BuildTrigrams(source: WordSource, codecs: Transcoder) returns (tables: FreqTables)
    ensures fresh(tables)
    ensures tables.normalFreqs == Accumulate(map[], NormalOf(AllOccurrences(source, Languages)))
    ensures tables.bakedFreqs == Accumulate(map[], BakedOf(codecs, AllOccurrences(source, Languages)))
  {
    LanguagesListed();
    tables := new FreqTables();
    AddLanguages(tables, source, codecs, Languages);
  }

  /** The loop of `build_trigrams` over the given languages. */
  method AddLanguages(tables: FreqTables, source: WordSource, codecs: Transcoder, languages: seq<string>)
    requires forall language :: language in languages ==> language in LanguageEncodings
    modifies tables
    ensures tables.normalFreqs == Accumulate(old(tables.normalFreqs), NormalOf(AllOccurrences(source, languages)))
    ensures tables.bakedFreqs == Accumulate(old(tables.bakedFreqs), BakedOf(codecs, AllOccurrences(source, languages)))
  {
    for n := 0 to |languages|
      invariant tables.normalFreqs == Accumulate(old(tables.normalFreqs), NormalOf(AllOccurrences(source, languages[..n])))
      invariant tables.bakedFreqs == Accumulate(old(tables.bakedFreqs), BakedOf(codecs, AllOccurrences(source, languages[..n])))
    {
      LanguageStep(codecs, source, languages, n, old(tables.normalFreqs), old(tables.bakedFreqs));
      AddLanguageTrigrams(tables, source, codecs, languages[n]);
    }
    assert languages[..|languages|] == languages;
  }

  /** One more base word: its passes are accumulated after those of the base words before it. */
  lemma BasewordStep(codecs: Transcoder, source: WordSource, basewords: seq<string>, i: nat, language: string,
                     normalFreqs: map<Trigram, real>, bakedFreqs: map<BakedKey, real>)
    requires i < |basewords|
    ensures var done, added := Occurrences(source, basewords[..i], language), VariantOccurrences(source, basewords[i], language);
            Accumulate(normalFreqs, NormalOf(Occurrences(source, basewords[..i + 1], language))) ==
              Accumulate(Accumulate(normalFreqs, NormalOf(done)), NormalOf(added)) &&
            Accumulate(bakedFreqs, BakedOf(codecs, Occurrences(source, basewords[..i + 1], language))) ==
              Accumulate(Accumulate(bakedFreqs, BakedOf(codecs, done)), BakedOf(codecs, added))
  {
    var done, added := Occurrences(source, basewords[..i], language), VariantOccurrences(source, basewords[i], language);
    assert basewords[..i + 1][..i] == basewords[..i];
    assert Occurrences(source, basewords[..i + 1], language) == done + added;
    AccumulateRuns(codecs, normalFreqs, bakedFreqs, done, added);
  }

  /** One more language: its passes are accumulated after those of the languages before it. */
  lemma LanguageStep(codecs: Transcoder, source: WordSource, languages: seq<string>, n: nat,
                     normalFreqs: map<Trigram, real>, bakedFreqs: map<BakedKey, real>)
    requires n < |languages|
    ensures var done := AllOccurrences(source, languages[..n]);
            var added := Occurrences(source, source.wordlist(languages[n]), languages[n]);
            Accumulate(normalFreqs, NormalOf(AllOccurrences(source, languages[..n + 1]))) ==
              Accumulate(Accumulate(normalFreqs, NormalOf(done)), NormalOf(added)) &&
            Accumulate(bakedFreqs, BakedOf(codecs, AllOccurrences(source, languages[..n + 1]))) ==
              Accumulate(Accumulate(bakedFreqs, BakedOf(codecs, done)), BakedOf(codecs, added))
  {
    var done := AllOccurrences(source, languages[..n]);
    var added := Occurrences(source, source.wordlist(languages[n]), languages[n]);
    assert languages[..n + 1][..n] == languages[..n];
    AccumulateRuns(codecs, normalFreqs, bakedFreqs, done, added);
  }

  /** Two consecutive runs of passes fill both tables as the first run and then the second. */
  lemma AccumulateRuns(codecs: Transcoder, normalFreqs: map<Trigram, real>, bakedFreqs: map<BakedKey, real>,
                       a: seq<Occurrence>, b: seq<Occurrence>)
    ensures Accumulate(normalFreqs, NormalOf(a + b)) == Accumulate(Accumulate(normalFreqs, NormalOf(a)), NormalOf(b))
    ensures Accumulate(bakedFreqs, BakedOf(codecs, a + b)) ==
              Accumulate(Accumulate(bakedFreqs, BakedOf(codecs, a)), BakedOf(codecs, b))
  {
    NormalOfAppend(a, b);
    BakedOfAppend(codecs, a, b);
    AccumulateAppend(normalFreqs, NormalOf(a), NormalOf(b));
    AccumulateAppend(bakedFreqs, BakedOf(codecs, a), BakedOf(codecs, b));
  }

  /** Entries of consecutive runs of passes are consecutive. */
  lemma {:induction false} BakedOfAppend(codecs: Transcoder, a: seq<Occurrence>, b: seq<Occurrence>)
    ensures BakedOf(codecs, a + b) == BakedOf(codecs, a) + BakedOf(codecs, b)
    decreases |b|
  {
    if |b| == 0 {
      assert a + b == a;
    } else {
      var ab := a + b;
      var prefix := b[..|b| - 1];
      assert ab[..|ab| - 1] == a + prefix;
      assert ab[|ab| - 1] == b[|b| - 1];
      BakedOfAppend(codecs, a, prefix);
      assert BakedOf(codecs, ab) == BakedOf(codecs, a + prefix) + WordBaked(codecs, b[|b| - 1]);
      ConcatAssoc(BakedOf(codecs, a), BakedOf(codecs, prefix), WordBaked(codecs, b[|b| - 1]));
    }
  }

  // ---------------------------------------------------------------------------------------
  // Selection.

  /** `find_mojibake(normal_freqs, baked_freqs)` (lines 97-105). `keys` is the dict's iteration
      order, which lists each key once. */
  method FindMojibake(normalFreqs: map<Trigram, real>, bakedFreqs: map<BakedKey, real>, keys: seq<BakedKey>,
                      oracles: CharOracles)
    returns (found: seq<Item>)
    requires forall k :: k in bakedFreqs <==> k in keys
    requires NoDuplicates(keys)
    ensures found == Top(Candidates(normalFreqs, bakedFreqs, keys, oracles, Suspicious), 20000)
    ensures |found| <= 20000
    ensures Sorted(found, Greater)
    ensures forall it :: it in found ==>
              it.trigram !in normalFreqs && oracles.lower(it.trigram) !in normalFreqs &&
              !ExcludeTrigram(oracles, it.trigram)
    ensures forall it :: it in found ==> exists k :: k in bakedFreqs && it == ItemOf(k, bakedFreqs[k])
  {
    found := FindMojibakeWith(normalFreqs, bakedFreqs, keys, oracles, Suspicious, 20000);
  }
}
