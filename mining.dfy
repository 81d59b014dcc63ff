/** What the two mojibake miners, `scripts/mojibakery.py` and `ftfy/mojibakery/find_mojibake.py`,
    have in common: trigram extraction, the two frequency tables (`defaultdict(float)`), the
    exclusion filter, the selection and ranking of the survivors and the grouping that
    `write_detector` does before it writes its file.

    Word lists, word frequencies, case mapping, the library codecs, `chars_to_classes`,
    canonical decomposition and `wordfreq.simple_tokenize` are not part of this model: they are
    the fields of `WordSource`, `Transcoder` and `CharOracles`. Frequencies are exact reals. */
module Mining {
  import opened Wrappers
  import opened Ordering

  /** A three-character window. */
  type Trigram = s: string | |s| == 3 witness "   "

  /** `get_trigrams(text)`: the windows `text[pos:pos+3]` for `pos` in `range(0, len(text) - 2)`. */
  function GetTrigrams(text: string): (r: seq<Trigram>)
    ensures |r| == if |text| < 2 then 0 else |text| - 2
    ensures forall i :: 0 <= i < |r| ==> r[i] == text[i..i + 3]
  {
    if |text| < 3 then []
    else GetTrigrams(text[..|text| - 1]) + [text[|text| - 3..]]
  }

  /** `' %s ' % word`. */
  function Pad(word: string): (r: string)
    ensures |r| == |word| + 2 && r[0] == ' ' && r[|r| - 1] == ' ' && r[1..|r| - 1] == word
  {
    " " + word + " "
  }

  // ---------------------------------------------------------------------------------------
  // `defaultdict(float)` and `+=`.

  /** `freqs[key]` on a `defaultdict(float)`: a missing key reads as 0.0. */
  function Get<K(==)>(freqs: map<K, real>, key: K): real
  {
    if key in freqs then freqs[key] else 0.0
  }

  /** The table after `freqs[key] += freq` for each `(key, freq)` in turn. */
  function Accumulate<K(==)>(freqs: map<K, real>, entries: seq<(K, real)>): map<K, real>
    decreases |entries|
  {
    if |entries| == 0 then freqs
    else
      var before := Accumulate(freqs, entries[..|entries| - 1]);
      var (key, freq) := entries[|entries| - 1];
      before[key := Get(before, key) + freq]
  }

  /** The sum of the weights `entries` give to `key`. */
  function Total<K(==)>(entries: seq<(K, real)>, key: K): real
    decreases |entries|
  {
    if |entries| == 0 then 0.0
    else Total(entries[..|entries| - 1], key) + (if entries[|entries| - 1].0 == key then entries[|entries| - 1].1 else 0.0)
  }

  /** Each key of `keys` with the same weight. */
  function Weighted<K(==)>(keys: seq<K>, freq: real): (r: seq<(K, real)>)
    ensures |r| == |keys|
    decreases |keys|
  {
    if |keys| == 0 then [] else Weighted(keys[..|keys| - 1], freq) + [(keys[|keys| - 1], freq)]
  }

  /** Entry `i` is key `i` with the common weight. */
  lemma {:induction false} WeightedAt<K>(keys: seq<K>, freq: real)
    ensures forall i :: 0 <= i < |keys| ==> Weighted(keys, freq)[i] == (keys[i], freq)
    decreases |keys|
  {
    if |keys| > 0 {
      WeightedAt(keys[..|keys| - 1], freq);
    }
  }

  /** One more key, one more `+=`. */
  lemma WeightedSnoc<K>(freqs: map<K, real>, keys: seq<K>, i: nat, freq: real)
    requires i < |keys|
    ensures var before := Accumulate(freqs, Weighted(keys[..i], freq));
            Accumulate(freqs, Weighted(keys[..i + 1], freq)) == before[keys[i] := Get(before, keys[i]) + freq]
  {
    assert keys[..i + 1][..i] == keys[..i];
    var w := Weighted(keys[..i], freq) + [(keys[i], freq)];
    assert w[..i] == Weighted(keys[..i], freq);
  }

  /** Every key ends up holding what it held (or 0.0) plus all the weight given to it. */
  lemma {:induction false} AccumulateGet<K>(freqs: map<K, real>, entries: seq<(K, real)>, key: K)
    ensures Get(Accumulate(freqs, entries), key) == Get(freqs, key) + Total(entries, key)
    decreases |entries|
  {
    if |entries| > 0 {
      AccumulateGet(freqs, entries[..|entries| - 1], key);
    }
  }

  /** The keys afterwards are those before plus every key that received a weight. */
  lemma {:induction false} AccumulateKeys<K>(freqs: map<K, real>, entries: seq<(K, real)>)
    ensures Accumulate(freqs, entries).Keys == freqs.Keys + (set i | 0 <= i < |entries| :: entries[i].0)
    decreases |entries|
  {
    if |entries| > 0 {
      var prefix := entries[..|entries| - 1];
      AccumulateKeys(freqs, prefix);
      assert (set i | 0 <= i < |entries| :: entries[i].0)
          == (set i | 0 <= i < |prefix| :: prefix[i].0) + {entries[|entries| - 1].0} by {
        forall i | 0 <= i < |prefix| ensures prefix[i].0 == entries[i].0 { }
        var a := set i | 0 <= i < |entries| :: entries[i].0;
        var b := (set i | 0 <= i < |prefix| :: prefix[i].0) + {entries[|entries| - 1].0};
        forall k | k in a ensures k in b {
          var i :| 0 <= i < |entries| && entries[i].0 == k;
          if i < |prefix| { assert prefix[i].0 == k; }
        }
        forall k | k in b ensures k in a {
          if k in (set i | 0 <= i < |prefix| :: prefix[i].0) {
            var i :| 0 <= i < |prefix| && prefix[i].0 == k;
            assert entries[i].0 == k;
          } else {
            assert entries[|entries| - 1].0 == k;
          }
        }
      }
    }
  }

  /** Accumulating two runs of entries is accumulating the first and then the second. */
  lemma {:induction false} AccumulateAppend<K>(freqs: map<K, real>, a: seq<(K, real)>, b: seq<(K, real)>)
    ensures Accumulate(freqs, a + b) == Accumulate(Accumulate(freqs, a), b)
    decreases |b|
  {
    if |b| == 0 {
      assert a + b == a;
    } else {
      assert (a + b)[..|a + b| - 1] == a + b[..|b| - 1];
      AccumulateAppend(freqs, a, b[..|b| - 1]);
    }
  }

  /** The weight of a key is additive over runs of entries, so the order in which two runs are
      accumulated (for example the two cases of `set([baseword, baseword.upper()])`) does not
      change the table. */
  lemma {:induction false} TotalAppend<K>(a: seq<(K, real)>, b: seq<(K, real)>, key: K)
    ensures Total(a + b, key) == Total(a, key) + Total(b, key)
    decreases |b|
  {
    if |b| == 0 {
      assert a + b == a;
    } else {
      assert (a + b)[..|a + b| - 1] == a + b[..|b| - 1];
      TotalAppend(a, b[..|b| - 1], key);
    }
  }

  /** The keys carried by `a + b` are among those carried by `b + a`. */
  lemma SwappedKeys<K>(a: seq<(K, real)>, b: seq<(K, real)>)
    ensures (set i | 0 <= i < |a + b| :: (a + b)[i].0) <= (set i | 0 <= i < |b + a| :: (b + a)[i].0)
  {
    var before, after := set i | 0 <= i < |a + b| :: (a + b)[i].0, set i | 0 <= i < |b + a| :: (b + a)[i].0;
    forall k | k in before ensures k in after {
      var i :| 0 <= i < |a + b| && (a + b)[i].0 == k;
      if i < |a| {
        assert (b + a)[|b| + i] == a[i];
      } else {
        assert (b + a)[i - |a|] == b[i - |a|];
      }
    }
  }

  /** Two runs of entries accumulated in either order give the same table: each key's weight is
      the sum of what the two runs give it (`TotalAppend`), and the keys are the same. This is why
      the iteration order of `set([baseword, baseword.upper()])` does not change the tables. */
  lemma AccumulateSwap<K>(freqs: map<K, real>, a: seq<(K, real)>, b: seq<(K, real)>)
    ensures Accumulate(freqs, a + b) == Accumulate(freqs, b + a)
  {
    var ab, ba := Accumulate(freqs, a + b), Accumulate(freqs, b + a);
    assert ab.Keys == ba.Keys by {
      AccumulateKeys(freqs, a + b);
      AccumulateKeys(freqs, b + a);
      SwappedKeys(a, b);
      SwappedKeys(b, a);
    }
    forall k | k in ab ensures ab[k] == ba[k] {
      AccumulateGet(freqs, a + b, k);
      AccumulateGet(freqs, b + a, k);
      TotalAppend(a, b, k);
      TotalAppend(b, a, k);
    }
  }

  /** `n` times the weight `freq`, added up. */
  function Times(n: nat, freq: real): real
  {
    if n == 0 then 0.0 else Times(n - 1, freq) + freq
  }

  /** Adding up `n` copies of `freq` is multiplying by `n`. */
  lemma {:induction false} TimesIsProduct(n: nat, freq: real)
    ensures Times(n, freq) == n as real * freq
  {
    if n > 0 {
      TimesIsProduct(n - 1, freq);
      assert n as real * freq == (n - 1) as real * freq + freq;
    }
  }

  /** A key listed `n` times with weight `freq` receives `n` times `freq`. */
  lemma {:induction false} TotalWeighted<K>(keys: seq<K>, freq: real, key: K)
    ensures Total(Weighted(keys, freq), key) == Times(multiset(keys)[key], freq)
    decreases |keys|
  {
    if |keys| > 0 {
      var prefix, last := keys[..|keys| - 1], keys[|keys| - 1];
      TotalWeighted(prefix, freq, key);
      assert multiset(keys)[key] == multiset(prefix)[key] + (if last == key then 1 else 0) by {
        assert keys == prefix + [last];
        assert multiset(keys) == multiset(prefix) + multiset{last};
      }
      var w := Weighted(prefix, freq) + [(last, freq)];
      assert w[..|w| - 1] == Weighted(prefix, freq);
    }
  }

  // ---------------------------------------------------------------------------------------
  // Words and their mojibake.

  /** `wordfreq.iter_wordlist`, `wordfreq.word_frequency` and `str.upper`. */
  datatype WordSource = WordSource(
    wordlist: string -> seq<string>,
    wordFrequency: (string, string) -> real,
    upper: string -> string)

  /** The words of `set([baseword, baseword.upper()])`, once each. */
  function Variants(source: WordSource, baseword: string): (r: seq<string>)
    ensures 1 <= |r| <= 2 && r[0] == baseword
    ensures forall w :: w in r <==> w == baseword || w == source.upper(baseword)
    ensures |r| == 2 ==> r[0] != r[1]
  {
    var upper := source.upper(baseword);
    if upper == baseword then [baseword] else [baseword, upper]
  }

  /** The clean trigrams of one word, each weighted by the word's frequency (lines 69-71 of
      `scripts/mojibakery.py`). */
  function NormalEntries(word: string, freq: real): seq<(Trigram, real)>
  {
    Weighted(GetTrigrams(Pad(word)), freq)
  }

  /** `str.encode(encoding)` and `bytes.decode(encoding)` under the strict policy; None is a
      UnicodeError. Every encoding name is taken to resolve: a LookupError is not modelled. */
  datatype Transcoder = Transcoder(
    encode: (string, string) -> Option<seq<Byte>>,
    decode: (seq<Byte>, string) -> Option<string>)

  /** `word.encode(encodedAs).decode(decodedAs)`, or None when either step raises. */
  function Transcode(codecs: Transcoder, word: string, encodedAs: string, decodedAs: string): Option<string>
  {
    match codecs.encode(word, encodedAs)
    case None => None
    case Some(bytes) => codecs.decode(bytes, decodedAs)
  }

  /** A `baked_freqs` key: the trigram, the encoding the bytes were wrongly decoded as, and the
      encoding they were really in. */
  datatype BakedKey = BakedKey(trigram: Trigram, decodedAs: string, encodedAs: string)

  /** The keys `(trigram, decodedAs, encodedAs)` for the given trigrams. */
  function Keyed(trigrams: seq<Trigram>, decodedAs: string, encodedAs: string): (r: seq<BakedKey>)
    ensures |r| == |trigrams|
    ensures forall i :: 0 <= i < |r| ==> r[i] == BakedKey(trigrams[i], decodedAs, encodedAs)
  {
    seq(|trigrams|, i requires 0 <= i < |trigrams| => BakedKey(trigrams[i], decodedAs, encodedAs))
  }

  /** One `try` block of `add_language_trigrams`: encode with `encodedAs`, decode with
      `decodedAs`, and when that succeeds with a different text, weigh each of its trigrams. A
      UnicodeError, or a result equal to the word, adds nothing. */
  function BakeEntries(codecs: Transcoder, word: string, freq: real, encodedAs: string, decodedAs: string)
    : seq<(BakedKey, real)>
  {
    match Transcode(codecs, word, encodedAs, decodedAs)
    case None => []
    case Some(mojibaked) =>
      if mojibaked != word then Weighted(Keyed(GetTrigrams(mojibaked), decodedAs, encodedAs), freq)
      else []
  }

  /** An entry that transcoding `word` under the entry's own pair of encodings produced: the
      transcoding succeeded, changed the word, and the trigram occurs in its result. */
  predicate FromWord(codecs: Transcoder, word: string, freq: real, e: (BakedKey, real))
  {
    var m := Transcode(codecs, word, e.0.encodedAs, e.0.decodedAs);
    e.1 == freq && m.Some? && m.value != word && e.0.trigram in GetTrigrams(m.value)
  }

  /** A `try` block adds entries only when both steps succeed and change the word, and each of
      them is a trigram of the result under exactly the block's pair of encodings, with the
      word's frequency. */
  lemma BakeEntriesMembers(codecs: Transcoder, word: string, freq: real, encodedAs: string, decodedAs: string)
    ensures var m := Transcode(codecs, word, encodedAs, decodedAs);
            |BakeEntries(codecs, word, freq, encodedAs, decodedAs)| > 0 ==> m.Some? && m.value != word
    ensures forall e :: e in BakeEntries(codecs, word, freq, encodedAs, decodedAs) ==>
              e.0.decodedAs == decodedAs && e.0.encodedAs == encodedAs && FromWord(codecs, word, freq, e)
  {
    var r := BakeEntries(codecs, word, freq, encodedAs, decodedAs);
    var m := Transcode(codecs, word, encodedAs, decodedAs);
    if m.Some? && m.value != word {
      var keys := Keyed(GetTrigrams(m.value), decodedAs, encodedAs);
      WeightedAt(keys, freq);
      forall e | e in r
        ensures e.0.decodedAs == decodedAs && e.0.encodedAs == encodedAs && FromWord(codecs, word, freq, e)
      {
        var i :| 0 <= i < |r| && r[i] == e;
        assert e == (keys[i], freq);
      }
    }
  }

  /** What one `try` block gives each key: the word's frequency for every occurrence of the
      trigram in the mojibake it produced, under exactly its own pair of encodings. */
  lemma BakedWeight(codecs: Transcoder, word: string, freq: real, encodedAs: string, decodedAs: string, key: BakedKey)
    ensures var m := Transcode(codecs, word, encodedAs, decodedAs);
            Total(BakeEntries(codecs, word, freq, encodedAs, decodedAs), key) ==
              if m.Some? && m.value != word && key.decodedAs == decodedAs && key.encodedAs == encodedAs
              then Times(multiset(GetTrigrams(m.value))[key.trigram], freq)
              else 0.0
  {
    var m := Transcode(codecs, word, encodedAs, decodedAs);
    var entries := BakeEntries(codecs, word, freq, encodedAs, decodedAs);
    if m.Some? && m.value != word {
      var keys := Keyed(GetTrigrams(m.value), decodedAs, encodedAs);
      TotalWeighted(keys, freq, key);
      if key.decodedAs == decodedAs && key.encodedAs == encodedAs {
        KeyedCount(GetTrigrams(m.value), decodedAs, encodedAs, key.trigram);
      } else {
        assert key !in keys;
        assert multiset(keys)[key] == 0;
      }
    }
  }

  /** Labelling trigrams with one pair of encodings keeps their multiplicities. */
  lemma {:induction false} KeyedCount(trigrams: seq<Trigram>, decodedAs: string, encodedAs: string, t: Trigram)
    ensures multiset(Keyed(trigrams, decodedAs, encodedAs))[BakedKey(t, decodedAs, encodedAs)] == multiset(trigrams)[t]
    decreases |trigrams|
  {
    if |trigrams| > 0 {
      var prefix := trigrams[..|trigrams| - 1];
      var keys := Keyed(trigrams, decodedAs, encodedAs);
      KeyedCount(prefix, decodedAs, encodedAs, t);
      assert keys == Keyed(prefix, decodedAs, encodedAs) + [keys[|keys| - 1]];
      assert trigrams == prefix + [trigrams[|trigrams| - 1]];
    }
  }

  /** A key no entry carries receives nothing. */
  lemma {:induction false} TotalAbsent<K>(entries: seq<(K, real)>, key: K)
    requires forall e :: e in entries ==> e.0 != key
    ensures Total(entries, key) == 0.0
    decreases |entries|
  {
    if |entries| > 0 {
      assert entries[|entries| - 1] in entries;
      TotalAbsent(entries[..|entries| - 1], key);
    }
  }

  // ---------------------------------------------------------------------------------------
  // The word loop of `add_language_trigrams`.

  /** One pass of the loop body: a word (a base word or its upper-case form), the frequency of
      its base word, and the language. */
  datatype Occurrence = Occurrence(word: string, freq: real, language: string)

  /** The passes for one base word: one per word of `set([baseword, baseword.upper()])`. */
  function VariantOccurrences(source: WordSource, baseword: string, language: string): (r: seq<Occurrence>)
    ensures |r| == |Variants(source, baseword)|
    ensures forall i :: 0 <= i < |r| ==>
              r[i] == Occurrence(Variants(source, baseword)[i], source.wordFrequency(baseword, language), language)
  {
    var words := Variants(source, baseword);
    var freq := source.wordFrequency(baseword, language);
    seq(|words|, i requires 0 <= i < |words| => Occurrence(words[i], freq, language))
  }

  /** The passes for the given base words of `language`, in order. */
  function Occurrences(source: WordSource, basewords: seq<string>, language: string): (r: seq<Occurrence>)
    ensures forall o :: o in r ==> o.language == language
    decreases |basewords|
  {
    if |basewords| == 0 then []
    else
      Occurrences(source, basewords[..|basewords| - 1], language) +
        VariantOccurrences(source, basewords[|basewords| - 1], language)
  }

  /** Every pass is a base word or its upper-case form, weighted by the base word's frequency,
      and both forms of every base word get a pass. */
  lemma {:induction false} OccurrencesMembers(source: WordSource, basewords: seq<string>, language: string)
    ensures forall o :: o in Occurrences(source, basewords, language) ==>
              exists b :: b in basewords && o.freq == source.wordFrequency(b, language) &&
                          (o.word == b || o.word == source.upper(b))
    ensures forall b :: b in basewords ==>
              Occurrence(b, source.wordFrequency(b, language), language) in Occurrences(source, basewords, language)
    ensures forall b :: b in basewords ==>
              Occurrence(source.upper(b), source.wordFrequency(b, language), language) in Occurrences(source, basewords, language)
    decreases |basewords|
  {
    if |basewords| > 0 {
      var prefix, last := basewords[..|basewords| - 1], basewords[|basewords| - 1];
      OccurrencesMembers(source, prefix, language);
      VariantOccurrencesMembers(source, last, language);
      assert forall b :: b in basewords ==> b in prefix || b == last;
      assert last in basewords;
    }
  }

  /** The passes for one base word are its two forms, with the base word's frequency. */
  lemma VariantOccurrencesMembers(source: WordSource, baseword: string, language: string)
    ensures forall o :: o in VariantOccurrences(source, baseword, language) ==>
              o.freq == source.wordFrequency(baseword, language) && (o.word == baseword || o.word == source.upper(baseword))
    ensures Occurrence(baseword, source.wordFrequency(baseword, language), language) in VariantOccurrences(source, baseword, language)
    ensures Occurrence(source.upper(baseword), source.wordFrequency(baseword, language), language) in
              VariantOccurrences(source, baseword, language)
  {
    var words, occs := Variants(source, baseword), VariantOccurrences(source, baseword, language);
    assert occs[0] == Occurrence(baseword, source.wordFrequency(baseword, language), language);
    var i :| 0 <= i < |words| && words[i] == source.upper(baseword);
    assert occs[i] == Occurrence(source.upper(baseword), source.wordFrequency(baseword, language), language);
  }

  /** The passes of the whole build, language by language. */
  function AllOccurrences(source: WordSource, languages: seq<string>): (r: seq<Occurrence>)
    ensures forall o :: o in r ==> o.language in languages
    decreases |languages|
  {
    if |languages| == 0 then []
    else
      var prefix, last := languages[..|languages| - 1], languages[|languages| - 1];
      AllOccurrences(source, prefix) + Occurrences(source, source.wordlist(last), last)
  }

  /** The `normal_freqs` entries of the given passes, in order. */
  function NormalOf(occs: seq<Occurrence>): seq<(Trigram, real)>
    decreases |occs|
  {
    if |occs| == 0 then []
    else NormalOf(occs[..|occs| - 1]) + NormalEntries(occs[|occs| - 1].word, occs[|occs| - 1].freq)
  }

  /** Every entry is a trigram of a padded word with that word's frequency, and every trigram of
      every padded word has an entry. */
  lemma {:induction false} NormalOfMembers(occs: seq<Occurrence>)
    ensures forall e :: e in NormalOf(occs) ==> exists o :: o in occs && e.0 in GetTrigrams(Pad(o.word)) && e.1 == o.freq
    ensures forall o, t :: o in occs && t in GetTrigrams(Pad(o.word)) ==> (t, o.freq) in NormalOf(occs)
    decreases |occs|
  {
    if |occs| > 0 {
      var prefix, last := occs[..|occs| - 1], occs[|occs| - 1];
      NormalOfMembers(prefix);
      assert forall o :: o in occs ==> o in prefix || o == last;
      NormalEntriesMembers(last.word, last.freq);
    }
  }

  /** Entries of consecutive runs of passes are consecutive. */
  lemma {:induction false} NormalOfAppend(a: seq<Occurrence>, b: seq<Occurrence>)
    ensures NormalOf(a + b) == NormalOf(a) + NormalOf(b)
    decreases |b|
  {
    if |b| == 0 {
      assert a + b == a;
      assert NormalOf(a) + NormalOf(b) == NormalOf(a) + [] == NormalOf(a);
    } else {
      var ab, last := a + b, b[|b| - 1];
      assert ab[..|ab| - 1] == a + b[..|b| - 1] && ab[|ab| - 1] == last;
      NormalOfAppend(a, b[..|b| - 1]);
      assert NormalOf(ab) == NormalOf(a + b[..|b| - 1]) + NormalEntries(last.word, last.freq);
      assert NormalOf(b) == NormalOf(b[..|b| - 1]) + NormalEntries(last.word, last.freq);
      ConcatAssoc(NormalOf(a), NormalOf(b[..|b| - 1]), NormalEntries(last.word, last.freq));
    }
  }

  lemma ConcatAssoc<T>(x: seq<T>, y: seq<T>, z: seq<T>)
    ensures (x + y) + z == x + (y + z)
  {
  }

  /** The entries of one word are its padded trigrams, each with the word's frequency. */
  lemma NormalEntriesMembers(word: string, freq: real)
    ensures forall e :: e in NormalEntries(word, freq) ==> e.0 in GetTrigrams(Pad(word)) && e.1 == freq
    ensures forall t :: t in GetTrigrams(Pad(word)) ==> (t, freq) in NormalEntries(word, freq)
  {
    var trigrams := GetTrigrams(Pad(word));
    WeightedAt(trigrams, freq);
    forall t | t in trigrams ensures (t, freq) in NormalEntries(word, freq) {
      var i :| 0 <= i < |trigrams| && trigrams[i] == t;
      assert NormalEntries(word, freq)[i] == (t, freq);
    }
  }

  /** `normal_freqs` ends up holding exactly the trigrams of the padded words, and whatever it
      held before. */
  lemma NormalKeys(freqs: map<Trigram, real>, occs: seq<Occurrence>)
    ensures forall t :: t in Accumulate(freqs, NormalOf(occs)) <==>
              t in freqs || exists o :: o in occs && t in GetTrigrams(Pad(o.word))
  {
    var entries := NormalOf(occs);
    AccumulateKeys(freqs, entries);
    NormalOfMembers(occs);
    forall t | t in Accumulate(freqs, entries) && t !in freqs ensures exists o :: o in occs && t in GetTrigrams(Pad(o.word)) {
      var i :| 0 <= i < |entries| && entries[i].0 == t;
      assert entries[i] in entries;
    }
    forall o, t | o in occs && t in GetTrigrams(Pad(o.word)) ensures t in Accumulate(freqs, entries) {
      assert (t, o.freq) in entries;
      var i :| 0 <= i < |entries| && entries[i] == (t, o.freq);
      assert t in (set i | 0 <= i < |entries| :: entries[i].0);
    }
  }

  /** A word adds its frequency to a trigram once per occurrence of the trigram in the padded
      word. */
  lemma NormalWeight(word: string, freq: real, t: Trigram)
    ensures Total(NormalEntries(word, freq), t) == Times(multiset(GetTrigrams(Pad(word)))[t], freq)
  {
    TotalWeighted(GetTrigrams(Pad(word)), freq, t);
  }

  /** The last element of a sequence without duplicates does not occur before it. */
  lemma LastNotInPrefix<T>(xs: seq<T>)
    requires NoDuplicates(xs) && |xs| > 0
    ensures NoDuplicates(xs[..|xs| - 1])
    ensures xs[|xs| - 1] !in xs[..|xs| - 1]
  {
    forall i | 0 <= i < |xs| - 1 ensures xs[i] != xs[|xs| - 1] {
    }
    assert forall i :: 0 <= i < |xs| - 1 ==> xs[..|xs| - 1][i] == xs[i];
  }

  // ---------------------------------------------------------------------------------------
  // The two tables.

  /** `normal_freqs` and `baked_freqs`. */
  class FreqTables {
    var normalFreqs: map<Trigram, real>
    var bakedFreqs: map<BakedKey, real>

    /** Two empty `defaultdict(float)`s (`build_trigrams`). */
    constructor ()
      ensures normalFreqs == map[] && bakedFreqs == map[]
    {
      normalFreqs := map[];
      bakedFreqs := map[];
    }

    /** `for trigram in trigrams: normal_freqs[trigram] += freq`. */
    method AddNormal(trigrams: seq<Trigram>, freq: real)
      modifies this
      ensures normalFreqs == Accumulate(old(normalFreqs), Weighted(trigrams, freq))
      ensures bakedFreqs == old(bakedFreqs)
    {
      for i := 0 to |trigrams|
        invariant normalFreqs == Accumulate(old(normalFreqs), Weighted(trigrams[..i], freq))
        invariant bakedFreqs == old(bakedFreqs)
      {
        WeightedSnoc(old(normalFreqs), trigrams, i, freq);
        normalFreqs := normalFreqs[trigrams[i] := Get(normalFreqs, trigrams[i]) + freq];
      }
      assert trigrams[..|trigrams|] == trigrams;
    }

    /** `for trigram in trigrams: baked_freqs[(trigram, decodedAs, encodedAs)] += freq`. */
    method AddBaked(trigrams: seq<Trigram>, decodedAs: string, encodedAs: string, freq: real)
      modifies this
      ensures bakedFreqs == Accumulate(old(bakedFreqs), Weighted(Keyed(trigrams, decodedAs, encodedAs), freq))
      ensures normalFreqs == old(normalFreqs)
    {
      ghost var keys := Keyed(trigrams, decodedAs, encodedAs);
      for i := 0 to |trigrams|
        invariant bakedFreqs == Accumulate(old(bakedFreqs), Weighted(keys[..i], freq))
        invariant normalFreqs == old(normalFreqs)
      {
        var key := BakedKey(trigrams[i], decodedAs, encodedAs);
        assert key == keys[i];
        assert Accumulate(old(bakedFreqs), Weighted(keys[..i + 1], freq)) == bakedFreqs[key := Get(bakedFreqs, key) + freq] by {
          WeightedSnoc(old(bakedFreqs), keys, i, freq);
        }
        bakedFreqs := bakedFreqs[key := Get(bakedFreqs, key) + freq];
      }
      assert keys[..|trigrams|] == keys;
    }

    /** One `try` block: transcode, and on a changed result record its trigrams. */
    method TryBake(codecs: Transcoder, word: string, freq: real, encodedAs: string, decodedAs: string)
      modifies this
      ensures bakedFreqs == Accumulate(old(bakedFreqs), BakeEntries(codecs, word, freq, encodedAs, decodedAs))
      ensures normalFreqs == old(normalFreqs)
    {
      var encoded := codecs.encode(word, encodedAs);
      if encoded.Some? {
        var mojibaked := codecs.decode(encoded.value, decodedAs);
        if mojibaked.Some? && mojibaked.value != word {
          AddBaked(GetTrigrams(mojibaked.value), decodedAs, encodedAs, freq);
        }
      }
    }
  }

  // ---------------------------------------------------------------------------------------
  // The exclusion filter (`exclude_trigram`).

  /** `chars_to_classes`, `normalize('NFD', ...)`, `str.lower` and `wordfreq.simple_tokenize`. */
  datatype CharOracles = CharOracles(
    charsToClasses: string -> string,
    nfd: string -> string,
    lower: string -> string,
    simpleTokenize: string -> seq<string>)

  /** `EXCLUDE_CLASSES`: letter-case and script shapes of plausible natural spellings. */
  const ExcludeClasses: set<string> := {
    "LLL", "Lll", "lLl", "llL", "lll", "AAA", "Aaa", "aAa", "aaA", "aaa",
    "CCC", "CCM", "CMC", "MCC", "CMM", "MCM", "MMC"}

  /** `exclude_trigram`, over the miner's own set of suspicious characters: three equal
      characters, any suspicious character, or a natural-spelling shape with at most two extra
      code points after canonical decomposition. */
  function ExcludeTrigramWith(suspicious: set<char>, oracles: CharOracles, trigram: Trigram): (r: bool)
    ensures trigram[0] == trigram[1] == trigram[2] ==> r
    ensures trigram[0] in suspicious || trigram[1] in suspicious || trigram[2] in suspicious ==> r
    ensures oracles.charsToClasses(trigram) in ExcludeClasses && |oracles.nfd(trigram)| <= 5 ==> r
    // and nothing else excludes a trigram
    ensures r ==> trigram[0] == trigram[1] == trigram[2] ||
                  trigram[0] in suspicious || trigram[1] in suspicious || trigram[2] in suspicious ||
                  (oracles.charsToClasses(trigram) in ExcludeClasses && |oracles.nfd(trigram)| <= 5)
  {
    if trigram[0] == trigram[1] && trigram[1] == trigram[2] then true
    else if exists i :: 0 <= i < |trigram| && trigram[i] in suspicious then true
    else oracles.charsToClasses(trigram) in ExcludeClasses && |oracles.nfd(trigram)| <= 5
  }

  // ---------------------------------------------------------------------------------------
  // Selection and ranking (`find_mojibake`).

  /** `(int(freq * 1e6), trigram, encoder, decoder)`; `encoder` and `decoder` are the second and
      third parts of the key, in that order. */
  datatype Item = Item(score: int, trigram: Trigram, encoder: string, decoder: string)

  /** Python's `int(x)`: truncation toward zero. */
  function Truncate(x: real): (r: int)
    ensures 0.0 <= x ==> r as real <= x < r as real + 1.0
    ensures x < 0.0 ==> r as real - 1.0 < x <= r as real
  {
    if x >= 0.0 then x.Floor else -((-x).Floor)
  }

  /** `int(freq * 1e6)`. */
  function Score(freq: real): int
  {
    Truncate(freq * 1000000.0)
  }

  /** A higher frequency never gets a lower score. */
  lemma ScoreMonotone(f: real, g: real)
    requires f <= g
    ensures Score(f) <= Score(g)
  {
    var x, y := f * 1000000.0, g * 1000000.0;
    assert x <= y;
    if x >= 0.0 {
      assert x.Floor <= y.Floor;
    } else if y < 0.0 {
      assert (-y).Floor <= (-x).Floor;
    }
  }

  /** Python's tuple order on items. */
  predicate ItemLess(a: Item, b: Item)
  {
    a.score < b.score ||
    (a.score == b.score && (StrLess(a.trigram, b.trigram) ||
    (a.trigram == b.trigram && (StrLess(a.encoder, b.encoder) ||
    (a.encoder == b.encoder && StrLess(a.decoder, b.decoder))))))
  }

  /** The order of `sort(reverse=True)`: `a` comes before `b` when it is greater. */
  predicate Greater(a: Item, b: Item)
  {
    ItemLess(b, a)
  }

  /** Tuple order is a strict total order, and so is its reverse. */
  lemma GreaterIsStrictTotalOrder()
    ensures StrictTotalOrder(ItemLess)
    ensures StrictTotalOrder(Greater)
  {
    StrLessIsStrictTotalOrder();
    forall a, b | a != b ensures ItemLess(a, b) || ItemLess(b, a) {
      if a.score == b.score && a.trigram == b.trigram && a.encoder == b.encoder {
        assert a.decoder != b.decoder;
      }
    }
    forall a, b, c | ItemLess(a, b) && ItemLess(b, c) ensures ItemLess(a, c) {
      if a.score == b.score == c.score {
        if a.trigram == b.trigram == c.trigram {
          if a.encoder == b.encoder == c.encoder {
            assert StrLess(a.decoder, c.decoder);
          } else if StrLess(a.encoder, b.encoder) && StrLess(b.encoder, c.encoder) {
            assert StrLess(a.encoder, c.encoder);
          }
        } else if StrLess(a.trigram, b.trigram) && StrLess(b.trigram, c.trigram) {
          assert StrLess(a.trigram, c.trigram);
        }
      }
    }
  }

  /** The item for one `baked_freqs` entry. */
  function ItemOf(key: BakedKey, freq: real): (r: Item)
    ensures r.trigram == key.trigram && r.encoder == key.decodedAs && r.decoder == key.encodedAs
  {
    Item(Score(freq), key.trigram, key.decodedAs, key.encodedAs)
  }

  /** The test on line 120 of `scripts/mojibakery.py` (line 100 of the other miner) and the
      tokenisation test after it: a trigram that is not clean text, as-is or lower-cased, is not
      excluded, and tokenises to itself. */
  predicate Survives(normalFreqs: map<Trigram, real>, oracles: CharOracles, suspicious: set<char>, trigram: Trigram)
  {
    trigram !in normalFreqs && oracles.lower(trigram) !in normalFreqs && !ExcludeTrigramWith(suspicious, oracles, trigram) &&
    |Join(" ", oracles.simpleTokenize(trigram))| == |trigram|
  }

  /** `mojibake_items` after the loop over the given keys, in iteration order. */
  function Candidates(normalFreqs: map<Trigram, real>, bakedFreqs: map<BakedKey, real>, keys: seq<BakedKey>,
                      oracles: CharOracles, suspicious: set<char>): seq<Item>
    requires forall k :: k in keys ==> k in bakedFreqs
    decreases |keys|
  {
    if |keys| == 0 then []
    else
      var key := keys[|keys| - 1];
      var before := Candidates(normalFreqs, bakedFreqs, keys[..|keys| - 1], oracles, suspicious);
      if Survives(normalFreqs, oracles, suspicious, key.trigram) then before + [ItemOf(key, bakedFreqs[key])]
      else before
  }

  /** The candidates are exactly the items of the keys whose trigram survives the filter. */
  lemma {:induction false} CandidatesMembers(normalFreqs: map<Trigram, real>, bakedFreqs: map<BakedKey, real>,
                                             keys: seq<BakedKey>, oracles: CharOracles, suspicious: set<char>)
    requires forall k :: k in keys ==> k in bakedFreqs
    ensures forall it :: it in Candidates(normalFreqs, bakedFreqs, keys, oracles, suspicious) ==>
              Survives(normalFreqs, oracles, suspicious, it.trigram)
    ensures forall it :: it in Candidates(normalFreqs, bakedFreqs, keys, oracles, suspicious) ==>
              exists k :: k in keys && it == ItemOf(k, bakedFreqs[k])
    ensures forall k :: k in keys && Survives(normalFreqs, oracles, suspicious, k.trigram) ==>
              ItemOf(k, bakedFreqs[k]) in Candidates(normalFreqs, bakedFreqs, keys, oracles, suspicious)
    decreases |keys|
  {
    if |keys| > 0 {
      var prefix, key := keys[..|keys| - 1], keys[|keys| - 1];
      assert keys == prefix + [key];
      CandidatesMembers(normalFreqs, bakedFreqs, prefix, oracles, suspicious);
      var before := Candidates(normalFreqs, bakedFreqs, prefix, oracles, suspicious);
      var r := Candidates(normalFreqs, bakedFreqs, keys, oracles, suspicious);
      var item := ItemOf(key, bakedFreqs[key]);
      assert r == if Survives(normalFreqs, oracles, suspicious, key.trigram) then before + [item] else before;
      forall it | it in r
        ensures Survives(normalFreqs, oracles, suspicious, it.trigram)
        ensures exists k :: k in keys && it == ItemOf(k, bakedFreqs[k])
      {
        if it in before {
          var k :| k in prefix && it == ItemOf(k, bakedFreqs[k]);
          assert k in keys;
        } else {
          assert it == item && key in keys;
        }
      }
      forall k | k in keys && Survives(normalFreqs, oracles, suspicious, k.trigram)
        ensures ItemOf(k, bakedFreqs[k]) in r
      {
        if k != key {
          assert k in prefix;
        }
      }
    }
  }

  /** The candidates of two runs of keys are those of the first run, then those of the second. */
  lemma {:induction false} CandidatesAppend(normalFreqs: map<Trigram, real>, bakedFreqs: map<BakedKey, real>,
                                            k1: seq<BakedKey>, k2: seq<BakedKey>, oracles: CharOracles, suspicious: set<char>)
    requires forall k :: k in k1 + k2 ==> k in bakedFreqs
    ensures Candidates(normalFreqs, bakedFreqs, k1 + k2, oracles, suspicious) ==
              Candidates(normalFreqs, bakedFreqs, k1, oracles, suspicious) +
              Candidates(normalFreqs, bakedFreqs, k2, oracles, suspicious)
    decreases |k2|
  {
    if |k2| == 0 {
      assert k1 + k2 == k1;
    } else {
      var front := k2[..|k2| - 1];
      assert (k1 + k2)[..|k1 + k2| - 1] == k1 + front;
      assert (k1 + k2)[|k1 + k2| - 1] == k2[|k2| - 1];
      assert forall k :: k in k1 + front ==> k in k1 + k2;
      CandidatesAppend(normalFreqs, bakedFreqs, k1, front, oracles, suspicious);
    }
  }

  /** The iteration order of `baked_freqs.items()` does not change which items are collected:
      two orders of the same keys give the same multiset of candidates. */
  lemma {:induction false} CandidatesIgnoreKeyOrder(normalFreqs: map<Trigram, real>, bakedFreqs: map<BakedKey, real>,
                                                    k1: seq<BakedKey>, k2: seq<BakedKey>, oracles: CharOracles,
                                                    suspicious: set<char>)
    requires forall k :: k in k1 ==> k in bakedFreqs
    requires forall k :: k in k2 ==> k in bakedFreqs
    requires multiset(k1) == multiset(k2)
    ensures multiset(Candidates(normalFreqs, bakedFreqs, k1, oracles, suspicious)) ==
              multiset(Candidates(normalFreqs, bakedFreqs, k2, oracles, suspicious))
    decreases |k1|
  {
    if |k1| == 0 {
      assert |k2| == |multiset(k2)| == 0;
    } else {
      var prefix, x := k1[..|k1| - 1], k1[|k1| - 1];
      assert x in multiset(k1);
      var i :| 0 <= i < |k2| && k2[i] == x;
      var rest := k2[..i] + k2[i + 1..];
      var cx := multiset(Candidates(normalFreqs, bakedFreqs, [x], oracles, suspicious));
      assert multiset(Candidates(normalFreqs, bakedFreqs, k2, oracles, suspicious)) ==
             multiset(Candidates(normalFreqs, bakedFreqs, rest, oracles, suspicious)) + cx &&
             forall k :: k in rest ==> k in bakedFreqs by {
        CandidatesRemoveAt(normalFreqs, bakedFreqs, k2, i, oracles, suspicious);
      }
      assert multiset(Candidates(normalFreqs, bakedFreqs, prefix, oracles, suspicious)) ==
             multiset(Candidates(normalFreqs, bakedFreqs, rest, oracles, suspicious)) by {
        SameAfterRemoving(k1, k2, i);
        CandidatesIgnoreKeyOrder(normalFreqs, bakedFreqs, prefix, rest, oracles, suspicious);
      }
      assert multiset(Candidates(normalFreqs, bakedFreqs, k1, oracles, suspicious)) ==
             multiset(Candidates(normalFreqs, bakedFreqs, prefix, oracles, suspicious)) + cx by {
        assert k1 == prefix + [x];
        CandidatesAppend(normalFreqs, bakedFreqs, prefix, [x], oracles, suspicious);
      }
    }
  }

  /** Taking the key at `i` out of a key order takes exactly its candidates out of the
      collected items. */
  lemma CandidatesRemoveAt(normalFreqs: map<Trigram, real>, bakedFreqs: map<BakedKey, real>,
                           keys: seq<BakedKey>, i: nat, oracles: CharOracles, suspicious: set<char>)
    requires i < |keys|
    requires forall k :: k in keys ==> k in bakedFreqs
    ensures forall k :: k in keys[..i] + keys[i + 1..] ==> k in bakedFreqs
    ensures multiset(Candidates(normalFreqs, bakedFreqs, keys, oracles, suspicious)) ==
              multiset(Candidates(normalFreqs, bakedFreqs, keys[..i] + keys[i + 1..], oracles, suspicious)) +
              multiset(Candidates(normalFreqs, bakedFreqs, [keys[i]], oracles, suspicious))
  {
    var before, x, after := keys[..i], keys[i], keys[i + 1..];
    assert keys == (before + [x]) + after;
    assert forall k :: k in before + after ==> k in keys;
    assert forall k :: k in before + [x] ==> k in keys;
    var cb := Candidates(normalFreqs, bakedFreqs, before, oracles, suspicious);
    var cx := Candidates(normalFreqs, bakedFreqs, [x], oracles, suspicious);
    var ca := Candidates(normalFreqs, bakedFreqs, after, oracles, suspicious);
    assert Candidates(normalFreqs, bakedFreqs, keys, oracles, suspicious) == (cb + cx) + ca by {
      CandidatesAppend(normalFreqs, bakedFreqs, before + [x], after, oracles, suspicious);
      CandidatesAppend(normalFreqs, bakedFreqs, before, [x], oracles, suspicious);
    }
    assert Candidates(normalFreqs, bakedFreqs, before + after, oracles, suspicious) == cb + ca by {
      CandidatesAppend(normalFreqs, bakedFreqs, before, after, oracles, suspicious);
    }
    MultisetMoveToEnd(cb, cx, ca);
  }

  /** Moving the middle part of a sequence to its end keeps its multiset. */
  lemma MultisetMoveToEnd<T>(b: seq<T>, x: seq<T>, a: seq<T>)
    ensures multiset((b + x) + a) == multiset(b + a) + multiset(x)
  {
    assert multiset((b + x) + a) == multiset(b) + multiset(x) + multiset(a);
    assert multiset(b + a) == multiset(b) + multiset(a);
  }

  /** Taking the last element of `k1` and the same element at `i` out of `k2` keeps the two
      multisets equal. */
  lemma SameAfterRemoving<T>(k1: seq<T>, k2: seq<T>, i: nat)
    requires |k1| > 0 && i < |k2| && k2[i] == k1[|k1| - 1] && multiset(k1) == multiset(k2)
    ensures multiset(k1[..|k1| - 1]) == multiset(k2[..i] + k2[i + 1..])
  {
    var prefix, x, before, after := k1[..|k1| - 1], k1[|k1| - 1], k2[..i], k2[i + 1..];
    assert k1 == prefix + [x];
    assert k2 == before + [x] + after;
    assert multiset(k1) == multiset(prefix) + multiset([x]);
    assert multiset(k2) == multiset(before) + multiset([x]) + multiset(after);
    assert multiset(before + after) == multiset(before) + multiset(after);
    forall y ensures multiset(prefix)[y] == multiset(before + after)[y] {
      assert multiset(k1)[y] == multiset(prefix)[y] + multiset([x])[y];
      assert multiset(k2)[y] == multiset(before)[y] + multiset([x])[y] + multiset(after)[y];
    }
  }

  /** Neither does it change what `find_mojibake` returns: two orders of the same keys give the
      same ranked result. */
  lemma TopIgnoresKeyOrder(normalFreqs: map<Trigram, real>, bakedFreqs: map<BakedKey, real>,
                           k1: seq<BakedKey>, k2: seq<BakedKey>, oracles: CharOracles, suspicious: set<char>,
                           limit: nat)
    requires forall k :: k in k1 ==> k in bakedFreqs
    requires forall k :: k in k2 ==> k in bakedFreqs
    requires multiset(k1) == multiset(k2)
    ensures Top(Candidates(normalFreqs, bakedFreqs, k1, oracles, suspicious), limit) ==
              Top(Candidates(normalFreqs, bakedFreqs, k2, oracles, suspicious), limit)
  {
    var c1, c2 := Candidates(normalFreqs, bakedFreqs, k1, oracles, suspicious),
                  Candidates(normalFreqs, bakedFreqs, k2, oracles, suspicious);
    CandidatesIgnoreKeyOrder(normalFreqs, bakedFreqs, k1, k2, oracles, suspicious);
    assert |c1| == |multiset(c1)| == |multiset(c2)| == |c2|;
    GreaterIsStrictTotalOrder();
    SortIgnoresOrder(c1, c2, Greater);
  }

  /** `find_mojibake` with the miner's own exclusion filter and limit: the surviving keys as
      items, in descending tuple order, cut to the first `limit`. `keys` is the dict's
      iteration order, which lists each key once. */
  method FindMojibakeWith(normalFreqs: map<Trigram, real>, bakedFreqs: map<BakedKey, real>, keys: seq<BakedKey>,
                          oracles: CharOracles, suspicious: set<char>, limit: nat)
    returns (found: seq<Item>)
    requires forall k :: k in bakedFreqs <==> k in keys
    requires NoDuplicates(keys)
    // the top `limit` of the candidates, in descending order
    ensures found == Top(Candidates(normalFreqs, bakedFreqs, keys, oracles, suspicious), limit)
    // only surviving trigrams are kept, and each item is the score of its key
    ensures forall it :: it in found ==> Survives(normalFreqs, oracles, suspicious, it.trigram)
    ensures forall it :: it in found ==> exists k :: k in bakedFreqs && it == ItemOf(k, bakedFreqs[k])
  {
    var mojibakeItems: seq<Item> := [];
    for n := 0 to |keys|
      invariant mojibakeItems == Candidates(normalFreqs, bakedFreqs, keys[..n], oracles, suspicious)
    {
      assert keys[..n + 1][..n] == keys[..n];
      var key := keys[n];
      if Survives(normalFreqs, oracles, suspicious, key.trigram) {
        mojibakeItems := mojibakeItems + [ItemOf(key, bakedFreqs[key])];
      }
    }
    assert keys[..|keys|] == keys;
    CandidatesMembers(normalFreqs, bakedFreqs, keys, oracles, suspicious);
    found := Top(mojibakeItems, limit);
  }

  /** `items.sort(reverse=True)` followed by `items[:limit]`. */
  function Top(items: seq<Item>, limit: nat): (found: seq<Item>)
    ensures found == Sort(items, Greater)[..if |items| < limit then |items| else limit]
    ensures |found| <= limit
    ensures Sorted(found, Greater)
    ensures multiset(found) <= multiset(items)
    ensures forall it :: it in found ==> it in items
    ensures forall it :: it in items && it !in found ==> forall f :: f in found ==> !ItemLess(f, it)
  {
    var sorted := Sort(items, Greater);
    SortedDescending(items);
    SameElements(items, sorted);
    var cut := if |sorted| < limit then |sorted| else limit;
    TopOfSorted(sorted, cut, Greater);
    sorted[..cut]
  }

  /** The library sort does order items descending. */
  lemma SortedDescending(items: seq<Item>)
    ensures Sorted(Sort(items, Greater), Greater)
  {
    GreaterIsStrictTotalOrder();
  }

  /** A permutation has the same length and the same elements. */
  lemma SameElements<T>(xs: seq<T>, ys: seq<T>)
    requires multiset(xs) == multiset(ys)
    ensures |xs| == |ys|
    ensures forall x :: x in xs <==> x in ys
  {
    assert |multiset(xs)| == |multiset(ys)|;
    forall x ensures x in xs <==> x in ys {
      assert x in xs <==> x in multiset(xs);
      assert x in ys <==> x in multiset(ys);
    }
  }

  /** The first `cut` elements of an ordered sequence: part of it, ordered, and nothing left
      out comes before anything kept. */
  lemma TopOfSorted<T>(sorted: seq<T>, cut: nat, less: (T, T) -> bool)
    requires Sorted(sorted, less) && cut <= |sorted|
    ensures Sorted(sorted[..cut], less)
    ensures multiset(sorted[..cut]) <= multiset(sorted)
    ensures forall x :: x in sorted[..cut] ==> x in sorted
    ensures forall x :: x in sorted && x !in sorted[..cut] ==> forall f :: f in sorted[..cut] ==> !less(x, f)
  {
    var found := sorted[..cut];
    assert sorted == found + sorted[cut..];
    assert multiset(sorted) == multiset(found) + multiset(sorted[cut..]);
    forall x | x in sorted && x !in found ensures forall f :: f in found ==> !less(x, f) {
      assert x in sorted[cut..];
      var k :| 0 <= k < |sorted| - cut && sorted[cut..][k] == x;
      var j := cut + k;
      assert sorted[j] == x;
      forall f | f in found ensures !less(x, f) {
        var i :| 0 <= i < |found| && found[i] == f;
        assert sorted[i] == f && i < j;
      }
    }
  }

  // ---------------------------------------------------------------------------------------
  // The grouping in `write_detector`.

  /** `mojidict[trigram]`: the `(encoder, decoder)` pairs of the items for `trigram`, in order. */
  function PairsFor(found: seq<Item>, trigram: Trigram): (r: seq<(string, string)>)
    ensures |r| <= |found|
    decreases |found|
  {
    if |found| == 0 then []
    else
      var last := found[|found| - 1];
      PairsFor(found[..|found| - 1], trigram) + (if last.trigram == trigram then [(last.encoder, last.decoder)] else [])
  }

  /** Every occurrence of a pair among the items for `trigram` is in its list, and nothing else. */
  lemma {:induction false} PairsForMembers(found: seq<Item>, trigram: Trigram, p: (string, string))
    ensures p in PairsFor(found, trigram) <==> exists i :: 0 <= i < |found| && found[i] == Item(found[i].score, trigram, p.0, p.1)
    decreases |found|
  {
    if |found| > 0 {
      var prefix := found[..|found| - 1];
      PairsForMembers(prefix, trigram, p);
      if exists i :: 0 <= i < |prefix| && prefix[i] == Item(prefix[i].score, trigram, p.0, p.1) {
        var i :| 0 <= i < |prefix| && prefix[i] == Item(prefix[i].score, trigram, p.0, p.1);
        assert found[i] == prefix[i];
      }
      if exists i :: 0 <= i < |found| && found[i] == Item(found[i].score, trigram, p.0, p.1) {
        var i :| 0 <= i < |found| && found[i] == Item(found[i].score, trigram, p.0, p.1);
        if i < |prefix| { assert prefix[i] == found[i]; }
      }
    }
  }

  /** No value occurs twice. */
  predicate NoDuplicates<T(==)>(xs: seq<T>)
  {
    forall i, j :: 0 <= i < j < |xs| ==> xs[i] != xs[j]
  }

  /** The trigrams of some items. */
  ghost function TrigramsOf(found: seq<Item>): set<Trigram>
  {
    set i | 0 <= i < |found| :: found[i].trigram
  }

  /** The keys of `mojidict` are the trigrams of `found`, each holding the pairs of its items;
      `order` lists each key once. */
  ghost predicate Grouped(found: seq<Item>, mojidict: map<Trigram, seq<(string, string)>>, order: seq<Trigram>)
  {
    && mojidict.Keys == TrigramsOf(found)
    && (forall t :: t in mojidict ==> mojidict[t] == PairsFor(found, t) && |mojidict[t]| > 0)
    && (forall t :: t in order <==> t in mojidict)
    && NoDuplicates(order)
  }

  /** The grouping loop of `write_detector` (`mojidict[trigram].append((encoder, decoder))`),
      with the keys in the order they were first inserted. */
  method GroupFound(found: seq<Item>) returns (mojidict: map<Trigram, seq<(string, string)>>, order: seq<Trigram>)
    ensures mojidict.Keys == set i | 0 <= i < |found| :: found[i].trigram
    ensures forall t :: t in mojidict ==> mojidict[t] == PairsFor(found, t) && |mojidict[t]| > 0
    ensures forall t :: t in order <==> t in mojidict
    ensures NoDuplicates(order)
  {
    mojidict := map[];
    order := [];
    for n := 0 to |found|
      invariant Grouped(found[..n], mojidict, order)
    {
      var item := found[n];
      var pairs := if item.trigram in mojidict then mojidict[item.trigram] else [];
      var order' := if item.trigram in mojidict then order else order + [item.trigram];
      var mojidict' := mojidict[item.trigram := pairs + [(item.encoder, item.decoder)]];
      GroupStep(found, n, mojidict, order, mojidict', order');
      mojidict, order := mojidict', order';
    }
    assert found[..|found|] == found;
  }

  /** One more item: its pair is appended to its own trigram's list, a list that is new when
      the trigram is, and the grouping still holds. */
  lemma GroupStep(found: seq<Item>, n: nat, mojidict: map<Trigram, seq<(string, string)>>, order: seq<Trigram>,
                  mojidict': map<Trigram, seq<(string, string)>>, order': seq<Trigram>)
    requires n < |found| && Grouped(found[..n], mojidict, order)
    requires var item := found[n];
             mojidict' == mojidict[item.trigram := (if item.trigram in mojidict then mojidict[item.trigram] else []) +
                                                   [(item.encoder, item.decoder)]]
    requires order' == if found[n].trigram in mojidict then order else order + [found[n].trigram]
    ensures Grouped(found[..n + 1], mojidict', order')
  {
    var prefix, item := found[..n], found[n];
    assert found[..n + 1] == prefix + [item];
    GroupAppend(prefix, item, mojidict, order, mojidict', order');
  }

  /** The grouping of some items, extended by one more item. */
  lemma GroupAppend(prefix: seq<Item>, item: Item, mojidict: map<Trigram, seq<(string, string)>>, order: seq<Trigram>,
                    mojidict': map<Trigram, seq<(string, string)>>, order': seq<Trigram>)
    requires Grouped(prefix, mojidict, order)
    requires mojidict' == mojidict[item.trigram := (if item.trigram in mojidict then mojidict[item.trigram] else []) +
                                                    [(item.encoder, item.decoder)]]
    requires order' == if item.trigram in mojidict then order else order + [item.trigram]
    ensures Grouped(prefix + [item], mojidict', order')
  {
    GroupKeysStep(prefix, item);
    assert mojidict'.Keys == mojidict.Keys + {item.trigram};
    GroupPairsStep(prefix, item, mojidict);
    GroupOrderStep(order, mojidict.Keys, item.trigram);
  }

  /** The trigrams of one more item are those before it and its own. */
  lemma GroupKeysStep(prefix: seq<Item>, item: Item)
    ensures TrigramsOf(prefix + [item]) == TrigramsOf(prefix) + {item.trigram}
  {
    var extended := prefix + [item];
    var n := |prefix|;
    forall t | t in TrigramsOf(extended) ensures t in TrigramsOf(prefix) + {item.trigram} {
      var i :| 0 <= i < |extended| && extended[i].trigram == t;
      if i < n { assert prefix[i] == extended[i]; }
    }
    assert extended[n] == item && extended[n].trigram in TrigramsOf(extended);
    forall t | t in TrigramsOf(prefix) ensures t in TrigramsOf(extended) {
      var i :| 0 <= i < n && prefix[i].trigram == t;
      assert extended[i] == prefix[i];
    }
  }

  /** The lists after one more item: its pair extends its own trigram's list, which is new
      when the trigram is. */
  lemma GroupPairsStep(prefix: seq<Item>, item: Item, mojidict: map<Trigram, seq<(string, string)>>)
    requires mojidict.Keys == TrigramsOf(prefix)
    requires forall t :: t in mojidict ==> mojidict[t] == PairsFor(prefix, t) && |mojidict[t]| > 0
    ensures var pairs := if item.trigram in mojidict then mojidict[item.trigram] else [];
            var updated := mojidict[item.trigram := pairs + [(item.encoder, item.decoder)]];
            forall t :: t in updated ==> updated[t] == PairsFor(prefix + [item], t) && |updated[t]| > 0
  {
    var extended := prefix + [item];
    assert extended[..|prefix|] == prefix && extended[|prefix|] == item;
    if item.trigram !in mojidict {
      forall i | 0 <= i < |prefix| ensures prefix[i].trigram != item.trigram {
        assert prefix[i].trigram in TrigramsOf(prefix);
      }
      PairsForEmpty(prefix, item.trigram);
    }
  }

  /** A key not yet listed is appended once; a listed key's order is kept. */
  lemma GroupOrderStep(order: seq<Trigram>, keys: set<Trigram>, trigram: Trigram)
    requires (forall t :: t in order <==> t in keys) && NoDuplicates(order)
    ensures var order' := if trigram in keys then order else order + [trigram];
            (forall t :: t in order' <==> t in keys + {trigram}) && NoDuplicates(order')
  {
    if trigram !in keys {
      var order' := order + [trigram];
      forall i, j | 0 <= i < j < |order'| ensures order'[i] != order'[j] {
        if j == |order| { assert order[i] in order; }
      }
    }
  }

  /** `'|'.join(sorted(mojidict))`: the keys in strictly ascending order, joined by `|`. */
  method RegexText(order: seq<string>) returns (sortedKeys: seq<string>, regexText: string)
    requires NoDuplicates(order)
    ensures forall t :: t in sortedKeys <==> t in order
    ensures forall i, j :: 0 <= i < j < |sortedKeys| ==> StrLess(sortedKeys[i], sortedKeys[j])
    ensures regexText == Join("|", sortedKeys)
  {
    StrLessIsStrictTotalOrder();
    sortedKeys := Sort(order, StrLess);
    assert Sorted(sortedKeys, StrLess);
    forall t ensures t in sortedKeys <==> t in order {
      assert t in multiset(sortedKeys) <==> t in multiset(order);
    }
    forall i, j | 0 <= i < j < |sortedKeys| ensures StrLess(sortedKeys[i], sortedKeys[j]) {
      assert !StrLess(sortedKeys[j], sortedKeys[i]);
      DistinctAfterSort(order, sortedKeys, i, j);
    }
    regexText := Join("|", sortedKeys);
  }

  /** `write_detector` up to the text it writes: the lookup table and the alternation over
      its keys. */
  method WriteDetector(found: seq<Item>) returns (mojidict: map<Trigram, seq<(string, string)>>, regexText: string)
    ensures mojidict.Keys == set i | 0 <= i < |found| :: found[i].trigram
    ensures forall t :: t in mojidict ==> mojidict[t] == PairsFor(found, t) && |mojidict[t]| > 0
    ensures exists keys: seq<string> :: (forall t :: t in keys <==> t in mojidict) &&
              (forall i, j :: 0 <= i < j < |keys| ==> StrLess(keys[i], keys[j])) &&
              regexText == Join("|", keys)
  {
    var order;
    mojidict, order := GroupFound(found);
    var sortedKeys;
    sortedKeys, regexText := RegexText(order);
  }

  /** A trigram that no item has gets no pairs. */
  lemma {:induction false} PairsForEmpty(found: seq<Item>, trigram: Trigram)
    requires forall i :: 0 <= i < |found| ==> found[i].trigram != trigram
    ensures PairsFor(found, trigram) == []
    decreases |found|
  {
    if |found| > 0 {
      PairsForEmpty(found[..|found| - 1], trigram);
    }
  }

  /** A permutation of a sequence without duplicates has none either. */
  lemma DistinctAfterSort<T>(xs: seq<T>, ys: seq<T>, i: int, j: int)
    requires NoDuplicates(xs) && multiset(xs) == multiset(ys)
    requires 0 <= i < j < |ys|
    ensures ys[i] != ys[j]
  {
    if ys[i] == ys[j] {
      assert ys == ys[..j] + ys[j..];
      assert multiset(ys)[ys[i]] >= 2 by {
        assert ys[i] in multiset(ys[..j]);
        assert ys[j] in multiset(ys[j..]);
        assert multiset(ys) == multiset(ys[..j]) + multiset(ys[j..]);
      }
      AtMostOnce(xs, ys[i]);
      assert false;
    }
  }

  /** A value occurs at most once in a sequence without duplicates. */
  lemma {:induction false} AtMostOnce<T>(xs: seq<T>, x: T)
    requires NoDuplicates(xs)
    ensures multiset(xs)[x] <= 1
    decreases |xs|
  {
    if |xs| > 0 {
      var prefix := xs[..|xs| - 1];
      assert NoDuplicates(prefix);
      AtMostOnce(prefix, x);
      assert xs == prefix + [xs[|xs| - 1]];
      assert multiset(xs) == multiset(prefix) + multiset{xs[|xs| - 1]};
      if x == xs[|xs| - 1] {
        assert x !in prefix;
        assert multiset(prefix)[x] == 0;
      }
    }
  }
}
