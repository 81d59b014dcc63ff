/** The chunk step of the Java "modified UTF-8" / CESU-8 incremental decoder
    (`JavaCESU8Decoder._buffer_decode` and its two helpers).

    The decoder extends a standard UTF-8 incremental step, which is not part of this model:
    it is the parameter `sup`, a function from `(input, errors, final)` to a `(text, consumed)`
    pair or a raised UnicodeDecodeError. */
module Cesu8 {
  import opened Wrappers

  /** What a chunk step returns: Python's `(text, consumed)` pair, or the UnicodeDecodeError
      that the standard UTF-8 step raised (it propagates unchanged). */
  datatype Chunk = Chunk(text: string, consumed: nat) | DecodeError

  /** The standard UTF-8 step `UTF8IncrementalDecoder._buffer_decode(input, errors, final)`. */
  type Utf8Step = (seq<Byte>, string, bool) -> Chunk

  /** The one thing the model assumes of the standard step: it never reports more bytes
      consumed than it was given. */
  ghost predicate StepBounded(sup: Utf8Step)
  {
    forall input, errors, final :: sup(input, errors, final).Chunk? ==> sup(input, errors, final).consumed <= |input|
  }

  const ED: Byte := 0xED
  const C0: Byte := 0xC0

  /** Python's `bytes.find` for a single byte: the first index holding `b`, or -1. */
  function Find(s: seq<Byte>, b: Byte): (i: int)
    ensures -1 <= i < |s|
    ensures i == -1 <==> b !in s
    ensures i >= 0 ==> s[i] == b && forall j :: 0 <= j < i ==> s[j] != b
  {
    if |s| == 0 then -1
    else if s[0] == b then 0
    else
      var k := Find(s[1..], b);
      assert forall j :: 1 <= j < |s| ==> s[j] == s[1..][j - 1];
      if k == -1 then -1 else k + 1
  }

  /** The position of the first `ED` or `C0` byte, or -1 when there is neither
      (lines 12-20: the smaller of the two `find` results that are not -1). */
  function Cutoff(input: seq<Byte>): (c: int)
    ensures c == -1 <==> ED !in input && C0 !in input
    ensures c >= 0 ==> c < |input| && (input[c] == ED || input[c] == C0)
    ensures c >= 0 ==> forall j :: 0 <= j < c ==> input[j] != ED && input[j] != C0
  {
    var cutoff1 := Find(input, ED);
    var cutoff2 := Find(input, C0);
    if cutoff1 != -1 && cutoff2 != -1 then (if cutoff1 < cutoff2 then cutoff1 else cutoff2)
    else if cutoff1 != -1 then cutoff1
    else cutoff2
  }

  /** `CESU8_RE.match(input)`: the input starts with `ED [A0-AF] [80-BF] ED [B0-BF] [80-BF]`,
      the UTF-8 form of a high surrogate followed by the UTF-8 form of a low surrogate. */
  predicate IsSurrogatePair(input: seq<Byte>)
  {
    && |input| >= 6
    && input[0] == ED && 0xA0 <= input[1] <= 0xAF && 0x80 <= input[2] <= 0xBF
    && input[3] == ED && 0xB0 <= input[4] <= 0xBF && 0x80 <= input[5] <= 0xBF
  }

  /** The code point a surrogate pair stands for: four bits of byte 1, six of byte 2, four of
      byte 4 and six of byte 5 (counting from 0), plus 0x10000. */
  function PairCodePoint(input: seq<Byte>): (cp: int)
    requires IsSurrogatePair(input)
    ensures 0x10000 <= cp <= 0x10FFFF
  {
    var b1: int, b2: int, b4: int, b5: int := input[1], input[2], input[4], input[5];
    (b1 % 0x10) * 0x10000 + (b2 % 0x40) * 0x400 + (b4 % 0x10) * 0x40 + b5 % 0x40 + 0x10000
  }

  /** `_buffer_decode_null`, for an input that starts with `C0`: with no next byte it asks for
      more input; `C0 80` is U+0000; otherwise the lone `C0` goes to the standard step as a final
      chunk. The comparisons `nextchar == ''` and `sup('\xc0', ...)` are read by their byte-level
      intent ("no next byte", "the single byte C0"). */
  function DecodeNull(sup: Utf8Step, input: seq<Byte>, errors: string, final: bool): Chunk
  {
    if |input| < 2 then Chunk("", 0)
    else if input[1] == 0x80 then Chunk("\0", 2)
    else sup([C0], errors, true)
  }

  /** `_buffer_decode_surrogates`, for an input that starts with `ED`: fewer than six bytes wait
      for more input unless the call is final; a surrogate pair becomes one supplementary
      character; any other `ED` sequence hands its first three bytes to the standard step. */
  function DecodeSurrogates(sup: Utf8Step, input: seq<Byte>, errors: string, final: bool): Chunk
  {
    if |input| < 6 then
      if final then sup(input, errors, true) else Chunk("", 0)
    else if IsSurrogatePair(input) then
      Chunk([PairCodePoint(input) as char], 6)
    else
      sup(input[..3], errors, false)
  }

  /** `JavaCESU8Decoder._buffer_decode`: decode what can be decoded now and report how many
      bytes of `input` were consumed. */
  function BufferDecode(sup: Utf8Step, input: seq<Byte>, errors: string, final: bool): (r: Chunk)
    // no marker: the whole chunk goes to the standard step with the caller's `final`
    ensures ED !in input && C0 !in input ==> r == sup(input, errors, final)
    // a marker after the start: only the bytes before it are decoded, never as final
    ensures Cutoff(input) > 0 ==> r == sup(input[..Cutoff(input)], errors, false)
    ensures Cutoff(input) > 0 && StepBounded(sup) && r.Chunk? ==> r.consumed <= Cutoff(input)
    // C0 80 is U+0000, two bytes
    ensures |input| >= 2 && input[0] == C0 && input[1] == 0x80 ==> r == Chunk("\0", 2)
    // a lone C0 waits, whatever `final` is
    ensures input == [C0] ==> r == Chunk("", 0)
    // C0 followed by anything else: the single byte C0 goes to the standard step as final
    ensures |input| >= 2 && input[0] == C0 && input[1] != 0x80 ==> r == sup([C0], errors, true)
    // a short ED chunk waits, or is flushed through the standard step when final
    ensures 0 < |input| < 6 && input[0] == ED && !final ==> r == Chunk("", 0)
    ensures 0 < |input| < 6 && input[0] == ED && final ==> r == sup(input, errors, true)
    // a surrogate pair is one supplementary character, six bytes
    ensures IsSurrogatePair(input) ==>
              r.Chunk? && r.consumed == 6 && |r.text| == 1 && 0x10000 <= r.text[0] as int <= 0x10FFFF
    // a longer ED chunk that is not a pair: three bytes to the standard step, not final
    ensures |input| >= 6 && input[0] == ED && !IsSurrogatePair(input) ==> r == sup(input[..3], errors, false)
    // never more consumed than given
    ensures StepBounded(sup) && r.Chunk? ==> r.consumed <= |input|
  {
    var cutoff := Cutoff(input);
    if cutoff == -1 then sup(input, errors, final)
    else if input[0] == C0 then DecodeNull(sup, input, errors, final)
    else if input[0] == ED then DecodeSurrogates(sup, input, errors, final)
    else sup(input[..cutoff], errors, false)
  }

  // ---------------------------------------------------------------------------------------
  // The surrogate arithmetic against an independent reference: section 2.2 of RFC 2781
  // (UTF-16 decoding) applied to the 16-bit values that section 3 of RFC 3629 gives to the two
  // three-byte halves, and the matching encoder (section 2.1 of RFC 2781).

  /** The 16-bit value of a three-byte UTF-8 sequence `1110xxxx 10yyyyyy 10zzzzzz`. */
  function ThreeByteValue(b0: Byte, b1: Byte, b2: Byte): int
  {
    var x: int, y: int, z: int := b0, b1, b2;
    (x % 0x10) * 0x1000 + (y % 0x40) * 0x40 + z % 0x40
  }

  /** The three-byte UTF-8 form of a 16-bit value of at least 0x800. */
  function ThreeBytes(w: int): (s: seq<Byte>)
    requires 0x800 <= w <= 0xFFFF
    ensures |s| == 3 && ThreeByteValue(s[0], s[1], s[2]) == w
  {
    var sixes, low := w / 0x40, w % 0x40;
    var high, mid := sixes / 0x40, sixes % 0x40;
    assert w == sixes * 0x40 + low && sixes == high * 0x40 + mid;
    assert high < 0x10 && (0xE0 + high) % 0x10 == high;
    assert (0x80 + mid) % 0x40 == mid && (0x80 + low) % 0x40 == low;
    [0xE0 + high, 0x80 + mid, 0x80 + low]
  }

  /** Section 2.2 of RFC 2781: the character a high and a low surrogate stand for. */
  function Utf16Decode(w1: int, w2: int): int
    requires 0xD800 <= w1 <= 0xDBFF && 0xDC00 <= w2 <= 0xDFFF
  {
    (w1 - 0xD800) * 0x400 + (w2 - 0xDC00) + 0x10000
  }

  /** The six CESU-8 bytes of a supplementary character: its UTF-16 surrogates
      (section 2.1 of RFC 2781), each written as three UTF-8 bytes. */
  function EncodePair(cp: int): (s: seq<Byte>)
    requires 0x10000 <= cp <= 0x10FFFF
    ensures |s| == 6
  {
    var u := cp - 0x10000;
    ThreeBytes(0xD800 + u / 0x400) + ThreeBytes(0xDC00 + u % 0x400)
  }

  /** The bit formula of the decoder is UTF-16 decoding of the two UTF-8 decoded halves, and
      those halves are a high and a low surrogate. */
  lemma PairCodePointIsUtf16(input: seq<Byte>)
    requires IsSurrogatePair(input)
    ensures 0xD800 <= ThreeByteValue(input[0], input[1], input[2]) <= 0xDBFF
    ensures 0xDC00 <= ThreeByteValue(input[3], input[4], input[5]) <= 0xDFFF
    ensures PairCodePoint(input) ==
              Utf16Decode(ThreeByteValue(input[0], input[1], input[2]), ThreeByteValue(input[3], input[4], input[5]))
  {
    var a: int, b: int, c: int, d: int := input[1] - 0xA0, input[2] - 0x80, input[4] - 0xB0, input[5] - 0x80;
    assert input[1] % 0x10 == a && input[1] % 0x40 == 0x20 + a;
    assert input[2] % 0x40 == b;
    assert input[4] % 0x10 == c && input[4] % 0x40 == 0x30 + c;
    assert input[5] % 0x40 == d;
  }

  /** The UTF-8 form of a high surrogate `0xD800 + hi`. */
  lemma HighSurrogateBytes(hi: int)
    requires 0 <= hi < 0x400
    ensures ThreeBytes(0xD800 + hi) == [0xED, 0xA0 + hi / 0x40, 0x80 + hi % 0x40]
  {
    assert (0xD800 + hi) / 0x1000 == 0xD;
    assert (0xD800 + hi) / 0x40 == 0x360 + hi / 0x40;
    assert (0xD800 + hi) % 0x40 == hi % 0x40;
  }

  /** The UTF-8 form of a low surrogate `0xDC00 + lo`. */
  lemma LowSurrogateBytes(lo: int)
    requires 0 <= lo < 0x400
    ensures ThreeBytes(0xDC00 + lo) == [0xED, 0xB0 + lo / 0x40, 0x80 + lo % 0x40]
  {
    assert (0xDC00 + lo) / 0x1000 == 0xD;
    assert (0xDC00 + lo) / 0x40 == 0x370 + lo / 0x40;
    assert (0xDC00 + lo) % 0x40 == lo % 0x40;
  }

  /** Encoding a supplementary character and decoding it gives it back. */
  lemma DecodeEncodePair(cp: int)
    requires 0x10000 <= cp <= 0x10FFFF
    ensures IsSurrogatePair(EncodePair(cp))
    ensures PairCodePoint(EncodePair(cp)) == cp
  {
    var u := cp - 0x10000;
    var hi, lo := u / 0x400, u % 0x400;
    HighSurrogateBytes(hi);
    LowSurrogateBytes(lo);
    var s := EncodePair(cp);
    assert s == [0xED, 0xA0 + hi / 0x40, 0x80 + hi % 0x40, 0xED, 0xB0 + lo / 0x40, 0x80 + lo % 0x40];
    PairFields(s);
    assert (s[1] as int - 0xA0) * 0x40 + (s[2] as int - 0x80) == hi;
    assert (s[4] as int - 0xB0) * 0x40 + (s[5] as int - 0x80) == lo;
    assert u == hi * 0x400 + lo;
  }

  /** Every six bytes the decoder accepts as a pair are exactly the encoding of the character
      it produces, so the pair shape and the supplementary planes are in one-to-one
      correspondence. */
  lemma EncodeDecodePair(input: seq<Byte>)
    requires IsSurrogatePair(input)
    ensures EncodePair(PairCodePoint(input)) == input[..6]
  {
    var hi: int := (input[1] as int - 0xA0) * 0x40 + (input[2] as int - 0x80);
    var lo: int := (input[4] as int - 0xB0) * 0x40 + (input[5] as int - 0x80);
    PairFields(input);
    SplitTenBits(hi, lo);
    HighSurrogateBytes(hi);
    LowSurrogateBytes(lo);
    SplitSixBits(input[1] as int - 0xA0, input[2] - 0x80);
    SplitSixBits(input[4] as int - 0xB0, input[5] - 0x80);
  }

  /** The code point of a pair, field by field. */
  lemma PairFields(input: seq<Byte>)
    requires IsSurrogatePair(input)
    ensures PairCodePoint(input) - 0x10000 ==
              ((input[1] as int - 0xA0) * 0x40 + (input[2] as int - 0x80)) * 0x400 + ((input[4] as int - 0xB0) * 0x40 + (input[5] as int - 0x80))
  {
    var b1: int, b2: int, b4: int, b5: int := input[1], input[2], input[4], input[5];
    assert b1 % 0x10 == b1 - 0xA0 && b2 % 0x40 == b2 - 0x80 && b4 % 0x10 == b4 - 0xB0 && b5 % 0x40 == b5 - 0x80;
  }

  lemma SplitTenBits(hi: int, lo: int)
    requires 0 <= hi < 0x400 && 0 <= lo < 0x400
    ensures (hi * 0x400 + lo) / 0x400 == hi && (hi * 0x400 + lo) % 0x400 == lo
  {
  }

  lemma SplitSixBits(x: int, y: int)
    requires 0 <= x < 0x10 && 0 <= y < 0x40
    ensures (x * 0x40 + y) / 0x40 == x && (x * 0x40 + y) % 0x40 == y
  {
  }

  /** The decoder turns the CESU-8 form of any supplementary character into that character,
      consuming exactly its six bytes, whatever follows. */
  lemma DecodesEncodedPair(sup: Utf8Step, cp: int, rest: seq<Byte>, errors: string, final: bool)
    requires 0x10000 <= cp <= 0x10FFFF
    ensures BufferDecode(sup, EncodePair(cp) + rest, errors, final) == Chunk([cp as char], 6)
  {
    DecodeEncodePair(cp);
    var input := EncodePair(cp) + rest;
    assert input[..6] == EncodePair(cp);
    assert IsSurrogatePair(input);
    assert PairCodePoint(input) == PairCodePoint(EncodePair(cp));
  }

  /** The two ends of the supplementary range, as the decoder sees them. */
  lemma SupplementaryEnds(sup: Utf8Step, errors: string, final: bool)
    ensures BufferDecode(sup, [0xED, 0xA0, 0x80, 0xED, 0xB0, 0x80], errors, final) == Chunk(['\U{10000}'], 6)
    ensures BufferDecode(sup, [0xED, 0xAF, 0xBF, 0xED, 0xBF, 0xBF], errors, final) == Chunk(['\U{10FFFF}'], 6)
  {
    assert IsSurrogatePair([0xED, 0xA0, 0x80, 0xED, 0xB0, 0x80]);
    assert IsSurrogatePair([0xED, 0xAF, 0xBF, 0xED, 0xBF, 0xBF]);
  }

  // ---------------------------------------------------------------------------------------
  // End of stream. Two shapes of final chunk make the step consume nothing and produce
  // nothing, so the buffered incremental decoder keeps the bytes and the final call returns
  // without them: a lone C0, and an incomplete sequence cut off by a marker.

  /** The standard step flushes at the end of the stream: a final call consumes everything it
      was given, or raises. */
  ghost predicate FinalFlushes(sup: Utf8Step)
  {
    forall input, errors :: sup(input, errors, true).Chunk? ==> sup(input, errors, true).consumed == |input|
  }

  /** Incremental decoding as section 3 of RFC 3629 implies: the first two bytes `E2 82` of a
      three-byte sequence, given without `final`, wait for the third. */
  ghost predicate IncompleteWaits(sup: Utf8Step)
  {
    forall errors :: sup([0xE2, 0x82], errors, false) == Chunk("", 0)
  }

  /** As written: a final call on a lone C0 consumes nothing and produces nothing. */
  lemma LoneC0AtFinalIsKept(sup: Utf8Step, errors: string)
    ensures BufferDecode(sup, [C0], errors, true) == Chunk("", 0)
  {
  }

  /** As written: a final call on `E2 82 C0 80` hands `E2 82` to the standard step as
      not final, which waits, so nothing at all is consumed even though the stream ends. */
  lemma CutPrefixAtFinalIsKept(sup: Utf8Step, errors: string)
    requires IncompleteWaits(sup)
    ensures BufferDecode(sup, [0xE2, 0x82, C0, 0x80], errors, true) == Chunk("", 0)
  {
    assert Find([0xE2, 0x82, C0, 0x80], ED) == -1;
    assert Find([0xE2, 0x82, C0, 0x80], C0) == 2;
    assert [0xE2, 0x82, C0, 0x80][..2] == [0xE2, 0x82];
  }

  /** `_buffer_decode_null` as evidently intended: with no next byte, a final call hands the
      lone C0 to the standard step (as `_buffer_decode_surrogates` does for a short chunk). */
  function DecodeNullCorrected(sup: Utf8Step, input: seq<Byte>, errors: string, final: bool): Chunk
  {
    if |input| < 2 then
      if final then sup(input, errors, true) else Chunk("", 0)
    else if input[1] == 0x80 then Chunk("\0", 2)
    else sup([C0], errors, true)
  }

  /** `_buffer_decode` as evidently intended: the lone-C0 rule above, and the bytes before a
      marker decoded as final, since a marker byte can never continue a UTF-8 sequence. */
  function BufferDecodeCorrected(sup: Utf8Step, input: seq<Byte>, errors: string, final: bool): (r: Chunk)
    ensures StepBounded(sup) && r.Chunk? ==> r.consumed <= |input|
  {
    var cutoff := Cutoff(input);
    if cutoff == -1 then sup(input, errors, final)
    else if input[0] == C0 then DecodeNullCorrected(sup, input, errors, final)
    else if input[0] == ED then DecodeSurrogates(sup, input, errors, final)
    else sup(input[..cutoff], errors, true)
  }

  /** The corrected step makes progress at the end of the stream: a final call on a non-empty
      chunk consumes at least one byte or raises. The one branch left aside hands three bytes
      to the standard step unchanged from the source. */
  lemma CorrectedFinalCallProgresses(sup: Utf8Step, input: seq<Byte>, errors: string)
    requires FinalFlushes(sup)
    requires |input| > 0
    requires !(input[0] == ED && |input| >= 6 && !IsSurrogatePair(input))
    ensures BufferDecodeCorrected(sup, input, errors, true).Chunk? ==>
              BufferDecodeCorrected(sup, input, errors, true).consumed > 0
  {
    var cutoff := Cutoff(input);
    if cutoff > 0 {
      assert |input[..cutoff]| == cutoff;
    } else if cutoff == 0 && input[0] == C0 && |input| >= 2 && input[1] != 0x80 {
      assert |[C0]| == 1;
    }
  }

  /** The corrected step keeps every behaviour of the original on chunks that do not end the
      stream. */
  lemma CorrectedAgreesWhenNotFinal(sup: Utf8Step, input: seq<Byte>, errors: string)
    requires Cutoff(input) <= 0
    ensures BufferDecodeCorrected(sup, input, errors, false) == BufferDecode(sup, input, errors, false)
  {
  }
}
