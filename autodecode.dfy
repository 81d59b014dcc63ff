/** The candidate decode cascade of `ftfy.autodecode`: from raw bytes to a short, ordered list of
    `(text, encoding, weight)` hypotheses.

    The real UTF-8 and UTF-16 codecs and `fix_java_encoding` are not part of this model: they
    are the fields of `Codecs`. ASCII decoding is stated concretely (`Wrappers.AsciiDecode`). */
module Autodecode {
  import opened Wrappers
  import Cesu8

  /** One decoding hypothesis: `(text, encoding, weight)`. */
  datatype Candidate = Candidate(text: string, encoding: string, weight: real)

  /** `bstring.decode(encoding)` under the strict policy; None is a UnicodeDecodeError. */
  type Decoder = seq<Byte> -> Option<string>

  /** The codecs the cascade consults. `fix_java_encoding` is called but neither imported nor
      defined in the module; it is supplied here as if it were imported. */
  datatype Codecs = Codecs(utf8: Decoder, utf16: Decoder, fixJavaEncoding: seq<Byte> -> seq<Byte>)

  /** `try_multibyte_encoding(bstring, encoding, weight)` (lines 16-21): the decoded text as a
      single candidate, or no candidate when decoding raises. */
  function TryMultibyteEncoding(decode: Decoder, bstring: seq<Byte>, encoding: string, weight: real)
    : (r: seq<Candidate>)
    ensures |r| <= 1
    ensures |r| == 1 <==> decode(bstring).Some?
    ensures forall c :: c in r ==> c == Candidate(decode(bstring).value, encoding, weight)
  {
    match decode(bstring)
    case Some(decoded) => [Candidate(decoded, encoding, weight)]
    case None => []
  }

  /** `decode_level0` (lines 24-25): the strict ASCII reading. */
  function DecodeLevel0(bstring: seq<Byte>): (r: seq<Candidate>)
    ensures |r| <= 1
    ensures |r| == 1 <==> AllAscii(bstring)
    ensures forall c :: c in r ==> c.encoding == "ascii" && c.weight == 1.0 && |c.text| == |bstring|
    ensures forall c :: c in r ==> forall i :: 0 <= i < |bstring| ==> c.text[i] as int == bstring[i]
  {
    TryMultibyteEncoding(AsciiDecode, bstring, "ascii", 1.0)
  }

  /** The input starts with a UTF-16 byte-order mark, `FE FF` or `FF FE`. */
  predicate HasBom(bstring: seq<Byte>)
  {
    |bstring| >= 2 && ((bstring[0] == 0xFE && bstring[1] == 0xFF) || (bstring[0] == 0xFF && bstring[1] == 0xFE))
  }

  /** `decode_level1` (lines 28-41): the ASCII reading, then either the UTF-16 reading (with a
      byte-order mark) or one UTF-8 reading, labelled 'cesu-8' when the Java fix would change
      the bytes. */
  function DecodeLevel1(codecs: Codecs, bstring: seq<Byte>): (r: seq<Candidate>)
    // the ASCII tier comes first and is never suppressed
    ensures |DecodeLevel0(bstring)| <= |r| <= 2
    ensures r[..|DecodeLevel0(bstring)|] == DecodeLevel0(bstring)
    ensures forall c :: c in r ==> c.weight == 1.0
    // with a byte-order mark, only a UTF-16 reading can follow
    ensures HasBom(bstring) ==> forall c :: c in r[|DecodeLevel0(bstring)|..] ==> c.encoding == "utf-16"
    ensures HasBom(bstring) ==> (|r| == |DecodeLevel0(bstring)| + 1 <==> codecs.utf16(bstring).Some?)
    // without one, at most one reading follows: 'cesu-8' of the bytes as given when the fix
    // changes them, 'utf-8' otherwise
    ensures !HasBom(bstring) ==> |r| <= |DecodeLevel0(bstring)| + 1
    // and it is there exactly when UTF-8 decoding of the bytes as given succeeds
    ensures !HasBom(bstring) ==> (|r| == |DecodeLevel0(bstring)| + 1 <==> codecs.utf8(bstring).Some?)
    ensures !HasBom(bstring) && codecs.fixJavaEncoding(bstring) != bstring ==>
              forall c :: c in r[|DecodeLevel0(bstring)|..] ==>
                c.encoding == "cesu-8" && codecs.utf8(bstring) == Some(c.text)
    ensures !HasBom(bstring) && codecs.fixJavaEncoding(bstring) == bstring ==>
              forall c :: c in r[|DecodeLevel0(bstring)|..] ==>
                c.encoding == "utf-8" && codecs.utf8(bstring) == Some(c.text)
  {
    var decodings := DecodeLevel0(bstring);
    if HasBom(bstring) then
      decodings + TryMultibyteEncoding(codecs.utf16, bstring, "utf-16", 1.0)
    else
      var fixed := codecs.fixJavaEncoding(bstring);
      if fixed != bstring then
        var possibleDecoding := TryMultibyteEncoding(codecs.utf8, bstring, "utf-8", 1.0);
        if |possibleDecoding| > 0 then
          decodings + [Candidate(possibleDecoding[0].text, "cesu-8", 1.0)]
        else decodings
      else
        decodings + TryMultibyteEncoding(codecs.utf8, bstring, "utf-8", 1.0)
  }

  // ---------------------------------------------------------------------------------------
  // What section 3 of RFC 3629 asks of a UTF-8 decoder, as far as the cascade needs it.

  /** ASCII bytes decode to themselves. */
  ghost predicate Utf8DecodesAscii(utf8: Decoder)
  {
    forall b :: AllAscii(b) ==> utf8(b) == AsciiDecode(b)
  }

  /** The first two bytes of an encoded surrogate, `ED A0`..`ED BF`, are rejected: surrogate
      code points have no UTF-8 form. */
  ghost predicate Utf8RejectsSurrogates(utf8: Decoder)
  {
    forall b, i :: 0 <= i < |b| - 1 && b[i] == 0xED && 0xA0 <= b[i + 1] <= 0xBF ==> utf8(b).None?
  }

  /** Pure ASCII input gives two candidates, the 'ascii' one and an identical 'utf-8' one. */
  lemma AsciiInputHasTwoCandidates(codecs: Codecs, bstring: seq<Byte>)
    requires Utf8DecodesAscii(codecs.utf8)
    requires AllAscii(bstring)
    requires codecs.fixJavaEncoding(bstring) == bstring
    ensures var text := AsciiDecode(bstring).value;
            DecodeLevel1(codecs, bstring) == [Candidate(text, "ascii", 1.0), Candidate(text, "utf-8", 1.0)]
  {
    assert !HasBom(bstring) by {
      if |bstring| >= 2 { assert bstring[0] < 0x80; }
    }
  }

  /** Input with a byte-order mark has no ASCII reading, so its only possible candidate is the
      UTF-16 one. */
  lemma BomInputIsUtf16Only(codecs: Codecs, bstring: seq<Byte>)
    requires HasBom(bstring)
    ensures DecodeLevel1(codecs, bstring) == TryMultibyteEncoding(codecs.utf16, bstring, "utf-16", 1.0)
  {
    assert !AllAscii(bstring) by { assert bstring[0] >= 0x80; }
  }

  // ---------------------------------------------------------------------------------------
  // The 'cesu-8' candidate. As written it is the UTF-8 reading of the bytes as given; a
  // conforming UTF-8 decoder rejects those bytes whenever they hold an encoded surrogate pair,
  // so the candidate can never appear for the input it exists for.

  /** As written: input holding a CESU-8 surrogate pair never gets a 'cesu-8' candidate, and
      without a byte-order mark it gets no candidate at all. */
  lemma SurrogatePairInputHasNoCandidate(codecs: Codecs, bstring: seq<Byte>, k: nat)
    requires Utf8RejectsSurrogates(codecs.utf8)
    requires k <= |bstring| && Cesu8.IsSurrogatePair(bstring[k..])
    ensures forall c :: c in DecodeLevel1(codecs, bstring) ==> c.encoding == "utf-16"
    ensures !HasBom(bstring) ==> DecodeLevel1(codecs, bstring) == []
  {
    assert bstring[k] == 0xED && 0xA0 <= bstring[k + 1] <= 0xBF by {
      assert bstring[k..][0] == bstring[k] && bstring[k..][1] == bstring[k + 1];
    }
    assert codecs.utf8(bstring).None?;
    assert !AllAscii(bstring) by { assert bstring[k] >= 0x80; }
  }

  /** `decode_level1` as evidently intended: the 'cesu-8' candidate is the UTF-8 reading of the
      bytes after the Java fix. */
  function DecodeLevel1Corrected(codecs: Codecs, bstring: seq<Byte>): (r: seq<Candidate>)
    ensures |DecodeLevel0(bstring)| <= |r| <= 2
    ensures r[..|DecodeLevel0(bstring)|] == DecodeLevel0(bstring)
    ensures forall c :: c in r ==> c.weight == 1.0
  {
    var decodings := DecodeLevel0(bstring);
    if HasBom(bstring) then
      decodings + TryMultibyteEncoding(codecs.utf16, bstring, "utf-16", 1.0)
    else
      var fixed := codecs.fixJavaEncoding(bstring);
      if fixed != bstring then
        decodings + TryMultibyteEncoding(codecs.utf8, fixed, "cesu-8", 1.0)
      else
        decodings + TryMultibyteEncoding(codecs.utf8, bstring, "utf-8", 1.0)
  }

  /** Corrected: input without a byte-order mark holding a surrogate pair, which the Java fix
      rewrites into bytes UTF-8 accepts, gets exactly one candidate, labelled 'cesu-8', whose text is the UTF-8 reading
      of the rewritten bytes. */
  lemma CorrectedSurrogatePairInput(codecs: Codecs, bstring: seq<Byte>, k: nat, text: string)
    requires k <= |bstring| && Cesu8.IsSurrogatePair(bstring[k..])
    requires !HasBom(bstring)
    requires codecs.fixJavaEncoding(bstring) != bstring
    requires codecs.utf8(codecs.fixJavaEncoding(bstring)) == Some(text)
    ensures DecodeLevel1Corrected(codecs, bstring) == [Candidate(text, "cesu-8", 1.0)]
  {
    assert bstring[k] == 0xED by { assert bstring[k..][0] == bstring[k]; }
    assert !AllAscii(bstring) by { assert bstring[k] >= 0x80; }
  }

  /** Corrected: everything except the 'cesu-8' text is as the source has it. */
  lemma CorrectedAgreesOutsideCesu8(codecs: Codecs, bstring: seq<Byte>)
    requires HasBom(bstring) || codecs.fixJavaEncoding(bstring) == bstring
    ensures DecodeLevel1Corrected(codecs, bstring) == DecodeLevel1(codecs, bstring)
  {
  }
}
