/** "Sloppy" single-byte codecs: a windows-125x code page made total by sending every byte
    the page leaves undefined to the character with the same code point (`make_sloppy_codec`
    and the `CODECS` registry loop).

    The real code pages are not part of this model: a page is the parameter `page`, the
    character that Python's `bytes([b]).decode(encoding, errors='replace')` gives for byte `b`
    (U+FFFD for a byte the page leaves undefined). The charmap primitives of Python's `codecs`
    module (`charmap_build`, `charmap_decode`, `charmap_encode`) are stated here with the
    semantics of their strict error policy. */
module SloppyWindows {
  import opened Wrappers

  /** A real single-byte code page, decoded one byte at a time with errors='replace'. */
  type CodePage = Byte -> char

  const ReplacementChar: char := '\U{FFFD}'

  /** The table entry that `charmap_decode` and `charmap_build` read as "unmapped". */
  const Unmapped: char := '\U{FFFE}'

  /** The 256-entry decoding table of the sloppy codec for `page`: the page's own character
      where it defines one, and the byte's own code point where it does not. */
  ghost predicate IsSloppyTable(page: CodePage, table: string)
  {
    && |table| == 0x100
    && (forall b: Byte :: page(b) != ReplacementChar ==> table[b] == page(b))
    && (forall b: Byte :: page(b) == ReplacementChar ==> table[b] as int == b)
  }

  /** The decoding loop of `make_sloppy_codec` (lines 7-13): one entry per byte, in byte order. */
  method BuildDecodingTable(page: CodePage) returns (table: string)
    ensures |table| == 0x100
    ensures forall b: Byte :: page(b) != ReplacementChar ==> table[b] == page(b)
    ensures forall b: Byte :: page(b) == ReplacementChar ==> table[b] as int == b
  {
    var decodingList: seq<char> := [];
    for byte := 0 to 0x100
      invariant |decodingList| == byte
      invariant forall b: Byte :: b < byte && page(b) != ReplacementChar ==> decodingList[b] == page(b)
      invariant forall b: Byte :: b < byte && page(b) == ReplacementChar ==> decodingList[b] as int == b
    {
      var ch := page(byte);
      if ch == ReplacementChar {
        ch := byte as char;
      }
      decodingList := decodingList + [ch];
    }
    table := decodingList;
  }

  /** `codecs.charmap_build(decoding_table)`: the encoding map, from each character of the
      table other than U+FFFE to a byte holding it; when a character occurs twice the later
      byte wins. This is what CPython's `PyUnicode_BuildEncodingMap` builds for a table that
      starts with U+0000, has no other U+0000 and stays in the Basic Multilingual Plane, as every
      windows-125x table does; for other tables CPython builds a dict that maps U+FFFE too. */
  function CharmapBuild(table: string): (m: map<char, Byte>)
    requires |table| <= 0x100
    ensures forall c :: c in m <==> c in table && c != Unmapped
    ensures forall c :: c in m ==> m[c] < |table| && table[m[c]] == c
    ensures forall c :: c in m ==> forall j :: m[c] < j < |table| ==> table[j] != c
  {
    if |table| == 0 then map[]
    else
      var init := table[..|table| - 1];
      var m := CharmapBuild(init);
      assert forall j :: 0 <= j < |init| ==> init[j] == table[j];
      assert table == init + [table[|table| - 1]];
      var last := table[|table| - 1];
      if last == Unmapped then m else m[last := |table| - 1]
  }

  /** `codecs.charmap_decode(input, 'strict', table)`, text part: every byte is looked up in the
      table; an entry U+FFFE raises UnicodeDecodeError (None). */
  function CharmapDecode(input: seq<Byte>, table: string): (r: Option<string>)
    requires |table| == 0x100
    ensures r.Some? <==> forall i :: 0 <= i < |input| ==> table[input[i]] != Unmapped
    ensures r.Some? ==> |r.value| == |input| && forall i :: 0 <= i < |input| ==> r.value[i] == table[input[i]]
  {
    if |input| == 0 then Some("")
    else if table[input[0]] == Unmapped then None
    else match CharmapDecode(input[1..], table)
      case None => None
      case Some(rest) =>
        assert forall i :: 1 <= i < |input| ==> input[i] == input[1..][i - 1];
        Some([table[input[0]]] + rest)
  }

  /** `codecs.charmap_encode(input, 'strict', encoding_table)`, bytes part: every character is
      looked up in the map; a character the map lacks raises UnicodeEncodeError (None). */
  function CharmapEncode(text: string, m: map<char, Byte>): (r: Option<seq<Byte>>)
    ensures r.Some? <==> forall i :: 0 <= i < |text| ==> text[i] in m
    ensures r.Some? ==> |r.value| == |text| && forall i :: 0 <= i < |text| ==> r.value[i] == m[text[i]]
  {
    if |text| == 0 then Some([])
    else if text[0] !in m then None
    else match CharmapEncode(text[1..], m)
      case None => None
      case Some(rest) =>
        assert forall i :: 1 <= i < |text| ==> text[i] == text[1..][i - 1];
        Some([m[text[0]]] + rest)
  }

  /** The `CodecInfo` that `make_sloppy_codec` returns: its name, and the two tables its
      encode and decode functions close over. */
  datatype SloppyCodec = SloppyCodec(name: string, decodingTable: string, encodingTable: map<char, Byte>)
  {
    /** `Codec.decode` / `IncrementalDecoder.decode` with errors='strict'. */
    function Decode(input: seq<Byte>): Option<string>
      requires |decodingTable| == 0x100
    {
      CharmapDecode(input, decodingTable)
    }

    /** `Codec.encode` / `IncrementalEncoder.encode` with errors='strict'. */
    function Encode(text: string): Option<seq<Byte>>
    {
      CharmapEncode(text, encodingTable)
    }
  }

  /** What `make_sloppy_codec(encoding)` builds when `page` is the code page of `encoding`. The
      name is the literal 'cp1252' of line 38, whatever the page. */
  ghost predicate IsSloppyCodecFor(codec: SloppyCodec, page: CodePage)
  {
    && codec.name == "cp1252"
    && IsSloppyTable(page, codec.decodingTable)
    && codec.encodingTable == CharmapBuild(codec.decodingTable)
  }

  /** `make_sloppy_codec` (lines 6-45). */
  method MakeSloppyCodec(page: CodePage) returns (codec: SloppyCodec)
    ensures IsSloppyCodecFor(codec, page)
  {
    var decodingTable := BuildDecodingTable(page);
    var encodingTable := CharmapBuild(decodingTable);
    codec := SloppyCodec("cp1252", decodingTable, encodingTable);
  }

  // ---------------------------------------------------------------------------------------
  // Totality and round trips.

  /** No two bytes decode to the same character. */
  ghost predicate Injective(table: string)
  {
    forall i, j :: 0 <= i < j < |table| ==> table[i] != table[j]
  }

  /** Decoding through any 256-entry table without U+FFFE never fails and preserves length. */
  lemma DecodeIsTotal(table: string, input: seq<Byte>)
    requires |table| == 0x100 && Unmapped !in table
    ensures CharmapDecode(input, table).Some?
    ensures |CharmapDecode(input, table).value| == |input|
  {
    assert forall i :: 0 <= i < |input| ==> table[input[i]] in table;
  }

  /** A sloppy table holds U+FFFE only where the real page does. */
  lemma SloppyTableHasNoUnmapped(page: CodePage, table: string)
    requires IsSloppyTable(page, table)
    requires forall b: Byte :: page(b) != Unmapped
    ensures Unmapped !in table
  {
    forall i | 0 <= i < |table| ensures table[i] != Unmapped {
      var b: Byte := i;
      assert table[b] == page(b) || table[b] as int == b;
    }
  }

  /** A sloppy table is one-to-one when the real page is one-to-one on the bytes it defines and
      never produces the Latin-1 character of a byte it leaves undefined. */
  lemma SloppyTableInjective(page: CodePage, table: string)
    requires IsSloppyTable(page, table)
    requires forall b: Byte, b': Byte :: b != b' && page(b) != ReplacementChar && page(b') != ReplacementChar ==> page(b) != page(b')
    requires forall b: Byte, u: Byte :: page(b) != ReplacementChar && page(u) == ReplacementChar ==> page(b) as int != u
    ensures Injective(table)
  {
    forall i, j | 0 <= i < j < |table| ensures table[i] != table[j] {
      var bi: Byte, bj: Byte := i, j;
      if page(bi) != ReplacementChar && page(bj) != ReplacementChar {
        assert table[i] == page(bi) && table[j] == page(bj);
      } else if page(bi) != ReplacementChar {
        assert table[i] == page(bi) && table[j] as int == bj;
      } else if page(bj) != ReplacementChar {
        assert table[i] as int == bi && table[j] == page(bj);
      } else {
        assert table[i] as int == bi && table[j] as int == bj;
      }
    }
  }

  /** For a one-to-one table, the encoding map sends each table entry back to its own byte. */
  lemma EncodingMapInverts(table: string, b: Byte)
    requires |table| == 0x100 && Injective(table) && table[b] != Unmapped
    ensures table[b] in CharmapBuild(table) && CharmapBuild(table)[table[b]] == b
  {
    var m := CharmapBuild(table);
    assert table[b] in table;
    var j := m[table[b]];
    assert table[j] == table[b];
  }

  /** encode(decode(b)) == b for every byte string, when the table is one-to-one. */
  lemma EncodeAfterDecode(table: string, input: seq<Byte>)
    requires |table| == 0x100 && Injective(table) && Unmapped !in table
    ensures CharmapDecode(input, table).Some?
    ensures CharmapEncode(CharmapDecode(input, table).value, CharmapBuild(table)) == Some(input)
  {
    DecodeIsTotal(table, input);
    var text := CharmapDecode(input, table).value;
    var m := CharmapBuild(table);
    forall i | 0 <= i < |text| ensures text[i] in m && m[text[i]] == input[i] {
      assert table[input[i]] in table;
      EncodingMapInverts(table, input[i]);
    }
    var r := CharmapEncode(text, m);
    assert r.Some?;
    assert r.value == input;
  }

  /** decode(encode(t)) == t for every text the codec can encode, whatever the table. */
  lemma DecodeAfterEncode(table: string, text: string)
    requires |table| == 0x100
    requires CharmapEncode(text, CharmapBuild(table)).Some?
    ensures CharmapDecode(CharmapEncode(text, CharmapBuild(table)).value, table) == Some(text)
  {
    var m := CharmapBuild(table);
    var bs := CharmapEncode(text, m).value;
    var r := CharmapDecode(bs, table);
    assert r.Some?;
    assert r.value == text;
  }

  /** Everything at once for a codec built by `make_sloppy_codec`: decoding never fails, keeps
      the length, agrees with the real page wherever the page defines the byte, and encoding
      undoes it. */
  lemma SloppyCodecRoundTrip(page: CodePage, codec: SloppyCodec, input: seq<Byte>)
    requires IsSloppyCodecFor(codec, page)
    requires forall b: Byte :: page(b) != Unmapped
    requires forall b: Byte, b': Byte :: b != b' && page(b) != ReplacementChar && page(b') != ReplacementChar ==> page(b) != page(b')
    requires forall b: Byte, u: Byte :: page(b) != ReplacementChar && page(u) == ReplacementChar ==> page(b) as int != u
    ensures codec.Decode(input).Some? && |codec.Decode(input).value| == |input|
    ensures forall i :: 0 <= i < |input| && page(input[i]) != ReplacementChar ==> codec.Decode(input).value[i] == page(input[i])
    ensures codec.Encode(codec.Decode(input).value) == Some(input)
  {
    SloppyTableHasNoUnmapped(page, codec.decodingTable);
    SloppyTableInjective(page, codec.decodingTable);
    EncodeAfterDecode(codec.decodingTable, input);
  }

  // ---------------------------------------------------------------------------------------
  // The registry of the nine sloppy codecs (lines 47-50).

  /** `'%s' % n` for a four-digit number. */
  function FourDigits(n: int): (s: string)
    requires 1000 <= n < 10000
    ensures |s| == 4 && forall i :: 0 <= i < 4 ==> '0' <= s[i] <= '9'
  {
    [Digit(n / 1000), Digit(n / 100 % 10), Digit(n / 10 % 10), Digit(n % 10)]
  }

  function Digit(d: int): char
    requires 0 <= d < 10
  {
    '0' + d as char
  }

  /** The decimal form of a code page number 1250..1258. */
  lemma CodePageDigits(n: int)
    requires 1250 <= n < 1259
    ensures FourDigits(n) == "125" + [Digit(n - 1250)]
  {
  }

  /** The registry key for code page `n`: `'sloppy%s' % n`. */
  function SloppyName(n: int): (name: string)
    requires 1250 <= n < 1259
    ensures name == "sloppy125" + [Digit(n - 1250)]
  {
    CodePageDigits(n);
    "sloppy" + FourDigits(n)
  }

  /** The name of the real code page for code page `n`: `'windows-%s' % n`. */
  function WindowsName(n: int): (name: string)
    requires 1250 <= n < 1259
    ensures name == "windows-125" + [Digit(n - 1250)]
  {
    CodePageDigits(n);
    "windows-" + FourDigits(n)
  }

  /** The `CODECS` loop: for each code page 1250..1258, `sloppy<n>` is the sloppy codec built
      from `windows-<n>`. `pageOf` is the real code page registered under a name. */
  method BuildCodecs(pageOf: string -> CodePage) returns (codecs: map<string, SloppyCodec>)
    ensures codecs.Keys == set n | 1250 <= n < 1259 :: SloppyName(n)
    ensures forall n :: 1250 <= n < 1259 ==> IsSloppyCodecFor(codecs[SloppyName(n)], pageOf(WindowsName(n)))
  {
    codecs := map[];
    for codepage := 1250 to 1259
      invariant codecs.Keys == set n | 1250 <= n < codepage :: SloppyName(n)
      invariant forall n :: 1250 <= n < codepage ==> IsSloppyCodecFor(codecs[SloppyName(n)], pageOf(WindowsName(n)))
    {
      var codecInfo := MakeSloppyCodec(pageOf(WindowsName(codepage)));
      SloppyNamesDistinct(codepage);
      codecs := codecs[SloppyName(codepage) := codecInfo];
    }
  }

  /** Different code pages get different names. */
  lemma SloppyNamesDistinct(codepage: int)
    requires 1250 <= codepage < 1259
    ensures forall n :: 1250 <= n < codepage ==> SloppyName(n) != SloppyName(codepage)
  {
    forall n | 1250 <= n < codepage ensures SloppyName(n) != SloppyName(codepage) {
      assert SloppyName(n)[9] != SloppyName(codepage)[9];
    }
  }

  /** The registry's names are exactly sloppy1250 .. sloppy1258. */
  lemma CodecNames()
    ensures (set n | 1250 <= n < 1259 :: SloppyName(n)) ==
            {"sloppy1250", "sloppy1251", "sloppy1252", "sloppy1253", "sloppy1254",
             "sloppy1255", "sloppy1256", "sloppy1257", "sloppy1258"}
  {
    assert SloppyName(1250) == "sloppy1250" && SloppyName(1251) == "sloppy1251";
    assert SloppyName(1252) == "sloppy1252" && SloppyName(1253) == "sloppy1253";
    assert SloppyName(1254) == "sloppy1254" && SloppyName(1255) == "sloppy1255";
    assert SloppyName(1256) == "sloppy1256" && SloppyName(1257) == "sloppy1257";
    assert SloppyName(1258) == "sloppy1258";
  }
}
