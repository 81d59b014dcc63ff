/** Option, and the byte type shared by every codec module. */
module Wrappers {

  /** A value that may be missing: the model of Python's `None` results and of a raised
      UnicodeError / UnicodeDecodeError (None) against a successful result (Some). */
  datatype Option<+T> = None | Some(value: T)

  /** An 8-bit unit of a Python `bytes` object. */
  type Byte = b: int | 0 <= b < 0x100

  /** True when every byte is below 0x80, i.e. the bytes are 7-bit ASCII. */
  predicate AllAscii(bs: seq<Byte>)
  {
    forall i :: 0 <= i < |bs| ==> bs[i] < 0x80
  }

  /** Python's `bstring.decode('ascii')` under the strict error policy: each byte below 0x80
      becomes the character with that code point; any other byte raises (None). */
  function AsciiDecode(bs: seq<Byte>): (r: Option<string>)
    ensures r.Some? <==> AllAscii(bs)
    ensures r.Some? ==> |r.value| == |bs| && forall i :: 0 <= i < |bs| ==> r.value[i] as int == bs[i]
  {
    if |bs| == 0 then Some("")
    else if bs[0] >= 0x80 then None
    else match AsciiDecode(bs[1..])
      case None => None
      case Some(rest) => Some([bs[0] as char] + rest)
  }
}
