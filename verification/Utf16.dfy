/** `UTF16` of 3rdparty/rapidjson/encodings.h: code units and surrogate pairs. */
module Utf16 {
  import Utf8

  type Unit = u: nat | u < 0x10000

  /** The code units of a scalar value. */
  function Encoding(codepoint: nat): (units: seq<Unit>)
    requires Utf8.IsScalarValue(codepoint)
    ensures 1 <= |units| <= 2
  {
    if codepoint <= 0xFFFF then [codepoint]
    else
      var v := codepoint - 0x10000;
      [0xD800 + v / 0x400, 0xDC00 + v % 0x400]
  }

  datatype Decoded = Decoded(ok: bool, codepoint: nat, rest: seq<Unit>)

  function Take(s: seq<Unit>): Unit {
    if s == [] then 0 else s[0]
  }

  function Rest(s: seq<Unit>): seq<Unit> {
    if s == [] then [] else s[1..]
  }

  /** `Decode` */
  function Decode(s: seq<Unit>): Decoded {
    var c := Take(s);
    if c < 0xD800 || c > 0xDFFF then Decoded(true, c, Rest(s))
    else if c <= 0xDBFF then
      var d := Take(Rest(s));
      Decoded(0xDC00 <= d <= 0xDFFF, (c % 0x400) * 0x400 + d % 0x400 + 0x10000, Rest(Rest(s)))
    else Decoded(false, 0, Rest(s))
  }

  lemma DecodeInvertsEncode(codepoint: nat, rest: seq<Unit>)
    requires Utf8.IsScalarValue(codepoint)
    ensures Decode(Encoding(codepoint) + rest) == Decoded(true, codepoint, rest)
  {
    var s := Encoding(codepoint) + rest;
    if codepoint <= 0xFFFF {
      assert s[1..] == rest;
    } else {
      assert s[1..][1..] == rest;
    }
  }

  lemma EncodeInvertsDecode(s: seq<Unit>)
    requires s != [] && Decode(s).ok
    ensures var d := Decode(s); Utf8.IsScalarValue(d.codepoint) && s == Encoding(d.codepoint) + d.rest
  {
    var d := Decode(s);
    if 0xD800 <= s[0] <= 0xDFFF {
      assert s == [s[0], s[1]] + s[1..][1..];
    } else {
      assert s == [s[0]] + s[1..];
    }
  }

  /** Transcoding to UTF-16 and back gives the same UTF-8 bytes. */
  lemma TranscodeRoundTrip(s: string, rest: seq<Unit>)
    requires s != "" && Utf8.DecodeOne(s).ok
    ensures var d := Utf8.DecodeOne(s);
            && Utf8.IsScalarValue(d.codepoint)
            && Decode(Encoding(d.codepoint) + rest).codepoint == d.codepoint
            && s == Utf8.Encoding(Decode(Encoding(d.codepoint) + rest).codepoint) + d.rest
  {
    hide Utf8.DecodeOne, Utf8.Encoding, Encoding, Decode;
    Utf8.EncodeInvertsDecode(s);
    DecodeInvertsEncode(Utf8.DecodeOne(s).codepoint, rest);
  }
}
