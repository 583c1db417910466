/**
 UTF-8 as RFC 3629 defines it: the encoder of section 3, the byte grammar of section 4,
 and the decoder the key parser uses, which tries slice lengths 4 down to 1.
 */
module Utf8 {
  import opened Prelude

  /** One decoded character and the number of bytes it occupies. */
  datatype Decoded = Decoded(ch: char, len: nat)

  /** The number of bytes that encode `c`. */
  function Width(c: char): nat {
    var v := c as int;
    if v < 0x80 then 1 else if v < 0x800 then 2 else if v < 0x1_0000 then 3 else 4
  }

  /** Section 3 of RFC 3629: the bytes of one character. */
  function Encode(c: char): (bytes: seq<Byte>)
    ensures |bytes| == Width(c)
  {
    var v := c as int;
    if v < 0x80 then [v]
    else if v < 0x800 then [0xC0 + v / 64, 0x80 + v % 64]
    else if v < 0x1_0000 then [0xE0 + v / 4096, 0x80 + v / 64 % 64, 0x80 + v % 64]
    else [0xF0 + v / 262144, 0x80 + v / 4096 % 64, 0x80 + v / 64 % 64, 0x80 + v % 64]
  }

  /** The bytes of a text. */
  function EncodeAll(text: string): seq<Byte> {
    if text == "" then [] else Encode(text[0]) + EncodeAll(text[1..])
  }

  predicate IsTail(b: Byte) {
    0x80 <= b <= 0xBF
  }

  /**
   Section 4 of RFC 3629: decode the character announced by the lead byte. The ranges of the
   second byte rule out overlong forms, surrogates, and values above U+10FFFF.
   */
  function LeadDecode(s: seq<Byte>): Option<Decoded> {
    if |s| >= 1 && s[0] < 0x80 then
      Some(Decoded(s[0] as char, 1))
    else if |s| >= 2 && 0xC2 <= s[0] <= 0xDF && IsTail(s[1]) then
      Some(Decoded(Value2(s[0], s[1]) as char, 2))
    else if |s| >= 3 && 0xE0 <= s[0] <= 0xEF && IsTail(s[1]) && IsTail(s[2])
            && (s[0] == 0xE0 ==> 0xA0 <= s[1]) && (s[0] == 0xED ==> s[1] <= 0x9F) then
      Some(Decoded(Value3(s[0], s[1], s[2]) as char, 3))
    else if |s| >= 4 && 0xF0 <= s[0] <= 0xF4 && IsTail(s[1]) && IsTail(s[2]) && IsTail(s[3])
            && (s[0] == 0xF0 ==> 0x90 <= s[1]) && (s[0] == 0xF4 ==> s[1] <= 0x8F) then
      Some(Decoded(Value4(s[0], s[1], s[2], s[3]) as char, 4))
    else None
  }

  /** The code point carried by two, three, or four bytes: the payload bits in order. */
  function Value2(b0: int, b1: int): int { (b0 - 0xC0) * 64 + (b1 - 0x80) }

  function Value3(b0: int, b1: int, b2: int): int { (b0 - 0xE0) * 4096 + (b1 - 0x80) * 64 + (b2 - 0x80) }

  function Value4(b0: int, b1: int, b2: int, b3: int): int {
    (b0 - 0xF0) * 262144 + (b1 - 0x80) * 4096 + (b2 - 0x80) * 64 + (b3 - 0x80)
  }

  lemma Digits3(a: int, b: int, c: int)
    requires 0 <= b < 64 && 0 <= c < 64
    ensures var v := a * 4096 + b * 64 + c; v / 4096 == a && v / 64 % 64 == b && v % 64 == c
  {
    var v := a * 4096 + b * 64 + c;
    assert v / 64 == a * 64 + b;
  }

  lemma Digits4(a: int, b: int, c: int, d: int)
    requires 0 <= b < 64 && 0 <= c < 64 && 0 <= d < 64
    ensures var v := a * 262144 + b * 4096 + c * 64 + d;
            v / 262144 == a && v / 4096 % 64 == b && v / 64 % 64 == c && v % 64 == d
  {
    var v := a * 262144 + b * 4096 + c * 64 + d;
    assert v / 64 == a * 4096 + b * 64 + c;
    assert v / 4096 == a * 64 + b;
  }

  /** A number is the sum of its digits to base 64, whatever lies above the last one taken. */
  lemma SumOfDigits(v: nat)
    ensures v == v / 4096 * 4096 + v / 64 % 64 * 64 + v % 64
    ensures v == v / 262144 * 262144 + v / 4096 % 64 * 4096 + v / 64 % 64 * 64 + v % 64
  {
    DigitAbove(v, 64);
    DigitAbove(v, 4096);
    assert v == v / 64 * 64 + v % 64;
  }

  lemma DigitAbove(v: nat, unit: nat)
    requires unit == 64 || unit == 4096
    ensures v / unit == v / (unit * 64) * 64 + v / unit % 64
  {
    if unit == 64 {
      assert v / 64 / 64 == v / 4096;
    } else {
      assert v / 4096 / 64 == v / 262144;
    }
  }

  /** The first bytes of `Encode(c) + rest` carry the digits of the code point of `c`. */
  lemma EncodedDigits(c: char)
    ensures var v, e := c as int, Encode(c);
            && (Width(c) == 1 ==> e[0] == v)
            && (Width(c) == 2 ==> Value2(e[0], e[1]) == v)
            && (Width(c) == 3 ==> Value3(e[0], e[1], e[2]) == v)
            && (Width(c) == 4 ==> Value4(e[0], e[1], e[2], e[3]) == v)
            && forall i :: 1 <= i < |e| ==> IsTail(e[i])
  {
    SumOfDigits(c as int);
  }

  lemma LeadDecodeOfEncode(c: char, rest: seq<Byte>)
    ensures LeadDecode(Encode(c) + rest) == Some(Decoded(c, Width(c)))
  {
    EncodedDigits(c);
    LeadBytes(c);
    var e, s := Encode(c), Encode(c) + rest;
    assert forall i :: 0 <= i < |e| ==> s[i] == e[i];
    hide Encode;
  }

  /** The lead byte of each length, and the second bytes that some lead bytes require. */
  lemma LeadBytes(c: char)
    ensures var e := Encode(c);
            && (Width(c) == 1 ==> e[0] < 0x80)
            && (Width(c) == 2 ==> 0xC2 <= e[0] <= 0xDF)
            && (Width(c) == 3 ==> 0xE0 <= e[0] <= 0xEF
                                  && (e[0] == 0xE0 ==> 0xA0 <= e[1]) && (e[0] == 0xED ==> e[1] <= 0x9F))
            && (Width(c) == 4 ==> 0xF0 <= e[0] <= 0xF4
                                  && (e[0] == 0xF0 ==> 0x90 <= e[1]) && (e[0] == 0xF4 ==> e[1] <= 0x8F))
  {
  }

  lemma LeadDecodeIsEncoded(s: seq<Byte>)
    requires LeadDecode(s).Some?
    ensures var d := LeadDecode(s).value; 1 <= d.len <= |s| && d.len == Width(d.ch) && s[..d.len] == Encode(d.ch)
  {
    var d := LeadDecode(s).value;
    if d.len == 3 {
      Digits3(s[0] as int - 0xE0, s[1] as int - 0x80, s[2] as int - 0x80);
      assert s[..3] == [s[0], s[1], s[2]];
    } else if d.len == 4 {
      Digits4(s[0] as int - 0xF0, s[1] as int - 0x80, s[2] as int - 0x80, s[3] as int - 0x80);
      assert s[..4] == [s[0], s[1], s[2], s[3]];
    }
  }

  /** Lead-byte decoding inverts the encoder, whatever bytes follow, and accepts nothing else. */
  lemma LeadDecodeExact(s: seq<Byte>, c: char)
    ensures LeadDecode(s) == Some(Decoded(c, Width(c))) <==> Encode(c) <= s
  {
    if Encode(c) <= s {
      LeadDecodeOfEncode(c, s[Width(c)..]);
      assert s == Encode(c) + s[Width(c)..];
    } else if LeadDecode(s) == Some(Decoded(c, Width(c))) {
      LeadDecodeIsEncoded(s);
    }
  }

  lemma NoCharacterAtFront(s: seq<Byte>)
    ensures LeadDecode(s).None? <==> forall c: char :: !(Encode(c) <= s)
  {
    if LeadDecode(s).None? {
      forall c: char ensures !(Encode(c) <= s) { LeadDecodeExact(s, c); }
    } else {
      LeadDecodeIsEncoded(s);
      assert Encode(LeadDecode(s).value.ch) <= s;
    }
  }

  /** Strict decoding of a whole byte string: the standard library's `str::from_utf8`. */
  function FromUtf8(s: seq<Byte>): Option<string>
    decreases |s|
  {
    if s == [] then Some("")
    else
      var d := LeadDecode(s);
      if d.None? then None
      else
        LeadDecodeIsEncoded(s);
        var tail := FromUtf8(s[d.value.len..]);
        if tail.None? then None else Some([d.value.ch] + tail.value)
  }

  /** A byte string is valid exactly when it is the encoding of some text, and then of one text only. */
  lemma {:induction false} FromUtf8Exact(s: seq<Byte>, text: string)
    ensures FromUtf8(s) == Some(text) <==> s == EncodeAll(text)
    decreases |text|
  {
    hide Encode, LeadDecode;
    if text == "" {
    } else {
      if FromUtf8(s) == Some(text) {
        LeadDecodeIsEncoded(s);
        var n := LeadDecode(s).value.len;
        assert text[1..] == FromUtf8(s[n..]).value;
        FromUtf8Exact(s[n..], text[1..]);
        assert s == s[..n] + s[n..];
      }
      if s == EncodeAll(text) {
        LeadDecodeOfEncode(text[0], EncodeAll(text[1..]));
        assert s[Width(text[0])..] == EncodeAll(text[1..]);
        FromUtf8Exact(EncodeAll(text[1..]), text[1..]);
        assert [text[0]] + text[1..] == text;
      }
    }
  }

  lemma {:induction false} EncodeAllAppend(a: string, b: string)
    ensures EncodeAll(a + b) == EncodeAll(a) + EncodeAll(b)
  {
    if a == "" {
      assert a + b == b;
    } else {
      assert (a + b)[1..] == a[1..] + b;
      EncodeAllAppend(a[1..], b);
      hide Encode;
      assert Encode(a[0]) + (EncodeAll(a[1..]) + EncodeAll(b)) == Encode(a[0]) + EncodeAll(a[1..]) + EncodeAll(b);
    }
  }

  predicate IsAscii(text: string) {
    forall i :: 0 <= i < |text| ==> text[i] as int < 0x80
  }

  /** An ASCII text is encoded byte for character. */
  lemma {:induction false} EncodeAllAscii(text: string)
    requires IsAscii(text)
    ensures |EncodeAll(text)| == |text|
    ensures forall i :: 0 <= i < |text| ==> EncodeAll(text)[i] == text[i] as int
  {
    if text == "" {
    } else {
      EncodeAllAscii(text[1..]);
    }
  }

  /** A text has at least as many bytes as characters, and exactly as many only if it is ASCII. */
  lemma {:induction false} EncodeAllLength(text: string)
    ensures |EncodeAll(text)| >= |text|
    ensures |EncodeAll(text)| == |text| <==> IsAscii(text)
  {
    if text == "" {
    } else {
      EncodeAllLength(text[1..]);
      assert IsAscii(text) <==> text[0] as int < 0x80 && IsAscii(text[1..]) by {
        assert text == [text[0]] + text[1..];
      }
    }
  }

  /** The slice of `len` bytes is one whole valid character: the test made for each length. */
  predicate IsOneCharacter(s: seq<Byte>, len: nat)
    requires len <= |s|
  {
    var t := FromUtf8(s[..len]);
    t.Some? && |t.value| > 0 && Width(t.value[0]) == len
  }

  /** At most one length passes the test, and it is the length the lead byte announces. */
  lemma OneCharacterExact(s: seq<Byte>, len: nat)
    requires len <= |s|
    ensures IsOneCharacter(s, len) <==> LeadDecode(s).Some? && LeadDecode(s).value.len == len
    ensures IsOneCharacter(s, len) ==> FromUtf8(s[..len]).value[0] == LeadDecode(s).value.ch
  {
  }

  /** The search over lengths agrees with decoding by the lead byte. */
  method DecodeUtf8Char(bytes: seq<Byte>) returns (r: Option<Decoded>)
    ensures r == LeadDecode(bytes)
  {
    var len := Min(4, |bytes|);
    if LeadDecode(bytes).Some? {
      LeadDecodeIsEncoded(bytes);
    }
    while len >= 1
      invariant len <= |bytes|
      invariant LeadDecode(bytes).Some? ==> 1 <= LeadDecode(bytes).value.len <= len
    {
      OneCharacterExact(bytes, len);
      var text := FromUtf8(bytes[..len]);
      if text.Some? {
        if |text.value| > 0 {
          if Width(text.value[0]) == len {
            return Some(Decoded(text.value[0], len));
          }
        }
      }
      len := len - 1;
    }
    r := None;
  }

  /** Examples of section 7 of RFC 3629. */
  lemma Rfc3629Examples()
    ensures Encode('\U{41}') == [0x41] && Encode('\U{2262}') == [0xE2, 0x89, 0xA2]
    ensures Encode('\U{391}') == [0xCE, 0x91] && Encode('\U{D55C}') == [0xED, 0x95, 0x9C]
    ensures Encode('\U{65E5}') == [0xE6, 0x97, 0xA5] && Encode('\U{233B4}') == [0xF0, 0xA3, 0x8E, 0xB4]
  {
  }
}
