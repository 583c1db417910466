/**
 The standard base64 alphabet with padding (section 4 of RFC 4648), decoded strictly: the
 length is a multiple of four, padding is where the encoder puts it, unused bits are zero.
 */
module Base64 {
  import opened Prelude

  predicate IsDigit(c: char) {
    'A' <= c <= 'Z' || 'a' <= c <= 'z' || '0' <= c <= '9' || c == '+' || c == '/'
  }

  function ToDigit(v: nat): (c: char)
    requires v < 64
    ensures IsDigit(c)
  {
    if v < 26 then (v + 65) as char
    else if v < 52 then (v + 71) as char
    else if v < 62 then (v - 4) as char
    else if v == 62 then '+'
    else '/'
  }

  function FromDigit(c: char): (v: nat)
    requires IsDigit(c)
    ensures v < 64 && ToDigit(v) == c
  {
    if 'A' <= c <= 'Z' then c as int - 65
    else if 'a' <= c <= 'z' then c as int - 71
    else if '0' <= c <= '9' then c as int + 4
    else if c == '+' then 62
    else 63
  }

  /** The alphabet of section 4 of RFC 4648: capitals, small letters, digits, plus and slash. */
  lemma Alphabet(v: nat)
    requires v < 64
    ensures ToDigit(v) as int == if v < 26 then 'A' as int + v else if v < 52 then 'a' as int + (v - 26)
                                 else if v < 62 then '0' as int + (v - 52)
                                 else if v == 62 then '+' as int else '/' as int
  {
  }

  /** Three bytes as four digits. */
  function Split(x: Byte, y: Byte, z: Byte): (digits: string)
    ensures |digits| == 4 && forall i :: 0 <= i < 4 ==> IsDigit(digits[i])
  {
    [ToDigit(x / 4), ToDigit(x % 4 * 16 + y / 16), ToDigit(y % 16 * 4 + z / 64), ToDigit(z % 64)]
  }

  /** Four digits as three bytes. */
  function Join(digits: string): (bytes: seq<Byte>)
    requires |digits| == 4 && forall i :: 0 <= i < 4 ==> IsDigit(digits[i])
    ensures |bytes| == 3
  {
    var a, b, c, d := FromDigit(digits[0]), FromDigit(digits[1]), FromDigit(digits[2]), FromDigit(digits[3]);
    [a * 4 + b / 16, b % 16 * 16 + c / 4, c % 4 * 64 + d]
  }

  function Encode(bytes: seq<Byte>): string {
    if bytes == [] then ""
    else if |bytes| == 1 then Split(bytes[0], 0, 0)[..2] + "=="
    else if |bytes| == 2 then Split(bytes[0], bytes[1], 0)[..3] + "="
    else Split(bytes[0], bytes[1], bytes[2]) + Encode(bytes[3..])
  }

  /** How many characters of the last group are padding. */
  function Padding(group: string): (pad: nat)
    requires |group| == 4
    ensures pad <= 2
  {
    if group[3] != '=' then 0 else if group[2] != '=' then 1 else 2
  }

  /** The last group with zero digits in place of the padding. */
  function Unpadded(group: string): (digits: string)
    requires |group| == 4
    ensures |digits| == 4
  {
    var pad := Padding(group);
    group[..4 - pad] + (if pad == 2 then "AA" else if pad == 1 then "A" else "")
  }

  /** The last group, in which padding is allowed: the bits that carry no data must be zero. */
  function DecodeLast(group: string): Option<seq<Byte>>
    requires |group| == 4
  {
    var digits := Unpadded(group);
    if exists i :: 0 <= i < 4 && !IsDigit(digits[i]) then None
    else if exists i :: 3 - Padding(group) <= i < 3 && Join(digits)[i] != 0 then None
    else Some(Join(digits)[..3 - Padding(group)])
  }

  function Decode(text: string): Option<seq<Byte>> {
    if text == "" then Some([])
    else if |text| < 4 then None
    else if |text| == 4 then DecodeLast(text)
    else if exists i :: 0 <= i < 4 && !IsDigit(text[i]) then None
    else
      var tail := Decode(text[4..]);
      if tail.None? then None else Some(Join(text[..4]) + tail.value)
  }

  lemma DigitInverse(v: nat)
    requires v < 64
    ensures FromDigit(ToDigit(v)) == v
  {
  }

  lemma JoinSplit(x: Byte, y: Byte, z: Byte)
    ensures Join(Split(x, y, z)) == [x, y, z]
  {
    DigitInverse(x / 4);
    DigitInverse(x % 4 * 16 + y / 16);
    DigitInverse(y % 16 * 4 + z / 64);
    DigitInverse(z % 64);
    hide FromDigit, ToDigit;
    assert x / 4 * 4 + (x % 4 * 16 + y / 16) / 16 == x;
    assert (x % 4 * 16 + y / 16) % 16 * 16 + (y % 16 * 4 + z / 64) / 4 == y;
    assert (y % 16 * 4 + z / 64) % 4 * 64 + z % 64 == z;
  }

  /** Where an absent byte leaves only padding. */
  lemma SplitZeros(x: Byte, y: Byte)
    ensures Split(x, y, 0)[3] == 'A' && (y == 0 ==> Split(x, 0, 0)[2] == 'A')
  {
  }

  lemma DecodeLastGroup(x: Byte, y: Byte, z: Byte, n: nat)
    requires 1 <= n <= 3 && (n <= 2 ==> z == 0) && (n == 1 ==> y == 0)
    ensures DecodeLast(Split(x, y, z)[..n + 1] + (if n == 1 then "==" else if n == 2 then "=" else ""))
         == Some([x, y, z][..n])
  {
    JoinSplit(x, y, z);
    SplitZeros(x, y);
    hide Join, Split, FromDigit;
    var full := Split(x, y, z);
    assert IsDigit(full[0]) && IsDigit(full[1]) && IsDigit(full[2]) && IsDigit(full[3]);
    if n == 1 {
      assert (full[..2] + "==")[..2] + "AA" == full;
    } else if n == 2 {
      assert (full[..3] + "=")[..3] + "A" == full;
    } else {
      assert full[..4] + "" == full;
    }
  }

  lemma DecodeMore(x: Byte, y: Byte, z: Byte, tail: string)
    requires tail != "" && Decode(tail).Some?
    ensures Decode(Split(x, y, z) + tail) == Some([x, y, z] + Decode(tail).value)
  {
    JoinSplit(x, y, z);
    hide Split, Join, IsDigit;
    var text := Split(x, y, z) + tail;
    assert text[..4] == Split(x, y, z) && text[4..] == tail;
    assert forall i :: 0 <= i < 4 ==> text[i] == Split(x, y, z)[i];
  }

  /** Encoding the first bytes of a group whose other bytes are zero. */
  lemma EncodeShort(bytes: seq<Byte>, n: nat)
    requires |bytes| == 3 && 1 <= n <= 3 && forall i :: n <= i < 3 ==> bytes[i] == 0
    ensures Encode(bytes[..n]) ==
            Split(bytes[0], bytes[1], bytes[2])[..n + 1] + if n == 1 then "==" else if n == 2 then "=" else ""
  {
  }

  lemma DecodeEncodeShort(bytes: seq<Byte>)
    requires 1 <= |bytes| <= 3
    ensures Decode(Encode(bytes)) == Some(bytes)
  {
    hide Split, DecodeLast, IsDigit, Join, Encode;
    var y, z := if |bytes| >= 2 then bytes[1] else 0, if |bytes| == 3 then bytes[2] else 0;
    DecodeLastGroup(bytes[0], y, z, |bytes|);
    EncodeShort([bytes[0], y, z], |bytes|);
    assert [bytes[0], y, z][..|bytes|] == bytes;
  }

  lemma EncodeNonempty(bytes: seq<Byte>)
    requires bytes != []
    ensures Encode(bytes) != ""
  {
  }

  /** The decoder returns what was encoded. */
  lemma {:induction false} DecodeEncode(bytes: seq<Byte>)
    ensures Decode(Encode(bytes)) == Some(bytes)
  {
    hide Split, DecodeLast, IsDigit, Join;
    if 1 <= |bytes| <= 3 {
      DecodeEncodeShort(bytes);
    } else if |bytes| > 3 {
      hide Decode;
      DecodeEncode(bytes[3..]);
      EncodeNonempty(bytes[3..]);
      DecodeMore(bytes[0], bytes[1], bytes[2], Encode(bytes[3..]));
      assert bytes == [bytes[0], bytes[1], bytes[2]] + bytes[3..];
    }
  }

  /** Encoded text holds only alphabet characters and padding. */
  lemma {:induction false} EncodeAlphabet(bytes: seq<Byte>)
    ensures forall i :: 0 <= i < |Encode(bytes)| ==> IsDigit(Encode(bytes)[i]) || Encode(bytes)[i] == '='
  {
    hide Split, IsDigit;
    if |bytes| < 3 {
    } else {
      EncodeAlphabet(bytes[3..]);
    }
  }

  // ---------------------------------------------------------------- only encoded text is accepted

  lemma SplitJoin(digits: string)
    requires |digits| == 4 && forall i :: 0 <= i < 4 ==> IsDigit(digits[i])
    ensures var b := Join(digits); Split(b[0], b[1], b[2]) == digits
  {
    hide IsDigit, FromDigit, ToDigit;
    var a, b, c, d := FromDigit(digits[0]), FromDigit(digits[1]), FromDigit(digits[2]), FromDigit(digits[3]);
    SixBits(a, b, c, d);
    assert digits == [ToDigit(a), ToDigit(b), ToDigit(c), ToDigit(d)];
  }

  lemma SixBits(a: nat, b: nat, c: nat, d: nat)
    requires a < 64 && b < 64 && c < 64 && d < 64
    ensures var x, y, z := a * 4 + b / 16, b % 16 * 16 + c / 4, c % 4 * 64 + d;
            x / 4 == a && x % 4 * 16 + y / 16 == b && y % 16 * 4 + z / 64 == c && z % 64 == d
  {
  }

  lemma EncodeDecodeLast(group: string)
    requires |group| == 4 && DecodeLast(group).Some?
    ensures DecodeLast(group).value != [] && Encode(DecodeLast(group).value) == group
  {
    var pad, digits := Padding(group), Unpadded(group);
    assert digits[..4 - pad] == group[..4 - pad];
    assert group == group[..4 - pad] + if pad == 2 then "==" else if pad == 1 then "=" else "";
    hide Split, Join, IsDigit, Padding, Unpadded;
    var bytes := Join(digits);
    SplitJoin(digits);
    EncodeShort(bytes, 3 - pad);
  }

  /** Only the encoder's own output is accepted. */
  lemma {:induction false} EncodeDecode(text: string)
    requires Decode(text).Some?
    ensures Encode(Decode(text).value) == text
  {
    if |text| == 4 {
      EncodeDecodeLast(text);
    } else if text != "" {
      EncodeDecode(text[4..]);
      SplitJoin(text[..4]);
      hide Split, Join, IsDigit;
      EncodeMore(Join(text[..4]), Decode(text[4..]).value);
      assert text == text[..4] + text[4..];
    }
  }

  lemma EncodeMore(three: seq<Byte>, more: seq<Byte>)
    requires |three| == 3
    ensures Encode(three + more) == Split(three[0], three[1], three[2]) + Encode(more)
  {
  }

  lemma ExampleGroups()
    ensures Split(0x66, 0, 0) == "ZgAA" && Split(0x66, 0x6F, 0) == "Zm8A"
    ensures Split(0x66, 0x6F, 0x6F) == "Zm9v" && Split(0x62, 0x61, 0x72) == "YmFy"
  {
  }

  /** Examples of section 10 of RFC 4648. */
  lemma Rfc4648Examples()
    ensures Encode([0x66]) == "Zg==" && Encode([0x66, 0x6F]) == "Zm8=" && Encode([0x66, 0x6F, 0x6F]) == "Zm9v"
    ensures Encode([0x66, 0x6F, 0x6F, 0x62, 0x61, 0x72]) == "Zm9vYmFy"
  {
    hide Split, ToDigit;
    ExampleGroups();
    var bar, foo, foobar := [0x62, 0x61, 0x72], [0x66, 0x6F, 0x6F], [0x66, 0x6F, 0x6F, 0x62, 0x61, 0x72];
    assert bar[3..] == [] && foo[3..] == [] && foobar[3..] == bar;
    assert Encode(bar) == "YmFy";
    assert "ZgAA"[..2] + "==" == "Zg==" && "Zm8A"[..3] + "=" == "Zm8=" && "Zm9v" + "YmFy" == "Zm9vYmFy";
  }
}
