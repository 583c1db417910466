/**
 The wire format the shell integration writes, and its round trip: events interleaved with
 ordinary text are read back exactly, whatever the chunking.
 */
module OscWire {
  import opened Prelude
  import opened Osc
  import Utf8
  import Base64
  import OscFilter

  // ---------------------------------------------------------------- decimal numbers

  function ToDecimal(n: nat): (digits: string)
    ensures digits != "" && AllDecimal(digits)
  {
    var last := [(48 + n % 10) as char];
    if n < 10 then last else ToDecimal(n / 10) + last
  }

  lemma {:induction false} DecimalValueOfToDecimal(n: nat)
    ensures DecimalValue(ToDecimal(n)) == n
  {
    var digits := ToDecimal(n);
    assert digits[|digits| - 1] as int - 48 == n % 10;
    if n < 10 {
      assert digits[..|digits| - 1] == "";
    } else {
      assert digits[..|digits| - 1] == ToDecimal(n / 10);
      DecimalValueOfToDecimal(n / 10);
    }
  }

  lemma ParseToDecimal(n: nat)
    requires n <= USIZE_MAX
    ensures ParseUsize(ToDecimal(n)) == Some(n)
  {
    DecimalValueOfToDecimal(n);
    assert IsDecimal(ToDecimal(n)[0]);
  }

  /** A number in decimal is read as a cursor exactly if it fits 64 bits. */
  lemma CursorFitsIff(n: nat)
    ensures ParseUsize(ToDecimal(n)) == if n <= 18_446_744_073_709_551_615 then Some(n) else None
  {
    DecimalValueOfToDecimal(n);
    assert IsDecimal(ToDecimal(n)[0]);
  }

  lemma DecimalDigits()
    ensures ToDecimal(7) == "7" && ToDecimal(1024) == "1024"
  {
    assert ToDecimal(1) == "1" && ToDecimal(10) == "10" && ToDecimal(102) == "102";
  }

  lemma DecimalExamples()
    ensures ParseUsize("1024") == Some(1024) && ParseUsize("+7") == Some(7)
    ensures ParseUsize("") == None && ParseUsize("+") == None && ParseUsize("-1") == None
  {
    hide ToDecimal, DecimalValue;
    DecimalDigits();
    ParseToDecimal(1024);
    ParseToDecimal(7);
    assert "7"[0] == '7' && "+7"[0] == '+' && "+7"[1..] == "7" && "+"[1..] == "";
    assert !IsDecimal("-1"[0]);
  }

  function Zeros(k: nat): string {
    if k == 0 then "" else Zeros(k - 1) + "0"
  }

  lemma AppendDigit(digits: string, c: char)
    requires AllDecimal(digits) && IsDecimal(c)
    ensures AllDecimal(digits + [c]) && DecimalValue(digits + [c]) == DecimalValue(digits) * 10 + (c as int - 48)
  {
    assert (digits + [c])[..|digits|] == digits;
  }

  lemma {:induction false} ZerosMeanNothing(k: nat)
    ensures AllDecimal(Zeros(k)) && DecimalValue(Zeros(k)) == 0
  {
    if k == 0 {
    } else {
      ZerosMeanNothing(k - 1);
      AppendDigit(Zeros(k - 1), '0');
    }
  }

  lemma {:induction false} LeadingZeros(k: nat, n: nat)
    ensures AllDecimal(Zeros(k) + ToDecimal(n)) && DecimalValue(Zeros(k) + ToDecimal(n)) == n
    decreases n
  {
    hide Zeros, DecimalValue;
    var last := (48 + n % 10) as char;
    if n < 10 {
      ZerosMeanNothing(k);
      AppendDigit(Zeros(k), last);
    } else {
      LeadingZeros(k, n / 10);
      AppendDigit(Zeros(k) + ToDecimal(n / 10), last);
      Regroup(Zeros(k), ToDecimal(n / 10), [last]);
    }
  }

  /** Digits are leading zeros and the shortest decimal form of their value. */
  lemma {:induction false} DigitsAreZerosAndDecimal(digits: string) returns (k: nat)
    requires digits != "" && AllDecimal(digits)
    ensures digits == Zeros(k) + ToDecimal(DecimalValue(digits))
  {
    var init, last := digits[..|digits| - 1], digits[|digits| - 1];
    assert digits == init + [last] && IsDecimal(last);
    var v, v0 := DecimalValue(digits), DecimalValue(init);
    if init == "" {
      k := 0;
    } else {
      var k0 := DigitsAreZerosAndDecimal(init);
      if v0 == 0 {
        k := k0 + 1;
        assert Zeros(k0) + ToDecimal(0) == Zeros(k);
      } else {
        k := k0;
        assert v / 10 == v0 && v % 10 == last as int - 48;
        Regroup(Zeros(k0), ToDecimal(v0), [last]);
      }
    }
  }

  /** Exactly which texts parse as a cursor: a plus sign or none, zeros, and a number of 64 bits. */
  lemma CursorTexts(s: string, n: nat)
    ensures ParseUsize(s) == Some(n) <==>
            n <= USIZE_MAX && exists k :: s == Zeros(k) + ToDecimal(n) || s == "+" + (Zeros(k) + ToDecimal(n))
  {
    hide DecimalValue, ToDecimal, Zeros, AllDecimal;
    var digits := if |s| > 0 && s[0] == '+' then s[1..] else s;
    if ParseUsize(s) == Some(n) {
      var k := DigitsAreZerosAndDecimal(digits);
      assert s == digits || s == "+" + digits;
    }
    forall k | n <= USIZE_MAX && (s == Zeros(k) + ToDecimal(n) || s == "+" + (Zeros(k) + ToDecimal(n)))
      ensures ParseUsize(s) == Some(n)
    {
      LeadingZeros(k, n);
      var plain := Zeros(k) + ToDecimal(n);
      FirstIsDigit(plain);
      assert ("+" + plain)[1..] == plain;
    }
  }

  lemma FirstIsDigit(digits: string)
    requires AllDecimal(digits) && digits != ""
    ensures digits[0] != '+'
  {
    assert IsDecimal(digits[0]);
  }

  // ---------------------------------------------------------------- one event

  function WireText(e: OscEvent): string {
    match e
    case CommandLine(buffer, cursor) => "CL;" + Base64.Encode(Utf8.EncodeAll(buffer)) + ";" + ToDecimal(cursor)
    case PromptStart => "PS"
    case PromptEnd => "PE"
  }

  function Payload(e: OscEvent): seq<Byte> {
    Utf8.EncodeAll(WireText(e))
  }

  function WireFrame(e: OscEvent): seq<Byte> {
    PREFIX + Payload(e) + [BEL]
  }

  predicate Writable(e: OscEvent) {
    |Payload(e)| <= CAP && (e.CommandLine? ==> e.cursor <= USIZE_MAX)
  }

  /** Separators cannot occur inside a field: neither digits nor base64 use them. */
  lemma SplitOfThree(code: string, arg: string, rest: string)
    requires ';' !in code && ';' !in arg
    ensures SplitFields(code + ";" + arg + ";" + rest) == [code, arg, rest]
  {
    hide Find;
    var s := code + ";" + arg + ";" + rest;
    var k := Find(s, ';');
    assert s[|code|] == ';';
    assert forall i :: 0 <= i < |code| ==> s[i] == code[i];
    assert s[..k] == code;
    var tail := s[k + 1..];
    assert tail == arg + ";" + rest;
    var m := Find(tail, ';');
    assert tail[|arg|] == ';';
    assert forall i :: 0 <= i < |arg| ==> tail[i] == arg[i];
    assert tail[..m] == arg && tail[m + 1..] == rest;
  }

  lemma WireTextIsPlainAscii(e: OscEvent)
    ensures Utf8.IsAscii(WireText(e)) && forall i :: 0 <= i < |WireText(e)| ==> WireText(e)[i] as int != BEL
  {
    if e.CommandLine? {
      var b64, digits := Base64.Encode(Utf8.EncodeAll(e.buffer)), ToDecimal(e.cursor);
      Base64.EncodeAlphabet(Utf8.EncodeAll(e.buffer));
      assert forall i :: 0 <= i < |digits| ==> IsDecimal(digits[i]);
    }
  }

  lemma PayloadHasNoTerminator(e: OscEvent)
    ensures BEL !in Payload(e)
  {
    WireTextIsPlainAscii(e);
    Utf8.EncodeAllAscii(WireText(e));
  }

  /** The payload written for an event parses to that event. */
  lemma ParseWritten(e: OscEvent)
    requires Writable(e)
    ensures ParsePayload(Payload(e)) == Some(e)
  {
    match e
    case CommandLine(buffer, cursor) =>
      ParseToDecimal(cursor);
      FieldsParse(Payload(e), buffer, cursor, ToDecimal(cursor));
    case PromptStart =>
      Utf8.FromUtf8Exact(Payload(e), "PS");
      assert SplitFields("PS") == ["PS"];
    case PromptEnd =>
      Utf8.FromUtf8Exact(Payload(e), "PE");
      assert SplitFields("PE") == ["PE"];
  }

  lemma JoinTwo(s: string)
    ensures var k := Find(s, ';'); k < |s| ==> s == s[..k] + ";" + s[k + 1..]
  {
  }

  lemma JoinFields(text: string)
    ensures var f := SplitFields(text); 1 <= |f| <= 3 && (|f| == 3 ==> text == f[0] + ";" + f[1] + ";" + f[2])
  {
    hide Find;
    JoinTwo(text);
    var k := Find(text, ';');
    if k < |text| {
      var rest := text[k + 1..];
      JoinTwo(rest);
      var m := Find(rest, ';');
      if m < |rest| {
        Regroup(text[..k] + ";", rest[..m] + ";", rest[m + 1..]);
        Regroup(text[..k] + ";", rest[..m], ";");
      }
    }
  }

  /**
   Exactly which payloads report a command line: the code, the standard base64 text of the
   buffer's UTF-8, and a decimal cursor that fits 64 bits.
   */
  lemma CommandLinePayloads(payload: seq<Byte>, buffer: string, cursor: nat)
    ensures ParsePayload(payload) == Some(CommandLine(buffer, cursor)) <==>
            exists digits :: ParseUsize(digits) == Some(cursor)
              && payload == Utf8.EncodeAll("CL;" + Base64.Encode(Utf8.EncodeAll(buffer)) + ";" + digits)
  {
    if ParsePayload(payload) == Some(CommandLine(buffer, cursor)) {
      CommandLineFields(payload, buffer, cursor);
    }
    forall digits | ParseUsize(digits) == Some(cursor)
                    && payload == Utf8.EncodeAll("CL;" + Base64.Encode(Utf8.EncodeAll(buffer)) + ";" + digits)
      ensures ParsePayload(payload) == Some(CommandLine(buffer, cursor))
    {
      FieldsParse(payload, buffer, cursor, digits);
    }
  }

  lemma CommandLineFields(payload: seq<Byte>, buffer: string, cursor: nat)
    requires ParsePayload(payload) == Some(CommandLine(buffer, cursor))
    ensures exists digits :: ParseUsize(digits) == Some(cursor)
              && payload == Utf8.EncodeAll("CL;" + Base64.Encode(Utf8.EncodeAll(buffer)) + ";" + digits)
  {
    hide SplitFields, Base64.Decode, Base64.Encode, Utf8.FromUtf8, ParseUsize;
    var text := Utf8.FromUtf8(payload).value;
    var fields := SplitFields(text);
    var bytes := Base64.Decode(fields[1]).value;
    Utf8.FromUtf8Exact(payload, text);
    JoinFields(text);
    Base64.EncodeDecode(fields[1]);
    Utf8.FromUtf8Exact(bytes, buffer);
    assert "CL" + ";" + fields[1] + ";" + fields[2] == "CL;" + fields[1] + ";" + fields[2];
    assert ParseUsize(fields[2]) == Some(cursor)
        && payload == Utf8.EncodeAll("CL;" + Base64.Encode(Utf8.EncodeAll(buffer)) + ";" + fields[2]);
  }

  lemma FieldsParse(payload: seq<Byte>, buffer: string, cursor: nat, digits: string)
    requires ParseUsize(digits) == Some(cursor)
    requires payload == Utf8.EncodeAll("CL;" + Base64.Encode(Utf8.EncodeAll(buffer)) + ";" + digits)
    ensures ParsePayload(payload) == Some(CommandLine(buffer, cursor))
  {
    hide SplitFields, Base64.Decode, Base64.Encode, Utf8.FromUtf8, ParseUsize, Utf8.EncodeAll;
    var b64 := Base64.Encode(Utf8.EncodeAll(buffer));
    Utf8.FromUtf8Exact(payload, "CL;" + b64 + ";" + digits);
    Base64.DecodeEncode(Utf8.EncodeAll(buffer));
    Utf8.FromUtf8Exact(Utf8.EncodeAll(buffer), buffer);
    Base64.EncodeAlphabet(Utf8.EncodeAll(buffer));
    assert ';' !in b64 by { DigitsAreNotSeparators(b64); }
    SplitOfThree("CL", b64, digits);
    assert "CL" + ";" + b64 + ";" + digits == "CL;" + b64 + ";" + digits;
  }

  lemma DigitsAreNotSeparators(b64: string)
    requires forall i :: 0 <= i < |b64| ==> Base64.IsDigit(b64[i]) || b64[i] == '='
    ensures ';' !in b64
  {
  }

  // ---------------------------------------------------------------- a whole stream

  /** What a shell writes: ordinary output, and frames. */
  datatype Item = Text(bytes: seq<Byte>) | Event(event: OscEvent)

  predicate WritableItem(item: Item) {
    match item
    case Text(bytes) => ESC !in bytes
    case Event(e) => Writable(e)
  }

  function WireStream(items: seq<Item>): seq<Byte> {
    if items == [] then []
    else (match items[0] case Text(bytes) => bytes case Event(e) => WireFrame(e)) + WireStream(items[1..])
  }

  function Texts(items: seq<Item>): seq<Byte> {
    if items == [] then []
    else (if items[0].Text? then items[0].bytes else []) + Texts(items[1..])
  }

  function EventsOf(items: seq<Item>): seq<OscEvent> {
    if items == [] then []
    else (if items[0].Event? then [items[0].event] else []) + EventsOf(items[1..])
  }

  /** The reference scan reads back exactly the text and the events, and nothing is left pending. */
  lemma {:induction false} ScanWireStream(items: seq<Item>)
    requires forall i :: 0 <= i < |items| ==> WritableItem(items[i])
    ensures var r := Scan(WireStream(items));
            Passthrough(r.segs) == Texts(items) && Events(r.segs) == EventsOf(items) && r.rest == []
  {
    if items == [] {
      OscFilter.NothingScanned();
    } else {
      var rest := WireStream(items[1..]);
      ScanWireStream(items[1..]);
      assert WritableItem(items[0]);
      match items[0]
      case Text(bytes) =>
        ScanPlainRun(bytes, rest);
        PlainsOutputs(bytes);
        AddSegments(Plains(bytes), Scan(rest));
      case Event(e) =>
        PayloadHasNoTerminator(e);
        ParseWritten(e);
        ScanFrame(Payload(e), rest);
        OscFilter.OneSegment(Frame(Payload(e)));
        AddSegments([Frame(Payload(e))], Scan(rest));
    }
  }

  lemma AddSegments(segs: seq<Segment>, r: Scanned)
    ensures Passthrough(Prepend(segs, r).segs) == Passthrough(segs) + Passthrough(r.segs)
    ensures Events(Prepend(segs, r).segs) == Events(segs) + Events(r.segs)
  {
    PassthroughAppend(segs, r.segs);
    EventsAppend(segs, r.segs);
  }

  /** The round trip through the incremental parser, for every way of cutting the stream. */
  method ReadBack(items: seq<Item>, chunks: seq<seq<Byte>>) returns (passthrough: seq<Byte>, events: seq<OscEvent>)
    requires forall i :: 0 <= i < |items| ==> WritableItem(items[i])
    requires Flatten(chunks) == WireStream(items)
    ensures passthrough == Texts(items) && events == EventsOf(items)
  {
    ScanWireStream(items);
    passthrough, events := OscFilter.ReadAll(chunks);
  }
}
