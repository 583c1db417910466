/**
 The key decoder of src/session/keys.rs. Reads arrive in arbitrary pieces; a lone ESC at the
 end of a read is carried to the next one as a flag.
 */
module Keys {
  import opened Prelude
  import Utf8

  const ESC: Byte := 0x1B
  const BRACKET: Byte := 0x5B

  datatype KeyEvent =
    | Char(c: char)
    | Tab
    | Escape
    | Enter
    | Backspace
    | ArrowUp
    | ArrowDown
    | ArrowLeft
    | ArrowRight
    | CtrlC
    | CtrlD
    | CtrlL
    | Raw(bytes: seq<Byte>)

  /** The bytes forwarded to the shell for an event. */
  function RawBytes(e: KeyEvent): seq<Byte> {
    match e
    case Char(c) => Utf8.Encode(c)
    case Tab => [0x09]
    case Escape => [ESC]
    case Enter => [0x0D]
    case Backspace => [0x7F]
    case ArrowUp => [ESC, BRACKET, 0x41]
    case ArrowDown => [ESC, BRACKET, 0x42]
    case ArrowLeft => [ESC, BRACKET, 0x44]
    case ArrowRight => [ESC, BRACKET, 0x43]
    case CtrlC => [0x03]
    case CtrlD => [0x04]
    case CtrlL => [0x0C]
    case Raw(bytes) => bytes
  }

  /** The final byte of a control sequence: section 5.4 of ECMA-48. */
  predicate IsCsiFinal(b: Byte) {
    0x40 <= b <= 0x7E
  }

  /** The length of a control sequence body: up to its final byte, or all there is. */
  function CsiLength(s: seq<Byte>): (n: nat)
    ensures n <= |s| && (s != [] ==> n > 0)
  {
    if s == [] then 0 else if IsCsiFinal(s[0]) then 1 else 1 + CsiLength(s[1..])
  }

  /** An event and the number of bytes it takes. */
  datatype Key = Key(event: KeyEvent, len: nat)

  /** The event of the bytes that follow `ESC [`. */
  function CsiKey(s: seq<Byte>): (k: Key)
    ensures k.len <= |s|
  {
    if s == [] then Key(Raw([ESC, BRACKET]), 0)
    else if s[0] == 0x41 then Key(ArrowUp, 1)
    else if s[0] == 0x42 then Key(ArrowDown, 1)
    else if s[0] == 0x43 then Key(ArrowRight, 1)
    else if s[0] == 0x44 then Key(ArrowLeft, 1)
    else Key(Raw([ESC, BRACKET] + s[..CsiLength(s)]), CsiLength(s))
  }

  /** The event of a byte that is neither ESC nor part of a multi-byte character. */
  function SingleKey(b: Byte): KeyEvent {
    match b
    case 0x03 => CtrlC
    case 0x04 => CtrlD
    case 0x09 => Tab
    case 0x0C => CtrlL
    case 0x0D => Enter
    case 0x7F => Backspace
    case 0x08 => Backspace
    case _ => if 0x20 <= b < 0x7F then Char(b as char) else Raw([b])
  }

  /** The event of a byte from 0x80 up: a whole character if one starts here, else the byte itself. */
  function MultibyteKey(s: seq<Byte>): (k: Key)
    requires s != []
    ensures 1 <= k.len <= |s|
  {
    var d := Utf8.LeadDecode(s);
    if d.Some? then
      Utf8.LeadDecodeIsEncoded(s);
      Key(Char(d.value.ch), d.value.len)
    else Key(Raw([s[0]]), 1)
  }

  /** The first event of a nonempty buffer, or None for a lone ESC. */
  function NextKey(s: seq<Byte>): (k: Option<Key>)
    requires s != []
    ensures k.Some? ==> 1 <= k.value.len <= |s|
  {
    if s[0] == ESC then
      if |s| == 1 then None
      else if s[1] == BRACKET then
        var k := CsiKey(s[2..]);
        Some(Key(k.event, 2 + k.len))
      else Some(Key(Raw([ESC, s[1]]), 2))
    else if s[0] >= 0x80 then Some(MultibyteKey(s))
    else Some(Key(SingleKey(s[0]), 1))
  }

  /** Events, and whether an ESC is pending. */
  datatype Reading = Reading(events: seq<KeyEvent>, pending: bool)

  function Then(events: seq<KeyEvent>, r: Reading): Reading {
    Reading(events + r.events, r.pending)
  }

  function Decode(s: seq<Byte>): Reading
    decreases |s|
  {
    if s == [] then Reading([], false)
    else
      var k := NextKey(s);
      if k.None? then Reading([], true) else Then([k.value.event], Decode(s[k.value.len..]))
  }

  /** One read. An empty one stands for the timeout after a pending ESC. */
  function Read(s: seq<Byte>, pending: bool): Reading {
    if !pending then Decode(s)
    else if s == [] then Reading([Escape], false)
    else if s[0] == BRACKET then
      var k := CsiKey(s[1..]);
      Then([k.event], Decode(s[1 + k.len..]))
    else Then([Escape], Decode(s))
  }

  /** Successive reads, the flag carried from each to the next. */
  function ReadMany(chunks: seq<seq<Byte>>, pending: bool): Reading {
    if chunks == [] then Reading([], pending)
    else
      var before := ReadMany(chunks[..|chunks| - 1], pending);
      Then(before.events, Read(chunks[|chunks| - 1], before.pending))
  }

  // ---------------------------------------------------------------- the implementation

  /** An unrecognised control sequence: everything up to its final byte. */
  method ConsumeCsi(buf: seq<Byte>, start: nat) returns (raw: seq<Byte>, next: nat)
    requires start <= |buf|
    ensures start <= next <= |buf| && next - start == CsiLength(buf[start..])
    ensures raw == [ESC, BRACKET] + buf[start..next]
  {
    raw, next := [ESC, BRACKET], start;
    while next < |buf|
      invariant start <= next <= |buf|
      invariant raw == [ESC, BRACKET] + buf[start..next]
      invariant next - start + CsiLength(buf[next..]) == CsiLength(buf[start..])
    {
      raw := raw + [buf[next]];
      assert buf[next..][1..] == buf[next + 1..];
      next := next + 1;
      if IsCsiFinal(buf[next - 1]) {
        break;
      }
    }
  }

  /** The event of the control sequence body that starts at `start`. */
  method ParseCsi(buf: seq<Byte>, start: nat) returns (event: KeyEvent, next: nat)
    requires start <= |buf|
    ensures start <= next <= |buf|
    ensures event == CsiKey(buf[start..]).event && next == start + CsiKey(buf[start..]).len
  {
    if start < |buf| {
      assert buf[start..][0] == buf[start];
      match buf[start]
      case 0x41 => event, next := ArrowUp, start + 1;
      case 0x42 => event, next := ArrowDown, start + 1;
      case 0x43 => event, next := ArrowRight, start + 1;
      case 0x44 => event, next := ArrowLeft, start + 1;
      case _ =>
        var raw;
        raw, next := ConsumeCsi(buf, start);
        assert buf[start..next] == buf[start..][..next - start];
        event := Raw(raw);
    } else {
      event, next := Raw([ESC, BRACKET]), start;
    }
  }

  /** The event that starts at `start`; none for a lone ESC at the end of the buffer. */
  method ParseKey(buf: seq<Byte>, start: nat) returns (event: Option<KeyEvent>, next: nat)
    requires start < |buf|
    ensures start < next <= |buf|
    ensures var k := NextKey(buf[start..]);
            if k.None? then event.None? && next == |buf|
            else event == Some(k.value.event) && next == start + k.value.len
  {
    var b := buf[start];
    var tail := buf[start..];
    if b == ESC {
      if start + 1 < |buf| && buf[start + 1] == BRACKET {
        assert tail[2..] == buf[start + 2..];
        var csi;
        csi, next := ParseCsi(buf, start + 2);
        event := Some(csi);
      } else if start + 1 < |buf| {
        event, next := Some(Raw([ESC, buf[start + 1]])), start + 2;
      } else {
        event, next := None, start + 1;
      }
    } else if b >= 0x80 {
      var decoded := Utf8.DecodeUtf8Char(tail);
      if decoded.Some? {
        Utf8.LeadDecodeIsEncoded(tail);
        event, next := Some(Char(decoded.value.ch)), start + decoded.value.len;
      } else {
        event, next := Some(Raw([b])), start + 1;
      }
    } else {
      event, next := Some(SingleKey(b)), start + 1;
    }
  }

  /** How a read begins: what becomes of a pending ESC. */
  lemma ReadBegins(s: seq<Byte>, pending: bool)
    ensures Read(s, pending) ==
            if !pending then Then([], Decode(s))
            else if s == [] then Reading([Escape], false)
            else if s[0] == BRACKET then Then([CsiKey(s[1..]).event], Decode(s[1 + CsiKey(s[1..]).len..]))
            else Then([Escape], Decode(s))
  {
    hide Decode, CsiKey;
    assert Then([], Decode(s)) == Decode(s);
  }

  method ParseBytes(buf: seq<Byte>, escapePending: bool) returns (events: seq<KeyEvent>, pending: bool)
    ensures Reading(events, pending) == Read(buf, escapePending)
  {
    hide Read, Decode, NextKey, CsiKey;
    ReadBegins(buf, escapePending);
    events := [];
    var i := 0;
    pending := escapePending;
    if pending {
      if buf == [] {
        return [Escape], false;
      }
      pending := false;
      if buf[0] == BRACKET {
        var event, next := ParseCsi(buf, 1);
        events, i := [event], next;
      } else {
        events := [Escape];
      }
    }
    assert buf[0..] == buf;
    assert Read(buf, escapePending) == Then(events, Decode(buf[i..]));
    while i < |buf|
      invariant i <= |buf|
      invariant pending ==> i == |buf|
      invariant Read(buf, escapePending) == if pending then Reading(events, true) else Then(events, Decode(buf[i..]))
    {
      DecodeStep(events, buf[i..]);
      var event, next := ParseKey(buf, i);
      assert buf[i..][next - i..] == buf[next..];
      if event.Some? {
        events := events + [event.value];
      } else {
        pending := true;
      }
      i := next;
    }
    DecodeNothing();
    assert buf[|buf|..] == [];
  }

  lemma DecodeNothing()
    ensures Decode([]) == Reading([], false)
  {
  }

  /** The stdin task: every read decoded in turn, an empty one being the timeout of a pending ESC. */
  method ReadStdin(chunks: seq<seq<Byte>>) returns (events: seq<KeyEvent>, escapePending: bool)
    ensures Reading(events, escapePending) == ReadMany(chunks, false)
  {
    hide Read;
    events, escapePending := [], false;
    for i := 0 to |chunks|
      invariant Reading(events, escapePending) == ReadMany(chunks[..i], false)
    {
      var more;
      more, escapePending := ParseBytes(chunks[i], escapePending);
      events := events + more;
      assert chunks[..i + 1][..i] == chunks[..i];
    }
    assert chunks[..|chunks|] == chunks;
  }

  lemma DecodeStep(events: seq<KeyEvent>, s: seq<Byte>)
    requires s != []
    ensures NextKey(s).None? ==> Then(events, Decode(s)) == Reading(events, true)
    ensures NextKey(s).Some? ==>
              Then(events, Decode(s)) == Then(events + [NextKey(s).value.event], Decode(s[NextKey(s).value.len..]))
  {
  }

  // ---------------------------------------------------------------- what the bytes mean

  /** A byte below 0x80 other than ESC is an event of its own. */
  lemma LowByteMeans(b: Byte, rest: seq<Byte>)
    requires b < 0x80 && b != 0x1B
    ensures var e := if b == 0x03 then CtrlC else if b == 0x04 then CtrlD else if b == 0x0C then CtrlL
                     else if b == 0x09 then Tab else if b == 0x0D then Enter
                     else if b == 0x08 || b == 0x7F then Backspace
                     else if b >= 0x20 then Char(b as char) else Raw([b]);
            Read([b] + rest, false) == Then([e], Read(rest, false))
  {
    FirstEvent([b], rest, SingleKey(b));
  }

  /** What stands at the front decides the first event, and the rest is read on. */
  lemma FirstEvent(front: seq<Byte>, rest: seq<Byte>, e: KeyEvent)
    requires front != [] && NextKey(front + rest) == Some(Key(e, |front|))
    ensures Read(front + rest, false) == Then([e], Read(rest, false))
  {
    hide NextKey;
    assert (front + rest)[|front|..] == rest;
  }

  /** A character beyond ASCII is an event, whatever follows. */
  lemma CharacterMeans(c: char, rest: seq<Byte>)
    requires c as int >= 0x80
    ensures Read(Utf8.Encode(c) + rest, false) == Then([Char(c)], Read(rest, false))
  {
    Utf8.LeadDecodeOfEncode(c, rest);
    Utf8.LeadBytes(c);
    assert (Utf8.Encode(c) + rest)[0] == Utf8.Encode(c)[0];
    assert NextKey(Utf8.Encode(c) + rest) == Some(Key(Char(c), |Utf8.Encode(c)|));
    hide Utf8.Encode, NextKey;
    FirstEvent(Utf8.Encode(c), rest, Char(c));
  }

  /** A byte from 0x80 up at which no character starts is forwarded as it is. */
  lemma StrayByteMeans(b: Byte, rest: seq<Byte>)
    requires b >= 0x80 && forall c: char :: !(Utf8.Encode(c) <= [b] + rest)
    ensures Read([b] + rest, false) == Then([Raw([b])], Read(rest, false))
  {
    Utf8.NoCharacterAtFront([b] + rest);
    hide Utf8.Encode, Utf8.LeadDecode;
    FirstEvent([b], rest, Raw([b]));
  }

  /** ESC and a byte other than the bracket in one read: Alt and a key, forwarded as two bytes. */
  lemma AltKeyMeans(x: Byte, rest: seq<Byte>)
    requires x != 0x5B
    ensures Read([0x1B, x] + rest, false) == Then([Raw([0x1B, x])], Read(rest, false))
  {
    assert ([0x1B, x] + rest)[1] == x;
    FirstEvent([0x1B, x], rest, Raw([0x1B, x]));
  }

  /** `ESC [ A` to `ESC [ D` are the arrows up, down, right and left. */
  lemma ArrowMeans(final: Byte, rest: seq<Byte>)
    requires 0x41 <= final <= 0x44
    ensures var e := if final == 0x41 then ArrowUp else if final == 0x42 then ArrowDown
                     else if final == 0x43 then ArrowRight else ArrowLeft;
            Read([0x1B, 0x5B, final] + rest, false) == Then([e], Read(rest, false))
  {
    var s := [0x1B, 0x5B, final] + rest;
    assert s[2..][0] == final;
    FirstEvent([0x1B, 0x5B, final], rest, CsiKey(s[2..]).event);
  }

  lemma {:induction false} BodyLength(body: seq<Byte>, final: Byte, rest: seq<Byte>)
    requires (forall i :: 0 <= i < |body| ==> !(0x40 <= body[i] <= 0x7E)) && 0x40 <= final <= 0x7E
    ensures CsiLength(body + [final] + rest) == |body| + 1
  {
    if body == [] {
    } else {
      BodyLength(body[1..], final, rest);
      assert (body + [final] + rest)[1..] == body[1..] + [final] + rest;
    }
  }

  /** Any other control sequence is forwarded whole, up to its first byte from 0x40 to 0x7E. */
  lemma SequenceMeans(body: seq<Byte>, final: Byte, rest: seq<Byte>)
    requires (forall i :: 0 <= i < |body| ==> !(0x40 <= body[i] <= 0x7E)) && 0x40 <= final <= 0x7E
    requires body == [] ==> !(0x41 <= final <= 0x44)
    ensures var front := [0x1B, 0x5B] + body + [final];
            Read(front + rest, false) == Then([Raw(front)], Read(rest, false))
  {
    var front := [0x1B, 0x5B] + body + [final];
    var tail := body + [final] + rest;
    assert (front + rest)[2..] == tail && (front + rest)[0] == 0x1B && (front + rest)[1] == 0x5B;
    BodyLength(body, final, rest);
    assert tail[..|body| + 1] == body + [final];
    assert tail[0] == if body == [] then final else body[0];
    hide CsiLength;
    assert NextKey(front + rest) == Some(Key(Raw([ESC, BRACKET] + (body + [final])), |front|));
    assert [ESC, BRACKET] + (body + [final]) == front;
    FirstEvent(front, rest, Raw(front));
  }

  /** A control sequence that a read cuts off before such a byte is forwarded as far as it goes. */
  lemma CutSequenceMeans(body: seq<Byte>)
    requires forall i :: 0 <= i < |body| ==> !(0x40 <= body[i] <= 0x7E)
    ensures Read([0x1B, 0x5B] + body, false) == Reading([Raw([0x1B, 0x5B] + body)], false)
  {
    var s := [0x1B, 0x5B] + body;
    UnfinishedLength(body);
    assert s[2..] == body && body[..|body|] == body && s[0] == ESC && s[1] == BRACKET;
    assert [ESC, BRACKET] + body == s && (body == [] ==> [ESC, BRACKET] == s);
    hide CsiLength;
    assert NextKey(s) == Some(Key(Raw(s), |s|));
    assert s + [] == s;
    FirstEvent(s, [], Raw(s));
  }

  lemma {:induction false} UnfinishedLength(body: seq<Byte>)
    requires forall i :: 0 <= i < |body| ==> !(0x40 <= body[i] <= 0x7E)
    ensures CsiLength(body) == |body|
  {
    if body == [] {
    } else {
      UnfinishedLength(body[1..]);
    }
  }

  /** An ESC that ends a read waits: for a bracket it continues, otherwise it was the Escape key. */
  lemma PendingMeans(s: seq<Byte>)
    ensures Read([0x1B], false) == Reading([], true) && Read([], false) == Reading([], false)
    ensures Read(s, true) == if s == [] then Reading([Escape], false)
                             else if s[0] == 0x5B then Read([0x1B] + s, false)
                             else Then([Escape], Read(s, false))
  {
    if s != [] && s[0] == 0x5B {
      var k := CsiKey(s[1..]);
      var whole := [0x1B] + s;
      assert whole[2..] == s[1..] && whole[2 + k.len..] == s[1 + k.len..];
    }
  }

  lemma {:induction false} NoEscapeInOneRead(s: seq<Byte>)
    ensures Escape !in Decode(s).events
    decreases |s|
  {
    hide Decode, NextKey;
    if s == [] {
      DecodeNothing();
    } else {
      DecodeStep([], s);
      NextIsNotEscape(s);
      if NextKey(s).Some? {
        var k := NextKey(s).value;
        NoEscapeInOneRead(s[k.len..]);
        assert [] + [k.event] == [k.event];
      }
      assert Then([], Decode(s)) == Decode(s);
    }
  }

  lemma NextIsNotEscape(s: seq<Byte>)
    requires s != []
    ensures NextKey(s).Some? ==> NextKey(s).value.event != Escape
  {
    hide Utf8.LeadDecode, CsiLength;
  }

  /** The Escape key is only ever read from a pending ESC, when a timeout or no bracket follows. */
  lemma EscapeOnlyPending(s: seq<Byte>, pending: bool)
    ensures Escape in Read(s, pending).events <==> pending && (s == [] || s[0] != 0x5B)
  {
    PendingMeans(s);
    NoEscapeInOneRead(s);
    NoEscapeInOneRead([0x1B] + s);
    hide Decode;
    if pending && s != [] && s[0] != 0x5B {
      assert Read(s, true).events[0] == Escape;
    }
  }

  // ---------------------------------------------------------------- losslessness

  function EscIf(pending: bool): seq<Byte> {
    if pending then [ESC] else []
  }

  /** The bytes forwarded for a list of events. */
  function Forwarded(events: seq<KeyEvent>): seq<Byte> {
    if events == [] then [] else RawBytes(events[0]) + Forwarded(events[1..])
  }

  lemma {:induction false} ForwardedAppend(a: seq<KeyEvent>, b: seq<KeyEvent>)
    ensures Forwarded(a + b) == Forwarded(a) + Forwarded(b)
  {
    hide RawBytes;
    if a == [] {
      assert a + b == b;
    } else {
      var head, tail := RawBytes(a[0]), Forwarded(a[1..]);
      ForwardedAppend(a[1..], b);
      assert (a + b)[1..] == a[1..] + b && (a + b)[0] == a[0];
      assert head + (tail + Forwarded(b)) == head + tail + Forwarded(b);
    }
  }

  /** The same bytes, except that the other backspace code 0x08 may have become 0x7F. */
  predicate SameBytes(typed: seq<Byte>, sent: seq<Byte>) {
    |typed| == |sent| && forall i :: 0 <= i < |typed| ==> typed[i] == sent[i] || (typed[i] == 0x08 && sent[i] == 0x7F)
  }

  lemma SameBytesAppend(a: seq<Byte>, b: seq<Byte>, c: seq<Byte>, d: seq<Byte>)
    requires SameBytes(a, c) && SameBytes(b, d)
    ensures SameBytes(a + b, c + d)
  {
  }

  lemma CsiKeyLossless(s: seq<Byte>)
    ensures [ESC, BRACKET] + s[..CsiKey(s).len] == RawBytes(CsiKey(s).event)
  {
  }

  lemma NextKeyLossless(s: seq<Byte>)
    requires s != [] && NextKey(s).Some?
    ensures SameBytes(s[..NextKey(s).value.len], RawBytes(NextKey(s).value.event))
  {
    if s[0] == ESC {
      if s[1] == BRACKET {
        CsiKeyLossless(s[2..]);
        assert s[..NextKey(s).value.len] == [ESC, BRACKET] + s[2..][..CsiKey(s[2..]).len];
      } else {
        assert s[..2] == [ESC, s[1]];
      }
    } else if s[0] >= 0x80 {
      if Utf8.LeadDecode(s).Some? {
        Utf8.LeadDecodeIsEncoded(s);
      } else {
        assert s[..1] == [s[0]];
      }
    }
  }

  /** One event in front of a reading. */
  lemma JoinLossless(a: seq<Byte>, event: KeyEvent, b: seq<Byte>, r: Reading)
    requires SameBytes(a, RawBytes(event)) && SameBytes(b, Forwarded(r.events) + EscIf(r.pending))
    ensures SameBytes(a + b, Forwarded(Then([event], r).events) + EscIf(r.pending))
  {
    hide RawBytes;
    ForwardedAppend([event], r.events);
    assert Forwarded([event]) == RawBytes(event);
    hide Forwarded, EscIf;
    SameBytesAppend(a, b, RawBytes(event), Forwarded(r.events) + EscIf(r.pending));
    Regroup(RawBytes(event), Forwarded(r.events), EscIf(r.pending));
  }

  lemma {:induction false} DecodeLossless(s: seq<Byte>)
    ensures SameBytes(s, Forwarded(Decode(s).events) + EscIf(Decode(s).pending))
    decreases |s|
  {
    hide RawBytes, NextKey;
    if s == [] {
    } else {
      var k := NextKey(s);
      if k.Some? {
        var tail := s[k.value.len..];
        NextKeyLossless(s);
        DecodeLossless(tail);
        hide SameBytes, Forwarded, EscIf;
        JoinLossless(s[..k.value.len], k.value.event, tail, Decode(tail));
        assert s == s[..k.value.len] + tail;
      } else {
        LoneEscape(s);
      }
    }
  }

  lemma LoneEscape(s: seq<Byte>)
    requires s != [] && NextKey(s).None?
    ensures s == [ESC]
  {
  }

  /** An event decided by the flag and `len` more bytes, in front of the rest of the read. */
  lemma ResumeLossless(s: seq<Byte>, event: KeyEvent, len: nat)
    requires len <= |s| && [ESC] + s[..len] == RawBytes(event)
    ensures var r := Then([event], Decode(s[len..])); SameBytes([ESC] + s, Forwarded(r.events) + EscIf(r.pending))
  {
    hide Decode, RawBytes;
    DecodeLossless(s[len..]);
    JoinLossless([ESC] + s[..len], event, s[len..], Decode(s[len..]));
    assert [ESC] + s == [ESC] + s[..len] + s[len..];
  }

  /** One read loses nothing, whatever the flag. */
  lemma ReadLossless(s: seq<Byte>, pending: bool)
    ensures var r := Read(s, pending); SameBytes(EscIf(pending) + s, Forwarded(r.events) + EscIf(r.pending))
  {
    hide Decode, CsiKey, Forwarded;
    if !pending {
      DecodeLossless(s);
      assert EscIf(pending) + s == s;
    } else if s == [] {
      NothingForwarded();
    } else if s[0] == BRACKET {
      var k := CsiKey(s[1..]);
      CsiKeyLossless(s[1..]);
      assert [ESC] + s[..1 + k.len] == [ESC, BRACKET] + s[1..][..k.len];
      ResumeLossless(s, k.event, 1 + k.len);
    } else {
      assert [ESC] + s[..0] == RawBytes(Escape);
      assert s[0..] == s;
      ResumeLossless(s, Escape, 0);
    }
  }

  lemma NothingForwarded()
    ensures Forwarded([Escape]) == [ESC]
  {
  }

  /** Nothing is lost over any number of reads, timeouts included. */
  lemma {:induction false} ReadManyLossless(chunks: seq<seq<Byte>>, pending: bool)
    ensures var r := ReadMany(chunks, pending);
            SameBytes(EscIf(pending) + Flatten(chunks), Forwarded(r.events) + EscIf(r.pending))
  {
    hide Read, RawBytes, Forwarded, SameBytes;
    if chunks == [] {
      OnlyPending(pending);
    } else {
      var init, last := chunks[..|chunks| - 1], chunks[|chunks| - 1];
      var before := ReadMany(init, pending);
      var r := Read(last, before.pending);
      ReadManyLossless(init, pending);
      ReadLossless(last, before.pending);
      FlattenSnoc(init, last);
      assert init + [last] == chunks;
      ForwardedAppend(before.events, r.events);
      SameBytesJoin(EscIf(pending) + Flatten(init), Forwarded(before.events), EscIf(before.pending), last,
                    Forwarded(r.events) + EscIf(r.pending));
      assert EscIf(pending) + Flatten(chunks) == EscIf(pending) + Flatten(init) + last;
      Regroup(Forwarded(before.events), Forwarded(r.events), EscIf(r.pending));
    }
  }

  lemma OnlyPending(pending: bool)
    ensures SameBytes(EscIf(pending) + Flatten([]), Forwarded([]) + EscIf(pending))
  {
  }

  lemma SameBytesJoin(typed: seq<Byte>, sent: seq<Byte>, held: seq<Byte>, more: seq<Byte>, sent': seq<Byte>)
    requires SameBytes(typed, sent + held) && SameBytes(held + more, sent')
    requires forall i :: 0 <= i < |held| ==> held[i] == ESC
    ensures SameBytes(typed + more, sent + sent')
  {
  }

  /** Both backspace codes, made equal. */
  function Canonical(s: seq<Byte>): seq<Byte> {
    seq(|s|, i requires 0 <= i < |s| => if s[i] == 0x08 then 0x7F else s[i])
  }

  /** However the same input was split into reads, the shell receives the same stream. */
  lemma SplitIndependent(chunks: seq<seq<Byte>>, chunks': seq<seq<Byte>>)
    requires Flatten(chunks) == Flatten(chunks')
    ensures var r, r' := ReadMany(chunks, false), ReadMany(chunks', false);
            Canonical(Forwarded(r.events) + EscIf(r.pending)) == Canonical(Forwarded(r'.events) + EscIf(r'.pending))
  {
    ReadManyLossless(chunks, false);
    ReadManyLossless(chunks', false);
  }

  // ---------------------------------------------------------------- round trip

  /** The events a keyboard produces whose bytes are read back as the same event. */
  predicate IsTypable(e: KeyEvent) {
    match e
    case Char(c) => c as int >= 0x20 && c as int != 0x7F
    case Escape => false
    case Raw(_) => false
    case _ => true
  }

  predicate IsArrow(e: KeyEvent) {
    e.ArrowUp? || e.ArrowDown? || e.ArrowLeft? || e.ArrowRight?
  }

  predicate AllTypable(events: seq<KeyEvent>) {
    forall i :: 0 <= i < |events| ==> IsTypable(events[i])
  }

  lemma NextKeyOfTyped(e: KeyEvent, rest: seq<Byte>)
    requires IsTypable(e)
    ensures RawBytes(e) != [] && NextKey(RawBytes(e) + rest) == Some(Key(e, |RawBytes(e)|))
  {
    var s := RawBytes(e) + rest;
    assert s[0] == RawBytes(e)[0];
    if e.Char? {
      Utf8.LeadDecodeOfEncode(e.c, rest);
      Utf8.LeadBytes(e.c);
    } else if IsArrow(e) {
      assert s[2..] == [RawBytes(e)[2]] + rest;
    }
  }

  lemma {:induction false} DecodeTyped(events: seq<KeyEvent>, rest: seq<Byte>)
    requires AllTypable(events)
    ensures Decode(Forwarded(events) + rest) == Then(events, Decode(rest))
  {
    hide RawBytes, NextKey, IsTypable, Decode;
    if events == [] {
      assert Forwarded(events) + rest == rest;
    } else {
      var first, tail := RawBytes(events[0]), Forwarded(events[1..]) + rest;
      Regroup(first, Forwarded(events[1..]), rest);
      NextKeyOfTyped(events[0], tail);
      DecodeStep([], first + tail);
      assert (first + tail)[|first|..] == tail && [] + [events[0]] == [events[0]];
      assert Then([], Decode(first + tail)) == Decode(first + tail);
      DecodeTyped(events[1..], rest);
      assert events == [events[0]] + events[1..];
    }
  }

  /** The bytes of typed keys, read in one piece, are read back as those keys. */
  lemma RoundTrip(events: seq<KeyEvent>)
    requires AllTypable(events)
    ensures Read(Forwarded(events), false) == Reading(events, false)
  {
    DecodeTyped(events, []);
    assert Forwarded(events) + [] == Forwarded(events);
  }

  /** The rest of an arrow key whose ESC was carried over. */
  lemma PendingArrow(e: KeyEvent, s: seq<Byte>, tail: seq<Byte>)
    requires IsArrow(e) && [ESC] + s == RawBytes(e) + tail
    ensures Read(s, true) == Then([e], Decode(tail))
  {
    hide Decode;
    var whole := [ESC] + s;
    assert whole[1] == s[0] == BRACKET && whole[2] == s[1] == RawBytes(e)[2];
    assert s[1..][1..] == whole[3..] == tail;
    assert s[1..][0] == RawBytes(e)[2];
    assert s[2..] == tail;
  }

  /** One read that starts and ends at an event boundary, or between the ESC and the bracket of an arrow. */
  lemma ReadTyped(s: seq<Byte>, pending: bool, events: seq<KeyEvent>, pending': bool)
    requires AllTypable(events) && s != []
    requires EscIf(pending) + s == Forwarded(events) + EscIf(pending')
    ensures Read(s, pending) == Reading(events, pending')
  {
    hide Decode, RawBytes;
    EscIfDecodes(pending');
    if !pending {
      assert s == Forwarded(events) + EscIf(pending');
      DecodeTyped(events, EscIf(pending'));
    } else {
      assert events != [];
      var tail := Forwarded(events[1..]) + EscIf(pending');
      assert [ESC] + s == RawBytes(events[0]) + tail;
      NextKeyOfTyped(events[0], tail);
      assert ([ESC] + s)[0] == RawBytes(events[0])[0];
      OnlyArrowsStartWithEsc(events[0]);
      hide Read;
      PendingArrow(events[0], s, tail);
      DecodeTyped(events[1..], EscIf(pending'));
      assert events == [events[0]] + events[1..];
    }
  }

  lemma EscIfDecodes(pending: bool)
    ensures Decode(EscIf(pending)) == Reading([], pending)
  {
  }

  lemma OnlyArrowsStartWithEsc(e: KeyEvent)
    requires IsTypable(e) && RawBytes(e)[0] == ESC
    ensures IsArrow(e)
  {
  }

  /** The first `m` events, and the ESC of the next one if `inside`, take `n` bytes. */
  predicate CutsAt(events: seq<KeyEvent>, m: nat, inside: bool, n: nat)
    requires m <= |events|
  {
    n == |Forwarded(events[..m])| + |EscIf(inside)| && (inside ==> m < |events| && IsArrow(events[m]))
  }

  /** A read may end at an event boundary, or between the ESC and the bracket of an arrow key. */
  ghost predicate GoodCut(events: seq<KeyEvent>, n: nat) {
    exists m, inside :: 0 <= m <= |events| && CutsAt(events, m, inside, n)
  }

  /** The bytes before a cut, and the bytes between two cuts. */
  lemma BytesBeforeCut(events: seq<KeyEvent>, m: nat, inside: bool, n: nat)
    requires m <= |events| && CutsAt(events, m, inside, n)
    ensures n <= |Forwarded(events)| && Forwarded(events)[..n] == Forwarded(events[..m]) + EscIf(inside)
  {
    assert events == events[..m] + events[m..];
    ForwardedAppend(events[..m], events[m..]);
    if inside {
      assert events[m..] == [events[m]] + events[m + 1..];
      assert Forwarded(events[m..])[0] == ESC;
    }
  }

  lemma LongerPrefix(events: seq<KeyEvent>, m: nat, m': nat)
    requires AllTypable(events) && m' < m <= |events|
    ensures |Forwarded(events[..m'])| < |Forwarded(events[..m])|
  {
    assert events[..m] == events[..m'] + events[m'..m];
    ForwardedAppend(events[..m'], events[m'..m]);
    NextKeyOfTyped(events[m'], []);
  }

  lemma CutsInOrder(events: seq<KeyEvent>, m: nat, inside: bool, n: nat, m': nat, inside': bool, n': nat)
    requires AllTypable(events)
    requires m <= |events| && CutsAt(events, m, inside, n)
    requires m' <= |events| && CutsAt(events, m', inside', n')
    requires n < n'
    ensures m <= m'
  {
    if m' < m {
      LongerPrefix(events, m, m');
    }
  }

  /**
   The round trip across reads. Typed keys are read back however their bytes are cut into
   nonempty reads at event boundaries or between ESC and bracket, the flag carried along.
   */
  lemma RoundTripAcrossReads(events: seq<KeyEvent>, chunks: seq<seq<Byte>>)
    requires AllTypable(events)
    requires Flatten(chunks) == Forwarded(events)
    requires forall k :: 0 <= k < |chunks| ==> chunks[k] != []
    requires forall k :: 0 < k < |chunks| ==> GoodCut(events, |Flatten(chunks[..k])|)
    ensures ReadMany(chunks, false) == Reading(events, false)
  {
    var m, inside := ReadUpTo(events, chunks, |chunks|);
    assert chunks[..|chunks|] == chunks;
  }

  lemma {:induction false} ReadUpTo(events: seq<KeyEvent>, chunks: seq<seq<Byte>>, k: nat)
    returns (m: nat, inside: bool)
    requires AllTypable(events) && k <= |chunks|
    requires Flatten(chunks) == Forwarded(events)
    requires forall k :: 0 <= k < |chunks| ==> chunks[k] != []
    requires forall k :: 0 < k < |chunks| ==> GoodCut(events, |Flatten(chunks[..k])|)
    ensures m <= |events| && CutsAt(events, m, inside, |Flatten(chunks[..k])|)
    ensures ReadMany(chunks[..k], false) == Reading(events[..m], inside)
    ensures k == |chunks| ==> m == |events| && !inside
  {
    hide ReadMany, Forwarded, Flatten, CutsAt, RawBytes, Read;
    if k == 0 {
      m, inside := 0, false;
      NothingRead(events, chunks);
    } else {
      var m0, inside0 := ReadUpTo(events, chunks, k - 1);
      if k < |chunks| {
        assert GoodCut(events, |Flatten(chunks[..k])|);
        m, inside :| 0 <= m <= |events| && CutsAt(events, m, inside, |Flatten(chunks[..k])|);
      } else {
        m, inside := |events|, false;
        EndIsCut(events, chunks);
      }
      ReadStep(events, chunks, k, m0, inside0, m, inside);
    }
  }

  lemma NothingRead(events: seq<KeyEvent>, chunks: seq<seq<Byte>>)
    requires AllTypable(events) && Flatten(chunks) == Forwarded(events)
    ensures CutsAt(events, 0, false, |Flatten(chunks[..0])|)
    ensures ReadMany(chunks[..0], false) == Reading(events[..0], false)
    ensures chunks == [] ==> events == []
  {
    if events != [] {
      NextKeyOfTyped(events[0], []);
    }
  }

  lemma EndIsCut(events: seq<KeyEvent>, chunks: seq<seq<Byte>>)
    requires Flatten(chunks) == Forwarded(events)
    ensures CutsAt(events, |events|, false, |Flatten(chunks[..|chunks|])|)
  {
    assert events[..|events|] == events && chunks[..|chunks|] == chunks;
  }

  lemma ReadStep(events: seq<KeyEvent>, chunks: seq<seq<Byte>>, k: nat, m0: nat, inside0: bool, m: nat, inside: bool)
    requires AllTypable(events) && 0 < k <= |chunks| && m0 <= |events| && m <= |events|
    requires Flatten(chunks) == Forwarded(events) && chunks[k - 1] != []
    requires CutsAt(events, m0, inside0, |Flatten(chunks[..k - 1])|)
    requires CutsAt(events, m, inside, |Flatten(chunks[..k])|)
    requires ReadMany(chunks[..k - 1], false) == Reading(events[..m0], inside0)
    ensures ReadMany(chunks[..k], false) == Reading(events[..m], inside)
  {
    hide ReadMany, Read, Forwarded, Flatten, CutsAt;
    ReadOneMore(chunks, k);
    CutsInOrder(events, m0, inside0, |Flatten(chunks[..k - 1])|, m, inside, |Flatten(chunks[..k])|);
    BetweenCuts(events, chunks, k, m0, inside0, m, inside);
    ReadTyped(chunks[k - 1], inside0, events[m0..m], inside);
    assert events[..m] == events[..m0] + events[m0..m];
  }

  /** What one read holds: the bytes between two cuts. */
  lemma BetweenCuts(events: seq<KeyEvent>, chunks: seq<seq<Byte>>, k: nat, m0: nat, inside0: bool, m: nat, inside: bool)
    requires 0 < k <= |chunks| && m0 <= m <= |events| && Flatten(chunks) == Forwarded(events)
    requires CutsAt(events, m0, inside0, |Flatten(chunks[..k - 1])|)
    requires CutsAt(events, m, inside, |Flatten(chunks[..k])|)
    ensures EscIf(inside0) + chunks[k - 1] == Forwarded(events[m0..m]) + EscIf(inside)
  {
    hide Forwarded, Flatten, EscIf, CutsAt;
    PrefixBytes(events, chunks, k - 1, m0, inside0);
    PrefixBytes(events, chunks, k, m, inside);
    ReadOneMore(chunks, k);
    ForwardedAppend(events[..m0], events[m0..m]);
    assert events[..m] == events[..m0] + events[m0..m];
    CancelPrefix(Forwarded(events[..m0]), EscIf(inside0), chunks[k - 1], Forwarded(events[m0..m]), EscIf(inside));
  }

  lemma PrefixBytes(events: seq<KeyEvent>, chunks: seq<seq<Byte>>, k: nat, m: nat, inside: bool)
    requires k <= |chunks| && m <= |events| && Flatten(chunks) == Forwarded(events)
    requires CutsAt(events, m, inside, |Flatten(chunks[..k])|)
    ensures Flatten(chunks[..k]) == Forwarded(events[..m]) + EscIf(inside)
  {
    BytesBeforeCut(events, m, inside, |Flatten(chunks[..k])|);
    FlattenPrefix(chunks, k);
  }

  lemma CancelPrefix(p: seq<Byte>, a: seq<Byte>, b: seq<Byte>, c: seq<Byte>, d: seq<Byte>)
    requires p + a + b == p + c + d
    ensures a + b == c + d
  {
    assert a + b == (p + a + b)[|p|..];
    assert c + d == (p + c + d)[|p|..];
  }

  lemma ReadOneMore(chunks: seq<seq<Byte>>, k: nat)
    requires 0 < k <= |chunks|
    ensures var before := ReadMany(chunks[..k - 1], false);
            ReadMany(chunks[..k], false) == Then(before.events, Read(chunks[k - 1], before.pending))
    ensures Flatten(chunks[..k]) == Flatten(chunks[..k - 1]) + chunks[k - 1]
  {
    assert chunks[..k][..k - 1] == chunks[..k - 1];
    assert chunks[..k] == chunks[..k - 1] + [chunks[k - 1]];
    FlattenSnoc(chunks[..k - 1], chunks[k - 1]);
  }
}
