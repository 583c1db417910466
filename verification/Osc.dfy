/**
 The incremental filter of src/session/osc.rs. It strips private `ESC ]6973; payload BEL` frames
 from a byte stream that arrives in arbitrary chunks. `Scan` is the reference: it reads a whole
 stream at once, testing for the prefix at every position.
 */
module Osc {
  import opened Prelude
  import Utf8
  import Base64

  const ESC: Byte := 0x1B
  const BEL: Byte := 0x07
  /** The bytes of `ESC ]6973;`. */
  const PREFIX: seq<Byte> := [0x1B, 0x5D, 0x36, 0x39, 0x37, 0x33, 0x3B]
  /** The longest payload that is accepted. */
  const CAP: nat := 65536
  const USIZE_MAX: nat := 0xFFFF_FFFF_FFFF_FFFF

  datatype OscEvent = CommandLine(buffer: string, cursor: nat) | PromptStart | PromptEnd

  // ---------------------------------------------------------------- payloads

  predicate IsDecimal(c: char) {
    '0' <= c <= '9'
  }

  predicate AllDecimal(digits: string) {
    forall i :: 0 <= i < |digits| ==> IsDecimal(digits[i])
  }

  function DecimalValue(digits: string): nat
    requires AllDecimal(digits)
  {
    if digits == "" then 0
    else
      assert IsDecimal(digits[|digits| - 1]);
      var last: nat := digits[|digits| - 1] as int - 48;
      DecimalValue(digits[..|digits| - 1]) * 10 + last
  }

  /** `str::parse::<usize>`: an optional plus sign, at least one digit, no overflow of 64 bits. */
  function ParseUsize(s: string): Option<nat> {
    var digits := if |s| > 0 && s[0] == '+' then s[1..] else s;
    if digits == "" || !AllDecimal(digits) then None
    else if DecimalValue(digits) > USIZE_MAX then None
    else Some(DecimalValue(digits))
  }

  /** The position of the first `c` in `s`, or |s| when there is none. */
  function Find<T(==)>(s: seq<T>, c: T): (k: nat)
    ensures k <= |s|
    ensures k < |s| ==> s[k] == c
    ensures forall i :: 0 <= i < k ==> s[i] != c
  {
    if s == [] || s[0] == c then 0 else 1 + Find(s[1..], c)
  }

  /** The fields of `CODE;ARG1;REST`: at most three, the last one unsplit. */
  function SplitFields(s: string): seq<string> {
    var k := Find(s, ';');
    if k == |s| then [s]
    else
      var rest := s[k + 1..];
      var m := Find(rest, ';');
      if m == |rest| then [s[..k], rest] else [s[..k], rest[..m], rest[m + 1..]]
  }

  function ParsePayload(payload: seq<Byte>): Option<OscEvent> {
    var text := Utf8.FromUtf8(payload);
    if text.None? then None
    else
      var fields := SplitFields(text.value);
      if fields[0] == "CL" then
        if |fields| < 3 then None
        else
          var bytes := Base64.Decode(fields[1]);
          if bytes.None? then None
          else
            var buffer := Utf8.FromUtf8(bytes.value);
            if buffer.None? then None
            else
              var cursor := ParseUsize(fields[2]);
              if cursor.None? then None else Some(CommandLine(buffer.value, cursor.value))
      else if fields[0] == "PS" then Some(PromptStart)
      else if fields[0] == "PE" then Some(PromptEnd)
      else None
  }

  // ---------------------------------------------------------------- the whole-stream reference

  /** A stream is a sequence of ordinary bytes, complete frames, and payloads dropped for length. */
  datatype Segment = Plain(b: Byte) | Frame(payload: seq<Byte>) | Overlong(payload: seq<Byte>)

  /** The decided segments of a stream and the undecided bytes at its end. */
  datatype Scanned = Scanned(segs: seq<Segment>, rest: seq<Byte>)

  function Prepend(segs: seq<Segment>, r: Scanned): Scanned {
    Scanned(segs + r.segs, r.rest)
  }

  function Scan(s: seq<Byte>): Scanned
    decreases |s|
  {
    if PREFIX <= s then
      var body := s[|PREFIX|..];
      var k := Find(body, BEL);
      if k > CAP then Prepend([Overlong(body[..CAP + 1])], Scan(body[CAP + 1..]))
      else if k < |body| then Prepend([Frame(body[..k])], Scan(body[k + 1..]))
      else Scanned([], s)
    else if s <= PREFIX then Scanned([], s)
    else Prepend([Plain(s[0])], Scan(s[1..]))
  }

  /** The bytes a segment stands for. */
  function SegmentBytes(seg: Segment): seq<Byte> {
    match seg
    case Plain(b) => [b]
    case Frame(payload) => PREFIX + payload + [BEL]
    case Overlong(payload) => PREFIX + payload
  }

  function Unparse(segs: seq<Segment>): seq<Byte> {
    if segs == [] then [] else SegmentBytes(segs[0]) + Unparse(segs[1..])
  }

  /** What a segment adds to the bytes forwarded to the terminal. */
  function PlainPart(seg: Segment): seq<Byte> {
    if seg.Plain? then [seg.b] else []
  }

  /** What a segment adds to the events: a complete frame whose payload parses adds one. */
  function EventPart(seg: Segment): seq<OscEvent> {
    var e := if seg.Frame? then ParsePayload(seg.payload) else None;
    if e.Some? then [e.value] else []
  }

  function Passthrough(segs: seq<Segment>): seq<Byte> {
    if segs == [] then [] else PlainPart(segs[0]) + Passthrough(segs[1..])
  }

  function Events(segs: seq<Segment>): seq<OscEvent> {
    if segs == [] then [] else EventPart(segs[0]) + Events(segs[1..])
  }

  lemma {:induction false} PassthroughAppend(a: seq<Segment>, b: seq<Segment>)
    ensures Passthrough(a + b) == Passthrough(a) + Passthrough(b)
  {
    hide PlainPart;
    if a == [] {
      assert a + b == b;
    } else {
      var head, tail := PlainPart(a[0]), Passthrough(a[1..]);
      PassthroughAppend(a[1..], b);
      assert (a + b)[1..] == a[1..] + b && (a + b)[0] == a[0];
      assert head + (tail + Passthrough(b)) == head + tail + Passthrough(b);
    }
  }

  lemma {:induction false} EventsAppend(a: seq<Segment>, b: seq<Segment>)
    ensures Events(a + b) == Events(a) + Events(b)
  {
    hide EventPart;
    if a == [] {
      assert a + b == b;
    } else {
      var head, tail := EventPart(a[0]), Events(a[1..]);
      EventsAppend(a[1..], b);
      assert (a + b)[1..] == a[1..] + b && (a + b)[0] == a[0];
      assert head + (tail + Events(b)) == head + tail + Events(b);
    }
  }

  lemma {:induction false} UnparseAppend(a: seq<Segment>, b: seq<Segment>)
    ensures Unparse(a + b) == Unparse(a) + Unparse(b)
  {
    hide SegmentBytes;
    if a == [] {
      assert a + b == b;
    } else {
      var head, tail := SegmentBytes(a[0]), Unparse(a[1..]);
      UnparseAppend(a[1..], b);
      assert (a + b)[1..] == a[1..] + b && (a + b)[0] == a[0];
      assert head + (tail + Unparse(b)) == head + tail + Unparse(b);
    }
  }

  // ---------------------------------------------------------------- one segment at a time

  /** The three branches inside a frame, read off `Scan`. */
  lemma ScanBranches(s: seq<Byte>)
    requires PREFIX <= s
    ensures var body := s[|PREFIX|..];
            var k := Find(body, BEL);
            Scan(s) == if k > CAP then Prepend([Overlong(body[..CAP + 1])], Scan(body[CAP + 1..]))
                       else if k < |body| then Prepend([Frame(body[..k])], Scan(body[k + 1..]))
                       else Scanned([], s)
  {
  }

  /** How the next segment is recognised. */
  lemma ScanOverlong(payload: seq<Byte>, t: seq<Byte>)
    requires |payload| == CAP + 1 && BEL !in payload
    ensures Scan(PREFIX + payload + t) == Prepend([Overlong(payload)], Scan(t))
  {
    hide Scan, Find;
    var body := payload + t;
    assert (PREFIX + payload + t)[|PREFIX|..] == body;
    assert forall i :: 0 <= i <= CAP ==> body[i] == payload[i];
    assert body[..CAP + 1] == payload && body[CAP + 1..] == t;
    ScanBranches(PREFIX + payload + t);
  }

  lemma ScanFrame(payload: seq<Byte>, t: seq<Byte>)
    requires |payload| <= CAP && BEL !in payload
    ensures Scan(PREFIX + payload + [BEL] + t) == Prepend([Frame(payload)], Scan(t))
  {
    hide Scan, Find;
    var body := payload + [BEL] + t;
    assert (PREFIX + payload + [BEL] + t)[|PREFIX|..] == body;
    assert body[|payload|] == BEL && forall i :: 0 <= i < |payload| ==> body[i] == payload[i];
    assert body[..|payload|] == payload && body[|payload| + 1..] == t;
    ScanBranches(PREFIX + payload + [BEL] + t);
  }

  lemma ScanOpen(payload: seq<Byte>)
    requires |payload| <= CAP && BEL !in payload
    ensures Scan(PREFIX + payload) == Scanned([], PREFIX + payload)
  {
    hide Scan, Find;
    assert (PREFIX + payload)[|PREFIX|..] == payload;
    ScanBranches(PREFIX + payload);
  }

  lemma ScanPlain(s: seq<Byte>)
    requires !(PREFIX <= s) && !(s <= PREFIX)
    ensures Scan(s) == Prepend([Plain(s[0])], Scan(s[1..]))
  {
  }

  /** The ways a stream can start: enough to prove a property of `Scan` by cases. */
  datatype Start =
    | StartOverlong(payload: seq<Byte>, after: seq<Byte>)
    | StartFrame(payload: seq<Byte>, after: seq<Byte>)
    | StartOpen(payload: seq<Byte>)
    | StartPartial
    | StartPlain

  ghost predicate StartsAs(s: seq<Byte>, start: Start) {
    match start
    case StartOverlong(p, after) => |p| == CAP + 1 && BEL !in p && s == PREFIX + p + after
    case StartFrame(p, after) => |p| <= CAP && BEL !in p && s == PREFIX + p + [BEL] + after
    case StartOpen(p) => |p| <= CAP && BEL !in p && s == PREFIX + p
    case StartPartial => s <= PREFIX && s != PREFIX
    case StartPlain => !(PREFIX <= s) && !(s <= PREFIX)
  }

  lemma Classify(s: seq<Byte>) returns (start: Start)
    ensures StartsAs(s, start)
  {
    if PREFIX <= s {
      var body := s[|PREFIX|..];
      var k := Find(body, BEL);
      assert s == PREFIX + body;
      if k > CAP {
        start := StartOverlong(body[..CAP + 1], body[CAP + 1..]);
        assert s == PREFIX + body[..CAP + 1] + body[CAP + 1..];
      } else if k < |body| {
        start := StartFrame(body[..k], body[k + 1..]);
        assert s == PREFIX + body[..k] + [BEL] + body[k + 1..];
      } else {
        start := StartOpen(body);
      }
    } else if s <= PREFIX {
      start := StartPartial;
    } else {
      start := StartPlain;
    }
  }

  // ---------------------------------------------------------------- laws of the reference

  lemma LosslessStep(seg: Segment, after: seq<Byte>, r: Scanned)
    requires Unparse(r.segs) + r.rest == after
    ensures var q := Prepend([seg], r); Unparse(q.segs) + q.rest == SegmentBytes(seg) + after
  {
  }

  /** Nothing is invented or lost: the segments and the undecided tail spell out the stream. */
  lemma {:induction false} ScanLossless(s: seq<Byte>)
    ensures Unparse(Scan(s).segs) + Scan(s).rest == s
    decreases |s|
  {
    var start := Classify(s);
    match start
    case StartOverlong(p, after) =>
      ScanOverlong(p, after);
      ScanLossless(after);
      LosslessStep(Overlong(p), after, Scan(after));
    case StartFrame(p, after) =>
      ScanFrame(p, after);
      ScanLossless(after);
      LosslessStep(Frame(p), after, Scan(after));
    case StartOpen(p) =>
      ScanOpen(p);
    case StartPartial =>
    case StartPlain =>
      ScanPlain(s);
      ScanLossless(s[1..]);
      LosslessStep(Plain(s[0]), s[1..], Scan(s[1..]));
  }

  lemma ResumeStep(seg: Segment, r: Scanned, whole: Scanned, tail: Scanned)
    requires whole == Prepend(r.segs, tail)
    ensures Prepend([seg], whole) == Prepend(Prepend([seg], r).segs, tail)
  {
  }

  /** Reading can stop anywhere: only the undecided tail matters for what follows. */
  lemma {:induction false} ScanResume(s: seq<Byte>, t: seq<Byte>)
    ensures Scan(s + t) == Prepend(Scan(s).segs, Scan(Scan(s).rest + t))
    decreases |s|
  {
    var start := Classify(s);
    match start
    case StartOverlong(p, after) =>
      assert s + t == PREFIX + p + (after + t);
      ScanOverlong(p, after);
      ScanOverlong(p, after + t);
      ScanResume(after, t);
      ResumeStep(Overlong(p), Scan(after), Scan(after + t), Scan(Scan(after).rest + t));
    case StartFrame(p, after) =>
      assert s + t == PREFIX + p + [BEL] + (after + t);
      ScanFrame(p, after);
      ScanFrame(p, after + t);
      ScanResume(after, t);
      ResumeStep(Frame(p), Scan(after), Scan(after + t), Scan(Scan(after).rest + t));
    case StartOpen(p) =>
      ScanOpen(p);
    case StartPartial =>
    case StartPlain =>
      PlainStaysPlain(s, t);
      assert (s + t)[1..] == s[1..] + t;
      ScanPlain(s);
      ScanPlain(s + t);
      ScanResume(s[1..], t);
      ResumeStep(Plain(s[0]), Scan(s[1..]), Scan(s[1..] + t), Scan(Scan(s[1..]).rest + t));
  }

  lemma PlainStaysPlain(s: seq<Byte>, t: seq<Byte>)
    requires !(PREFIX <= s) && !(s <= PREFIX)
    ensures !(PREFIX <= s + t) && !(s + t <= PREFIX)
  {
  }

  /** Bytes without ESC are passed through at once. */
  lemma {:induction false} ScanPlainRun(text: seq<Byte>, t: seq<Byte>)
    requires ESC !in text
    ensures Scan(text + t) == Prepend(Plains(text), Scan(t))
  {
    hide Scan;
    if text == [] {
      assert text + t == t;
      assert [] + Scan(t).segs == Scan(t).segs;
    } else {
      assert (text + t)[0] == text[0] != PREFIX[0] && (text + t)[1..] == text[1..] + t;
      ScanPlain(text + t);
      ScanPlainRun(text[1..], t);
      Regroup([Plain(text[0])], Plains(text[1..]), Scan(t).segs);
    }
  }

  function Plains(text: seq<Byte>): seq<Segment> {
    if text == [] then [] else [Plain(text[0])] + Plains(text[1..])
  }

  lemma {:induction false} PlainsOutputs(text: seq<Byte>)
    ensures Passthrough(Plains(text)) == text && Events(Plains(text)) == []
  {
    if text == [] {
    } else {
      PlainsOutputs(text[1..]);
    }
  }

  // ---------------------------------------------------------------- what is held back

  /** Where the run of plain segments at the end begins. */
  function RunStart(segs: seq<Segment>): (i: nat)
    ensures i <= |segs|
    ensures forall k :: i <= k < |segs| ==> segs[k].Plain?
    ensures i > 0 ==> !segs[i - 1].Plain?
  {
    if segs == [] || !segs[|segs| - 1].Plain? then |segs| else RunStart(segs[..|segs| - 1])
  }

  /** The bytes received since a frame was last left: the plain segments at the end, and the tail. */
  function SinceFrame(r: Scanned): seq<Byte> {
    Unparse(r.segs[RunStart(r.segs)..]) + r.rest
  }

  lemma UnparseFirst(segs: seq<Segment>)
    ensures Unparse(segs) == if segs == [] then [] else SegmentBytes(segs[0]) + Unparse(segs[1..])
  {
  }

  lemma {:induction false} UnparsePlainRun(segs: seq<Segment>, j: nat)
    requires forall k :: 0 <= k < |segs| ==> segs[k].Plain?
    requires j <= |segs|
    ensures |Unparse(segs)| == |segs|
    ensures Unparse(segs)[j..] == Unparse(segs[j..])
  {
    hide Unparse;
    UnparseFirst(segs);
    if segs == [] {
    } else {
      UnparsePlainRun(segs[1..], if j == 0 then 0 else j - 1);
      if j == 0 {
        assert segs[0..] == segs;
      } else {
        assert segs[j..] == segs[1..][j - 1..];
        assert Unparse(segs)[j..] == Unparse(segs[1..])[j - 1..];
      }
    }
  }

  predicate HoldsPartialPrefix(held: seq<Byte>) {
    held <= PREFIX && held != PREFIX && held != []
  }

  /** After any number of segments, what is left of a stream scans to the remaining segments. */
  lemma {:induction false} ScanSuffix(s: seq<Byte>, i: nat)
    requires i <= |Scan(s).segs|
    ensures Scan(Unparse(Scan(s).segs[i..]) + Scan(s).rest) == Scanned(Scan(s).segs[i..], Scan(s).rest)
    decreases |s|
  {
    hide Scan, Unparse;
    if i == 0 {
      ScanLossless(s);
      assert Scan(s).segs[0..] == Scan(s).segs;
    } else {
      var after := AfterFirst(s);
      ScanSuffix(after, i - 1);
      assert Scan(s).segs[1..] == Scan(after).segs;
      assert Scan(s).segs[i..] == Scan(after).segs[i - 1..];
    }
  }

  /** The stream after its first decided segment. */
  lemma AfterFirst(s: seq<Byte>) returns (after: seq<Byte>)
    requires Scan(s).segs != []
    ensures |after| < |s| && Scan(s) == Prepend([Scan(s).segs[0]], Scan(after))
  {
    var start := Classify(s);
    match start
    case StartOverlong(p, rest) => ScanOverlong(p, rest); after := rest;
    case StartFrame(p, rest) => ScanFrame(p, rest); after := rest;
    case StartOpen(p) => ScanOpen(p);
    case StartPartial =>
    case StartPlain => ScanPlain(s); after := s[1..];
  }

  /**
   Outside a payload, the bytes held back are the longest suffix, since a frame was last left,
   that could still become the prefix. No other byte is delayed.
   */
  lemma HeldIsLongest(s: seq<Byte>, j: nat)
    requires !(PREFIX <= Scan(s).rest)
    ensures Scan(s).rest == [] || HoldsPartialPrefix(Scan(s).rest)
    ensures var u := SinceFrame(Scan(s)); |u| <= |s| && s[|s| - |u|..] == u
    ensures var u := SinceFrame(Scan(s)); |Scan(s).rest| <= |u| && u[|u| - |Scan(s).rest|..] == Scan(s).rest
    ensures var u := SinceFrame(Scan(s)); j <= |u| && HoldsPartialPrefix(u[j..]) ==> |u| - j <= |Scan(s).rest|
  {
    RestIsPartial(s);
    SinceFrameIsSuffix(s);
    if j <= |SinceFrame(Scan(s))| && |SinceFrame(Scan(s))| - j > |Scan(s).rest| {
      LongerIsDecided(s, j);
    }
    hide Scan, SinceFrame, HoldsPartialPrefix;
  }

  lemma SinceFrameIsSuffix(s: seq<Byte>)
    ensures var u := SinceFrame(Scan(s)); |u| <= |s| && s[|s| - |u|..] == u
    ensures var u := SinceFrame(Scan(s)); |Scan(s).rest| <= |u| && u[|u| - |Scan(s).rest|..] == Scan(s).rest
  {
    ScanLossless(s);
    hide Scan, Unparse;
    var r := Scan(s);
    var i := RunStart(r.segs);
    UnparseAppend(r.segs[..i], r.segs[i..]);
    assert r.segs == r.segs[..i] + r.segs[i..];
    assert s == Unparse(r.segs[..i]) + SinceFrame(r);
  }

  lemma LongerIsDecided(s: seq<Byte>, j: nat)
    requires j <= |SinceFrame(Scan(s))| && |SinceFrame(Scan(s))| - j > |Scan(s).rest|
    ensures !HoldsPartialPrefix(SinceFrame(Scan(s))[j..])
  {
    hide Scan, Unparse, HoldsPartialPrefix;
    var r := Scan(s);
    var i := RunStart(r.segs);
    var run := r.segs[i..];
    UnparsePlainRun(run, 0);
    UnparsePlainRun(run, j);
    ScanSuffix(s, i + j);
    assert run[j..] == r.segs[i + j..];
    DropOfAppend(Unparse(run), r.rest, j);
    DecidedIsNotPartial(SinceFrame(r)[j..]);
  }

  lemma DropOfAppend(a: seq<Byte>, b: seq<Byte>, j: nat)
    requires j <= |a|
    ensures (a + b)[j..] == a[j..] + b
  {
  }

  lemma {:induction false} RestIsPartial(s: seq<Byte>)
    ensures PREFIX <= Scan(s).rest || Scan(s).rest == [] || HoldsPartialPrefix(Scan(s).rest)
    decreases |s|
  {
    if Scan(s).segs != [] {
      var after := AfterFirst(s);
      RestIsPartial(after);
    }
  }

  lemma DecidedIsNotPartial(v: seq<Byte>)
    requires Scan(v).segs != []
    ensures !HoldsPartialPrefix(v)
  {
  }

  // ---------------------------------------------------------------- in bytes

  /** A frame is `ESC ]6973;`, at most 65536 bytes of payload, and BEL. */
  lemma FrameInBytes(payload: seq<Byte>, t: seq<Byte>)
    requires |payload| <= 65536 && 0x07 !in payload
    ensures Scan([0x1B, 0x5D, 0x36, 0x39, 0x37, 0x33, 0x3B] + payload + [0x07] + t) ==
            Prepend([Frame(payload)], Scan(t))
  {
    hide Scan;
    ScanFrame(payload, t);
  }

  /** With one byte more and no BEL among them, the payload is dropped. */
  lemma OverlongInBytes(payload: seq<Byte>, t: seq<Byte>)
    requires |payload| == 65537 && 0x07 !in payload
    ensures Scan([0x1B, 0x5D, 0x36, 0x39, 0x37, 0x33, 0x3B] + payload + t) == Prepend([Overlong(payload)], Scan(t))
  {
    hide Scan;
    ScanOverlong(payload, t);
  }

  /** Bytes held back at the end of a prefix are ordinary if a new prefix starts there. */
  lemma {:induction false} HeldBeforePrefix(held: seq<Byte>, t: seq<Byte>)
    requires |held| < 7 && held <= PREFIX
    ensures Scan(held + (PREFIX + t)) == Prepend(Plains(held), Scan(PREFIX + t))
  {
    hide Scan;
    if held == [] {
      assert held + (PREFIX + t) == PREFIX + t;
      assert [] + Scan(PREFIX + t).segs == Scan(PREFIX + t).segs;
    } else {
      var s := held + (PREFIX + t);
      assert s[|held|] == 0x1B && PREFIX[|held|] != 0x1B;
      ScanPlain(s);
      assert s[1..] == held[1..] + (PREFIX + t);
      assert 0x1B !in held[1..] by {
        assert forall i :: 1 <= i < |held| ==> held[i] == PREFIX[i] != 0x1B;
      }
      ScanPlainRun(held[1..], PREFIX + t);
      Regroup([Plain(held[0])], Plains(held[1..]), Scan(PREFIX + t).segs);
    }
  }

  /**
   A frame is recognised wherever it begins outside another one: whatever came before, fewer than
   seven bytes are then held back, and they turn out to be ordinary.
   */
  lemma FrameAnywhere(s: seq<Byte>, payload: seq<Byte>, t: seq<Byte>)
    requires |Scan(s).rest| < 7 && |payload| <= 65536 && 0x07 !in payload
    ensures Scan(s + ([0x1B, 0x5D, 0x36, 0x39, 0x37, 0x33, 0x3B] + payload + [0x07] + t)) ==
            Prepend(Scan(s).segs + Plains(Scan(s).rest) + [Frame(payload)], Scan(t))
  {
    hide Scan, Plains;
    var frame := PREFIX + payload + [BEL] + t;
    var held := Scan(s).rest;
    RestIsPartial(s);
    ScanResume(s, frame);
    assert frame == PREFIX + (payload + [BEL] + t);
    HeldBeforePrefix(held, payload + [BEL] + t);
    ScanFrame(payload, t);
    Regroup(Plains(held), [Frame(payload)], Scan(t).segs);
    Regroup(Scan(s).segs, Plains(held) + [Frame(payload)], Scan(t).segs);
    Regroup(Scan(s).segs, Plains(held), [Frame(payload)]);
  }

  /** The seven bytes occur somewhere. */
  predicate HasPrefix(s: seq<Byte>) {
    exists i :: 0 <= i <= |s| && [0x1B, 0x5D, 0x36, 0x39, 0x37, 0x33, 0x3B] <= s[i..]
  }

  /** Where the seven bytes do not occur, everything is ordinary. */
  lemma {:induction false} NoFrameWithoutPrefix(s: seq<Byte>)
    requires !HasPrefix(s)
    ensures Scan(s).segs + Plains(Scan(s).rest) == Plains(s)
    decreases |s|
  {
    assert s[0..] == s;
    var start := Classify(s);
    if start.StartPartial? {
      assert [] + Plains(s) == Plains(s);
    } else if start.StartPlain? {
      var tail := s[1..];
      assert forall i :: 0 <= i <= |tail| ==> tail[i..] == s[i + 1..];
      ScanPlain(s);
      NoFrameWithoutPrefix(tail);
      hide Scan;
      Regroup([Plain(s[0])], Scan(tail).segs, Plains(Scan(tail).rest));
    }
  }

  /** The payloads that report a prompt: the two letters, alone or before a semicolon, in valid UTF-8. */
  lemma PromptPayloads(payload: seq<Byte>)
    ensures ParsePayload(payload) == Some(PromptStart) <==>
            Utf8.FromUtf8(payload).Some? && (payload == [0x50, 0x53] || [0x50, 0x53, 0x3B] <= payload)
    ensures ParsePayload(payload) == Some(PromptEnd) <==>
            Utf8.FromUtf8(payload).Some? && (payload == [0x50, 0x45] || [0x50, 0x45, 0x3B] <= payload)
  {
    var text := Utf8.FromUtf8(payload);
    if text.Some? {
      FirstField(payload, text.value, 'S');
      FirstField(payload, text.value, 'E');
      hide Utf8.FromUtf8, SplitFields;
      assert "PS" != "CL" && "PE" != "CL" && "PS" != "PE";
    }
  }

  /** An ASCII byte at the front of a text's bytes is its first character. */
  lemma AsciiFront(text: string, b: Byte)
    requires b < 0x80
    ensures var bytes := Utf8.EncodeAll(text);
            && (bytes != [] && bytes[0] == b <==> text != "" && text[0] as int == b)
            && (bytes != [] && bytes[0] == b ==> Utf8.EncodeAll(text[1..]) == bytes[1..])
            && (bytes == [] <==> text == "")
  {
    if text != "" {
      Utf8.LeadBytes(text[0]);
    }
  }

  lemma FirstField(payload: seq<Byte>, text: string, c: char)
    requires Utf8.FromUtf8(payload) == Some(text) && (c == 'S' || c == 'E')
    ensures SplitFields(text)[0] == ['P', c] <==>
            payload == [0x50, c as int] || [0x50, c as int, 0x3B] <= payload
  {
    Utf8.FromUtf8Exact(payload, text);
    hide Utf8.EncodeAll, Utf8.FromUtf8;
    AsciiFront(text, 0x50);
    if text != "" && text[0] == 'P' {
      var one := text[1..];
      AsciiFront(one, c as int);
      if one != "" && one[0] == c {
        var two := one[1..];
        AsciiFront(two, 0x3B);
        assert text == ['P', c] + two && payload == [0x50, c as int] + Utf8.EncodeAll(two);
        FieldBefore(two, c);
      } else {
        FieldDiffers(text, c);
      }
    } else {
      FieldDiffers(text, c);
    }
  }

  lemma FieldBefore(two: string, c: char)
    requires c == 'S' || c == 'E'
    ensures SplitFields(['P', c] + two)[0] == ['P', c] <==> two == "" || two[0] == ';'
  {
    var text := ['P', c] + two;
    var k := Find(text, ';');
    assert text[0] == 'P' && text[1] == c && (two != "" ==> text[2] == two[0]);
    if two == "" || two[0] == ';' {
      assert k == 2 && text[..2] == ['P', c];
    } else {
      assert k > 2;
      assert SplitFields(text)[0] == text[..k];
    }
  }

  lemma FieldDiffers(text: string, c: char)
    requires !(|text| >= 2 && text[0] == 'P' && text[1] == c)
    ensures SplitFields(text)[0] != ['P', c]
  {
    assert SplitFields(text)[0] == text[..Find(text, ';')];
  }
}
