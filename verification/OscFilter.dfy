/** `OscParser` of src/session/osc.rs: the three-state matcher, proved against the reference scan. */
module OscFilter {
  import opened Prelude
  import opened Osc

  datatype State = Normal | MatchingPrefix | InPayload

  // ---------------------------------------------------------------- one byte after an undecided tail

  /** What scanning `s` yields: bytes to forward, events, and the undecided tail. */
  ghost predicate Yields(s: seq<Byte>, passthrough: seq<Byte>, events: seq<OscEvent>, rest: seq<Byte>) {
    var r := Scan(s);
    Passthrough(r.segs) == passthrough && Events(r.segs) == events && r.rest == rest
  }

  lemma NextAfterNothing(b: Byte)
    ensures if b == ESC then Yields([b], [], [], [b]) else Yields([b], [b], [], [])
  {
    if b != ESC {
      assert [b][0] != PREFIX[0];
      ScanPlain([b]);
      assert [b][1..] == [];
    }
  }

  lemma NextInPrefix(m: nat, b: Byte)
    requires 0 < m < |PREFIX|
    ensures if b == PREFIX[m] then Yields(PREFIX[..m] + [b], [], [], PREFIX[..m + 1])
            else if b == ESC then Yields(PREFIX[..m] + [b], PREFIX[..m], [], [b])
            else Yields(PREFIX[..m] + [b], PREFIX[..m] + [b], [], [])
  {
    if b == PREFIX[m] {
      assert PREFIX[..m] + [b] == PREFIX[..m + 1];
      if m + 1 == |PREFIX| {
        ScanOpen([]);
        assert PREFIX[..m + 1] == PREFIX + [];
      }
    } else {
      MismatchFlushes(m, b);
      NextAfterNothing(b);
      PlainsOutputs(PREFIX[..m]);
      hide Scan, Plains;
      PassthroughAppend(Plains(PREFIX[..m]), Scan([b]).segs);
      EventsAppend(Plains(PREFIX[..m]), Scan([b]).segs);
    }
  }

  /** After a mismatch the bytes matched so far are ordinary, and matching restarts at the new byte. */
  lemma MismatchFlushes(m: nat, b: Byte)
    requires 0 < m < |PREFIX| && b != PREFIX[m]
    ensures Scan(PREFIX[..m] + [b]) == Prepend(Plains(PREFIX[..m]), Scan([b]))
  {
    hide Scan;
    var s := PREFIX[..m] + [b];
    assert s[m] != PREFIX[m];
    ScanPlain(s);
    assert s[1..] == PREFIX[1..m] + [b];
    ScanPlainRun(PREFIX[1..m], [b]);
    assert PREFIX[..m][1..] == PREFIX[1..m];
    Regroup([Plain(s[0])], Plains(PREFIX[1..m]), Scan([b]).segs);
  }

  lemma OneSegment(seg: Segment)
    ensures Passthrough([seg]) == PlainPart(seg) && Events([seg]) == EventPart(seg)
  {
  }

  lemma NextInPayload(payload: seq<Byte>, b: Byte)
    requires |payload| <= CAP && BEL !in payload
    ensures if b == BEL then Yields(PREFIX + payload + [b], [], EventPart(Frame(payload)), [])
            else if |payload| == CAP then Yields(PREFIX + payload + [b], [], [], [])
            else Yields(PREFIX + payload + [b], [], [], PREFIX + (payload + [b]))
  {
    var nothing: seq<Byte> := [];
    assert Scan(nothing) == Scanned([], []);
    assert PREFIX + payload + [b] == PREFIX + (payload + [b]);
    assert PREFIX + payload + [b] + nothing == PREFIX + payload + [b];
    if b == BEL {
      ScanFrame(payload, nothing);
      OneSegment(Frame(payload));
    } else if |payload| == CAP {
      assert PREFIX + (payload + [b]) + nothing == PREFIX + payload + [b];
      ScanOverlong(payload + [b], nothing);
      OneSegment(Overlong(payload + [b]));
    } else {
      ScanOpen(payload + [b]);
    }
    hide Scan, EventPart, Events;
  }

  /** What one more byte adds to the outputs, and the tail it leaves undecided. */
  ghost predicate Adds(s: seq<Byte>, b: Byte, passthrough: seq<Byte>, events: seq<OscEvent>, rest: seq<Byte>) {
    && Passthrough(Scan(s + [b]).segs) == Passthrough(Scan(s).segs) + passthrough
    && Events(Scan(s + [b]).segs) == Events(Scan(s).segs) + events
    && Scan(s + [b]).rest == rest
  }

  /** Feeding one more byte: only the undecided tail matters. */
  lemma NextByte(s: seq<Byte>, b: Byte, passthrough: seq<Byte>, events: seq<OscEvent>, rest: seq<Byte>)
    requires Yields(Scan(s).rest + [b], passthrough, events, rest)
    ensures Adds(s, b, passthrough, events, rest)
  {
    hide Scan;
    ScanResume(s, [b]);
    PassthroughAppend(Scan(s).segs, Scan(Scan(s).rest + [b]).segs);
    EventsAppend(Scan(s).segs, Scan(Scan(s).rest + [b]).segs);
  }

  lemma NextWhenNormal(s: seq<Byte>, b: Byte)
    requires Scan(s).rest == []
    ensures if b == ESC then Adds(s, b, [], [], [b]) else Adds(s, b, [b], [], [])
  {
    hide Scan, Yields, Adds;
    NextAfterNothing(b);
    assert [] + [b] == [b];
    if b == ESC {
      NextByte(s, b, [], [], [b]);
    } else {
      NextByte(s, b, [b], [], []);
    }
  }

  lemma NextWhenMatching(s: seq<Byte>, m: nat, b: Byte)
    requires 0 < m < |PREFIX| && Scan(s).rest == PREFIX[..m]
    ensures if b == PREFIX[m] then Adds(s, b, [], [], PREFIX[..m + 1])
            else if b == ESC then Adds(s, b, PREFIX[..m], [], [b])
            else Adds(s, b, PREFIX[..m] + [b], [], [])
  {
    hide Scan, Yields, Adds;
    NextInPrefix(m, b);
    if b == PREFIX[m] {
      NextByte(s, b, [], [], PREFIX[..m + 1]);
    } else if b == ESC {
      NextByte(s, b, PREFIX[..m], [], [b]);
    } else {
      NextByte(s, b, PREFIX[..m] + [b], [], []);
    }
  }

  lemma NextWhenInPayload(s: seq<Byte>, payload: seq<Byte>, b: Byte)
    requires |payload| <= CAP && BEL !in payload && Scan(s).rest == PREFIX + payload
    ensures if b == BEL then Adds(s, b, [], EventPart(Frame(payload)), [])
            else if |payload| == CAP then Adds(s, b, [], [], [])
            else Adds(s, b, [], [], PREFIX + (payload + [b]))
  {
    hide Scan, Yields, Adds, EventPart;
    NextInPayload(payload, b);
    if b == BEL {
      NextByte(s, b, [], EventPart(Frame(payload)), []);
    } else if |payload| == CAP {
      NextByte(s, b, [], [], []);
    } else {
      NextByte(s, b, [], [], PREFIX + (payload + [b]));
    }
  }

  class OscParser {
    var state: State
    var buf: seq<Byte>
    var prefixMatched: nat
    /** Every byte fed so far. */
    ghost var seen: seq<Byte>

    /** The undecided tail, as the three fields represent it. */
    ghost function Held(): seq<Byte>
      reads this
    {
      match state
      case Normal => []
      case MatchingPrefix => buf
      case InPayload => PREFIX + buf
    }

    /** The three fields hold the undecided tail of the bytes seen, and the buffer is bounded. */
    ghost predicate Valid()
      reads this
    {
      && Scan(seen).rest == Held()
      && (state == Normal ==> buf == [])
      && (state == MatchingPrefix ==> 0 < prefixMatched < |PREFIX| && buf == PREFIX[..prefixMatched])
      && (state == InPayload ==> |buf| <= CAP && BEL !in buf)
    }

    constructor ()
      ensures Valid() && seen == []
    {
      state, buf, prefixMatched, seen := Normal, [], 0, [];
    }

    method Feed(chunk: seq<Byte>) returns (passthrough: seq<Byte>, events: seq<OscEvent>)
      requires Valid()
      modifies this
      ensures Valid() && seen == old(seen) + chunk
      ensures Passthrough(Scan(seen).segs) == Passthrough(Scan(old(seen)).segs) + passthrough
      ensures Events(Scan(seen).segs) == Events(Scan(old(seen)).segs) + events
    {
      hide Scan, Passthrough, Events, Valid, Held;
      passthrough, events := [], [];
      for i := 0 to |chunk|
        invariant Valid() && seen == old(seen) + chunk[..i]
        invariant Passthrough(Scan(seen).segs) == Passthrough(Scan(old(seen)).segs) + passthrough
        invariant Events(Scan(seen).segs) == Events(Scan(old(seen)).segs) + events
      {
        var forwarded, reported;
        ghost var sofar := seen;
        match state {
          case Normal => forwarded, reported := FeedNormal(chunk[i]);
          case MatchingPrefix => forwarded, reported := FeedMatching(chunk[i]);
          case InPayload => forwarded, reported := FeedPayload(chunk[i]);
        }
        assert sofar + [chunk[i]] == old(seen) + chunk[..i + 1];
        Regroup(Passthrough(Scan(old(seen)).segs), passthrough, forwarded);
        Regroup(Events(Scan(old(seen)).segs), events, reported);
        passthrough, events := passthrough + forwarded, events + reported;
      }
    }

    /** The arm of the loop for ordinary bytes. */
    method FeedNormal(byte: Byte) returns (passthrough: seq<Byte>, events: seq<OscEvent>)
      requires Valid() && state == Normal
      modifies this
      ensures Valid() && seen == old(seen) + [byte]
      ensures Passthrough(Scan(seen).segs) == Passthrough(Scan(old(seen)).segs) + passthrough
      ensures Events(Scan(seen).segs) == Events(Scan(old(seen)).segs) + events
    {
      hide Scan, Passthrough, Events;
      NextWhenNormal(seen, byte);
      passthrough, events := [], [];
      if byte == PREFIX[0] {
        state := MatchingPrefix;
        prefixMatched := 1;
        buf := [byte];
      } else {
        passthrough := passthrough + [byte];
      }
      seen := seen + [byte];
    }

    /** The arm for a byte after a proper prefix of the frame introducer. */
    method FeedMatching(byte: Byte) returns (passthrough: seq<Byte>, events: seq<OscEvent>)
      requires Valid() && state == MatchingPrefix
      modifies this
      ensures Valid() && seen == old(seen) + [byte]
      ensures Passthrough(Scan(seen).segs) == Passthrough(Scan(old(seen)).segs) + passthrough
      ensures Events(Scan(seen).segs) == Events(Scan(old(seen)).segs) + events
    {
      hide Scan, Passthrough, Events, ParsePayload, Find;
      NextWhenMatching(seen, prefixMatched, byte);
      passthrough, events := [], [];
      buf := buf + [byte];
      if byte == PREFIX[prefixMatched] {
        prefixMatched := prefixMatched + 1;
        if prefixMatched == |PREFIX| {
          state := InPayload;
          buf := [];
        }
      } else {
        var accumulatedBefore := |buf| - 1;
        passthrough := passthrough + buf[..accumulatedBefore];
        assert passthrough == PREFIX[..prefixMatched];
        buf := [];
        if byte == PREFIX[0] {
          state := MatchingPrefix;
          prefixMatched := 1;
          buf := buf + [byte];
        } else {
          passthrough := passthrough + [byte];
          prefixMatched := 0;
          state := Normal;
        }
      }
      seen := seen + [byte];
    }

    /** The arm for a byte inside a frame. */
    method FeedPayload(byte: Byte) returns (passthrough: seq<Byte>, events: seq<OscEvent>)
      requires Valid() && state == InPayload
      modifies this
      ensures Valid() && seen == old(seen) + [byte]
      ensures Passthrough(Scan(seen).segs) == Passthrough(Scan(old(seen)).segs) + passthrough
      ensures Events(Scan(seen).segs) == Events(Scan(old(seen)).segs) + events
    {
      hide Scan, Passthrough, Events;
      NextWhenInPayload(seen, buf, byte);
      passthrough, events := [], [];
      if byte == BEL {
        var event := ParsePayload(buf);
        if event.Some? {
          events := events + [event.value];
        }
        buf := [];
        state := Normal;
      } else {
        buf := buf + [byte];
        if |buf| > CAP {
          buf := [];
          state := Normal;
        }
      }
      seen := seen + [byte];
    }
  }

  /**
   The PTY task: one parser fed every chunk in turn. However the stream was cut, what is
   forwarded and reported is what the reference finds in the whole stream.
   */
  method ReadAll(chunks: seq<seq<Byte>>) returns (passthrough: seq<Byte>, events: seq<OscEvent>)
    ensures passthrough == Passthrough(Scan(Flatten(chunks)).segs)
    ensures events == Events(Scan(Flatten(chunks)).segs)
  {
    hide Scan;
    var parser := new OscParser();
    passthrough, events := [], [];
    assert Scan([]) == Scanned([], []) by { NothingScanned(); }
    for i := 0 to |chunks|
      invariant parser.Valid() && fresh(parser) && parser.seen == Flatten(chunks[..i])
      invariant passthrough == Passthrough(Scan(parser.seen).segs)
      invariant events == Events(Scan(parser.seen).segs)
    {
      var forwarded, reported := parser.Feed(chunks[i]);
      passthrough, events := passthrough + forwarded, events + reported;
      FlattenSnoc(chunks[..i], chunks[i]);
      assert chunks[..i + 1] == chunks[..i] + [chunks[i]];
    }
    assert chunks[..|chunks|] == chunks;
  }

  lemma NothingScanned()
    ensures Scan([]) == Scanned([], [])
  {
  }
}
