/**
 The debounce task of src/session/event_loop.rs: buffer updates pass through a bounded channel,
 bursts are coalesced, and only the latest update of a burst reaches the popup.
 */
module Debounce {
  import opened Prelude
  import Popup

  const CHANNEL_CAPACITY: nat := 16

  /** A buffer and a cursor, as the tracker reports them. */
  datatype Update = Update(buffer: string, cursor: nat)

  /** The task waits for a first update, or holds one while more may arrive. */
  datatype Task = Idle | Holding(update: Update)

  /** The channel, the task and the popup, with the history of what was sent and delivered. */
  datatype System = System(
    channel: seq<Update>,
    task: Task,
    popup: Popup.State,
    sent: seq<Update>,
    delivered: seq<Update>)

  /** One interleaved step: a send, a receipt, a timeout, or something else that touches the popup. */
  datatype Event =
    | Send(update: Update)
    | Receive
    | Timeout(reply: Popup.Reply)
    | Other(input: Popup.Input)

  /** What can happen next. A step that panics is none: it would end the task that takes it. */
  predicate IsEnabled(s: System, e: Event) {
    match e
    case Send(_) => |s.channel| < CHANNEL_CAPACITY
    case Receive => s.channel != []
    case Timeout(reply) =>
      s.task.Holding? && Popup.IsSafe(s.popup, Popup.Update(s.task.update.buffer, s.task.update.cursor, reply))
    case Other(input) => !input.Update? && Popup.IsSafe(s.popup, input)
  }

  function Next(s: System, e: Event): System
    requires IsEnabled(s, e)
  {
    match e
    case Send(u) => s.(channel := s.channel + [u], sent := s.sent + [u])
    // A first update is held; a later one replaces the one held.
    case Receive => s.(channel := s.channel[1..], task := Holding(s.channel[0]))
    case Timeout(reply) =>
      var u := s.task.update;
      s.(task := Idle, delivered := s.delivered + [u],
         popup := Popup.AfterCommandLine(s.popup, u.buffer, u.cursor, reply).state)
    case Other(input) => s.(popup := Popup.Step(s.popup, input).state)
  }

  /** A run: every event enabled where it happens. */
  predicate IsRun(s: System, events: seq<Event>)
    decreases |events|
  {
    events == [] || (IsEnabled(s, events[0]) && IsRun(Next(s, events[0]), events[1..]))
  }

  function After(s: System, events: seq<Event>): System
    requires IsRun(s, events)
    decreases |events|
  {
    if events == [] then s else After(Next(s, events[0]), events[1..])
  }

  function Start(popup: Popup.State): System {
    System([], Idle, popup, [], [])
  }

  // ---------------------------------------------------------------- invariant

  function Held(s: System): seq<Update> {
    if s.task.Holding? then [s.task.update] else []
  }

  /** Everything delivered or still on its way. */
  function InOrder(s: System): seq<Update> {
    s.delivered + Held(s) + s.channel
  }

  /** What is on its way is a subsequence of what was sent, and ends with the last update sent. */
  predicate IsUpToDate(onTheWay: seq<Update>, sent: seq<Update>) {
    IsSubsequence(onTheWay, sent) && (sent != [] ==> onTheWay != [] && onTheWay[|onTheWay| - 1] == sent[|sent| - 1])
  }

  predicate Invariant(s: System) {
    && IsUpToDate(InOrder(s), s.sent)
    && |s.channel| <= CHANNEL_CAPACITY
    && (s.delivered != [] ==>
          var u := s.delivered[|s.delivered| - 1]; s.popup.lastBuffer == u.buffer && s.popup.lastCursor == u.cursor)
  }

  /** Deleting one more element keeps a subsequence. */
  lemma {:induction false} DropMiddle<T>(a: seq<T>, x: T, b: seq<T>, whole: seq<T>)
    requires IsSubsequence(a + [x] + b, whole)
    ensures IsSubsequence(a + b, whole)
    decreases |whole|
  {
    var longer := a + [x] + b;
    if a + b == [] {
    } else {
      var init := whole[..|whole| - 1];
      if longer[|longer| - 1] == whole[|whole| - 1] {
        if b == [] {
          assert longer[..|longer| - 1] == a + b;
          SubsequenceOfLonger(a + b, init, whole[|whole| - 1]);
          assert init + [whole[|whole| - 1]] == whole;
        } else {
          assert longer[..|longer| - 1] == a + [x] + b[..|b| - 1];
          assert (a + b)[..|a + b| - 1] == a + b[..|b| - 1];
          DropMiddle(a, x, b[..|b| - 1], init);
        }
      } else {
        DropMiddle(a, x, b, init);
        SubsequenceOfLonger(a + b, init, whole[|whole| - 1]);
        assert init + [whole[|whole| - 1]] == whole;
      }
    }
  }

  /** A subsequence sits at strictly increasing positions. */
  lemma {:induction false} PositionsOf<T>(a: seq<T>, whole: seq<T>) returns (at: seq<nat>)
    requires IsSubsequence(a, whole)
    ensures |at| == |a| && forall i :: 0 <= i < |a| ==> at[i] < |whole| && whole[at[i]] == a[i]
    ensures forall i, j :: 0 <= i < j < |a| ==> at[i] < at[j]
    decreases |whole|
  {
    if a == [] {
      at := [];
    } else if a[|a| - 1] == whole[|whole| - 1] {
      at := PositionsOf(a[..|a| - 1], whole[..|whole| - 1]);
      at := at + [|whole| - 1];
    } else {
      at := PositionsOf(a, whole[..|whole| - 1]);
    }
  }

  lemma OtherKeepsBuffer(p: Popup.State, input: Popup.Input)
    requires !input.Update?
    ensures var p' := Popup.Step(p, input).state; p'.lastBuffer == p.lastBuffer && p'.lastCursor == p.lastCursor
  {
  }

  lemma DeliveryStoresUpdate(p: Popup.State, u: Update, reply: Popup.Reply)
    ensures var p' := Popup.AfterCommandLine(p, u.buffer, u.cursor, reply).state;
            p'.lastBuffer == u.buffer && p'.lastCursor == u.cursor
  {
  }

  lemma SendKeeps(onTheWay: seq<Update>, sent: seq<Update>, u: Update)
    requires IsUpToDate(onTheWay, sent)
    ensures IsUpToDate(onTheWay + [u], sent + [u])
  {
  }

  /** A later update replaces the one held, which is dropped. */
  lemma ReplaceKeeps(delivered: seq<Update>, held: Update, channel: seq<Update>, sent: seq<Update>)
    requires IsUpToDate(delivered + [held] + channel, sent) && channel != []
    ensures IsUpToDate(delivered + channel, sent)
  {
    hide IsSubsequence;
    DropMiddle(delivered, held, channel, sent);
    assert (delivered + channel)[|delivered + channel| - 1] == channel[|channel| - 1];
  }

  lemma StepKeepsInvariant(s: System, e: Event)
    requires Invariant(s) && IsEnabled(s, e)
    ensures Invariant(Next(s, e))
  {
    hide Popup.AfterCommandLine, Popup.Step, IsSubsequence;
    var s' := Next(s, e);
    match e
    case Send(u) =>
      assert InOrder(s') == InOrder(s) + [u];
      SendKeeps(InOrder(s), s.sent, u);
    case Receive =>
      ReceiveMoves(s);
      if s.task.Holding? {
        ReplaceKeeps(s.delivered, s.task.update, s.channel, s.sent);
      }
    case Timeout(reply) =>
      assert InOrder(s') == InOrder(s);
      DeliveryStoresUpdate(s.popup, s.task.update, reply);
    case Other(input) =>
      OtherKeepsBuffer(s.popup, input);
  }

  lemma ReceiveMoves(s: System)
    requires s.channel != []
    ensures InOrder(Next(s, Receive)) == s.delivered + s.channel
    ensures s.task.Idle? ==> InOrder(s) == s.delivered + s.channel
  {
  }

  lemma {:induction false} RunKeepsInvariant(s: System, events: seq<Event>)
    requires Invariant(s) && IsRun(s, events)
    ensures Invariant(After(s, events))
    decreases |events|
  {
    hide Invariant, Next;
    if events == [] {
    } else {
      StepKeepsInvariant(s, events[0]);
      RunKeepsInvariant(Next(s, events[0]), events[1..]);
    }
  }

  lemma StartIsInvariant(popup: Popup.State)
    ensures Invariant(Start(popup))
  {
  }

  /** At most sixteen updates wait, and a send has to wait exactly when that many do. */
  lemma ChannelIsBounded(popup: Popup.State, events: seq<Event>, u: Update)
    requires IsRun(Start(popup), events)
    ensures var s := After(Start(popup), events); |s.channel| <= 16 && (IsEnabled(s, Send(u)) <==> |s.channel| != 16)
  {
    hide IsSubsequence, After, IsRun;
    StartIsInvariant(popup);
    RunKeepsInvariant(Start(popup), events);
  }

  // ---------------------------------------------------------------- what the popup sees

  /** Over every interleaving, the updates delivered are a subsequence, in order, of those sent. */
  lemma DeliveredInOrder(popup: Popup.State, events: seq<Event>)
    requires IsRun(Start(popup), events)
    ensures var s := After(Start(popup), events); IsSubsequence(s.delivered, s.sent)
  {
    hide IsSubsequence, After, IsRun;
    StartIsInvariant(popup);
    RunKeepsInvariant(Start(popup), events);
    var s := After(Start(popup), events);
    assert InOrder(s) == s.delivered + (Held(s) + s.channel);
    DropTail(s.delivered, Held(s) + s.channel, s.sent);
  }

  lemma {:induction false} DropTail<T>(a: seq<T>, b: seq<T>, whole: seq<T>)
    requires IsSubsequence(a + b, whole)
    ensures IsSubsequence(a, whole)
    decreases |b|
  {
    if b == [] {
      assert a + b == a;
    } else {
      DropLast(a + b, whole);
      assert (a + b)[..|a + b| - 1] == a + b[..|b| - 1];
      DropTail(a, b[..|b| - 1], whole);
    }
  }

  /**
   Once the channel is empty and the task idle, the last update sent has been delivered, and the
   popup works on exactly that buffer and cursor, whatever else has happened to it.
   */
  lemma QuietMeansUpToDate(popup: Popup.State, events: seq<Event>)
    requires IsRun(Start(popup), events)
    ensures var s := After(Start(popup), events);
            s.channel == [] && s.task.Idle? && s.sent != [] ==>
              && s.delivered != [] && s.delivered[|s.delivered| - 1] == s.sent[|s.sent| - 1]
              && var u := s.sent[|s.sent| - 1]; s.popup.lastBuffer == u.buffer && s.popup.lastCursor == u.cursor
  {
    RunKeepsInvariant(Start(popup), events);
    var s := After(Start(popup), events);
    if s.channel == [] && s.task.Idle? {
      assert InOrder(s) == s.delivered;
    }
  }

  /**
   Without further sends the system can become quiet, on any reply that can be drawn: drain the
   channel, then time out. Of all that was under way, only the last update is delivered.
   */
  lemma {:induction false} CanBecomeQuiet(s: System, reply: Popup.Reply) returns (events: seq<Event>)
    requires reply.Completions? && reply.items != [] ==> s.popup.terminalCols >= 32
    ensures IsRun(s, events)
    ensures var s' := After(s, events); s'.channel == [] && s'.task.Idle? && s'.sent == s.sent
    ensures After(s, events).delivered ==
            s.delivered + if s.channel != [] then [s.channel[|s.channel| - 1]] else Held(s)
    ensures |events| <= |s.channel| + 1
    decreases |s.channel|
  {
    hide Popup.AfterCommandLine;
    if s.channel != [] {
      var s1 := Next(s, Receive);
      var rest := CanBecomeQuiet(s1, reply);
      events := [Receive] + rest;
      assert events[1..] == rest;
    } else if s.task.Holding? {
      events := [Timeout(reply)];
      assert events[1..] == [];
    } else {
      events := [];
    }
  }
}
