/** What goes wrong for a message in the basic receiver, and what the user is told: a pause that is too long, a
    fragment that is missing, a frame of another stream in between, a stream that nobody asked for. */
module LongMessageFailures {
  import opened Can
  import opened LongMessageWire
  import opened LongMessageReceiver
  import opened LongMessageRoundTrip

  /** The header and the first `j` fragments of `m` have arrived, and no call of `process` came too late. */
  predicate UnderWay(r: Receiver, s: Setup, m: Message, evs: seq<Event>, j: nat) {
    && Listening(r, s, m) && InPart(Unticked(evs), m) && |Unticked(evs)| == 1 + j && InTime(s, evs)
    && 5 * j < Announced(m) && 5 * j <= |r.buffer| && j <= 255
  }

  lemma LastIsStamped(r: Receiver, s: Setup, evs: seq<Event>)
    requires Idle(r)
    ensures Run(r, s, evs).0.receiving ==> LastSeen(evs) == Some(Run(r, s, evs).0.last)
  {
    hide OnFrame;
    if evs != [] {
      var prior, e := evs[..|evs| - 1], evs[|evs| - 1];
      LastIsStamped(r, s, prior);
      if e.Arrive? { LastStamped(Run(r, s, prior).0, s, e.frame, e.at); }
    }
  }

  /** So far nothing is reported, and the bytes are gathered. */
  lemma Gathered(r: Receiver, s: Setup, m: Message, evs: seq<Event>, j: nat)
    requires UnderWay(r, s, m, evs, j)
    ensures Idle(r) && 5 * j < Announced(m) && j <= 255
    ensures var t := Run(r, s, evs);
            && t.1 == [] && Advanced(t.0, m, j) && |t.0.buffer| == |r.buffer| && LastSeen(evs) == Some(t.0.last)
  {
    hide Run, Frames, InTime, Unticked, LastSeen, Announced;
    TicksInTime(r, s, evs);
    var arrived := Unticked(evs);
    Quiet(r, s, m, arrived, j);
    assert arrived[..1 + j] == arrived;
  }

  lemma RunOneMore(r: Receiver, s: Setup, evs: seq<Event>, e: Event)
    requires r.Valid()
    ensures var t := Run(r, s, evs);
            var u := OnEvent(t.0, s, e);
            Run(r, s, evs + [e]) == (u.0, t.1 + u.1)
  {
    assert (evs + [e])[..|evs|] == evs;
  }

  lemma {:induction false} RunJoined(r: Receiver, s: Setup, a: seq<Event>, b: seq<Event>)
    requires r.Valid()
    ensures var t := Run(r, s, a);
            Run(r, s, a + b) == (Run(t.0, s, b).0, t.1 + Run(t.0, s, b).1)
  {
    hide OnEvent;
    if b == [] {
      assert a + b == a;
      assert Run(r, s, a).1 + [] == Run(r, s, a).1;
    } else {
      assert (a + b)[..|a + b| - 1] == a + b[..|b| - 1];
      RunJoined(r, s, a, b[..|b| - 1]);
      var t := Run(r, s, a);
      var u := Run(t.0, s, b[..|b| - 1]);
      var more := OnEvent(u.0, s, b[|b| - 1]).1;
      assert (t.1 + u.1) + more == t.1 + (u.1 + more);
    }
  }

  // ---- A pause ----

  /** In any run a call of `process` reports something exactly when a message is being received and its last
      frame came the timeout ago, or longer. */
  lemma {:induction false} TickReportsExactlyWhen(r: Receiver, s: Setup, evs: seq<Event>, now: uint32)
    requires Idle(r)
    ensures var t := Run(r, s, evs);
            Run(r, s, evs + [Tick(now)]).1 != t.1
            <==> t.0.receiving && LastSeen(evs).Some? && Since(now, LastSeen(evs).value) >= s.timeout
  {
    hide Run, LastSeen, Since;
    LastIsStamped(r, s, evs);
    RunOneMore(r, s, evs, Tick(now));
    assert Run(r, s, evs).1 + [] == Run(r, s, evs).1;
  }

  /** When the pause after the header and `j` fragments is as long as the timeout, the user gets the bytes that
      came, as a timeout and nothing else, and the receiver listens again; before that nothing happens. */
  lemma {:induction false} PauseReported(r: Receiver, s: Setup, m: Message, evs: seq<Event>, j: nat, now: uint32)
    requires UnderWay(r, s, m, evs, j)
    ensures LastSeen(evs).Some? && 5 * j <= |m.bytes|
    ensures var t := Run(r, s, evs + [Tick(now)]);
            if Since(now, LastSeen(evs).value) >= s.timeout
            then t.1 == [Call(m.bytes[..5 * j], m.stream, TimeoutError)] && Idle(t.0)
            else t == Run(r, s, evs)
  {
    hide Run, UnderWay, Since, LastSeen;
    Gathered(r, s, m, evs, j);
    RunOneMore(r, s, evs, Tick(now));
    assert Run(r, s, evs).1 + [] == [];
  }

  /** ... so that a following message is delivered. */
  lemma {:induction false} PauseThenDelivered(r: Receiver, s: Setup, m: Message, evs: seq<Event>, j: nat, now: uint32,
        n: Message, more: seq<Event>)
    requires UnderWay(r, s, m, evs, j)
    requires LastSeen(evs).Some? ==> Since(now, LastSeen(evs).value) >= s.timeout
    requires n.stream in s.subscribed && PerfectChannel(more, s, n) && Receivable(n, |r.buffer|)
    ensures 5 * j <= |m.bytes|
    ensures Run(r, s, evs + [Tick(now)] + more).1
            == [Call(m.bytes[..5 * j], m.stream, TimeoutError), Call(n.bytes, n.stream, Complete)]
  {
    hide Run, UnderWay, Since, LastSeen, PerfectChannel, Receivable;
    PauseReported(r, s, m, evs, j, now);
    Gathered(r, s, m, evs, j);
    RunJoined(r, s, evs + [Tick(now)], more);
    var q := Run(r, s, evs + [Tick(now)]).0;
    assert more[..|more|] == more;
    DeliveredExactlyWhen(q, s, n, more, |more|);
  }

  // ---- A gap ----

  /** Any other fragment of the message than the one that is due ends it: the user gets the bytes that came, as a
      sequence error and nothing else, and the receiver listens again. */
  lemma {:induction false} GapReported(r: Receiver, s: Setup, m: Message, evs: seq<Event>, j: nat, f: Frame, at: uint32)
    requires UnderWay(r, s, m, evs, j)
    requires f.data[1] == m.stream && f.id % 0x80 == m.canId % 0x80 && f.data[2] != j + 1
    ensures 5 * j <= |m.bytes|
    ensures var t := Run(r, s, evs + [Arrive(f, at)]);
            t.1 == [Call(m.bytes[..5 * j], m.stream, SequenceError)] && Idle(t.0)
  {
    hide Run, UnderWay, Consume;
    Gathered(r, s, m, evs, j);
    RunOneMore(r, s, evs, Arrive(f, at));
  }

  /** A frame of another stream or another sender in between is counted as if it were the message's, so that the
      fragment which is due does not match any more. */
  lemma {:induction false} ForeignFrameBreaks(r: Receiver, s: Setup, m: Message, evs: seq<Event>, j: nat, f: Frame,
        at: uint32, next: uint32)
    requires UnderWay(r, s, m, evs, j) && (f.data[1] != m.stream || f.id % 0x80 != m.canId % 0x80)
    ensures 5 * j <= |m.bytes|
    ensures var t := Run(r, s, evs + [Arrive(f, at)] + [Arrive(FragmentFrame(m, j), next)]);
            t.1 == [Call(m.bytes[..5 * j], m.stream, SequenceError)] && Idle(t.0)
  {
    hide Run, UnderWay, Consume, FragmentFrame, PayloadOf;
    Gathered(r, s, m, evs, j);
    RunOneMore(r, s, evs, Arrive(f, at));
    RunOneMore(r, s, evs + [Arrive(f, at)], Arrive(FragmentFrame(m, j), next));
    FragmentHead(m, j);
    var q := Run(r, s, evs + [Arrive(f, at)]).0;
    assert q.receiving && q.expected == j + 2 && q.Gathered() == m.bytes[..5 * j];
  }

  // ---- A buffer that is too small ----

  /** The fragment that fills the user's buffer before the message is whole hands it over as incomplete; the
      message goes on in the emptied buffer. */
  lemma {:induction false} FullBufferReported(r: Receiver, s: Setup, m: Message, evs: seq<Event>, j: nat, at: uint32)
    requires UnderWay(r, s, m, evs, j) && j < 255
    requires |r.buffer| < 5 * j + 5 && |r.buffer| < Announced(m)
    ensures 5 * j <= |r.buffer| <= |m.bytes|
    ensures var t := Run(r, s, evs + [Arrive(FragmentFrame(m, j), at)]);
            && t.1 == [Call(m.bytes[..|r.buffer|], m.stream, Incomplete)]
            && t.0.receiving && t.0.index == 0 && t.0.received == |r.buffer| && t.0.expected == j + 2
  {
    hide Run, UnderWay, FragmentFrame, PayloadOf;
    Gathered(r, s, m, evs, j);
    var q := Run(r, s, evs).0;
    RunOneMore(r, s, evs, Arrive(FragmentFrame(m, j), at));
    FragmentHead(m, j);
    FragmentTaken(q, s, m, j, at);
    var p := PayloadOf(FragmentFrame(m, j));
    ConsumeKeeps(q.(last := at), p);
    FullConsumed(q.(last := at), p);
  }

  lemma FullConsumed(r: Receiver, p: seq<byte>)
    requires r.Valid() && |r.buffer| - r.index < |p| && r.index == r.received && |r.buffer| < r.length
    ensures var q := Consume(r, p).0;
            q.index == 0 && q.received == |r.buffer| && q.receiving == r.receiving && q.length == r.length
  {}

  // ---- Nothing to receive ----

  /** A frame that an idle receiver takes for the start of a message, by its bytes. */
  predicate Starts(s: Setup, e: Event) {
    e.Arrive? && e.frame.data[1] in s.subscribed && e.frame.data[2] == 0 && e.frame.data[7] == 0
  }

  /** A run without a header of a subscribed stream reports nothing and leaves the receiver idle, whatever else
      is in it. */
  lemma {:induction false} NothingStarted(r: Receiver, s: Setup, evs: seq<Event>)
    requires Idle(r) && forall e :: e in evs ==> !Starts(s, e)
    ensures Run(r, s, evs).1 == [] && Idle(Run(r, s, evs).0)
  {
    hide Consume;
    if evs != [] {
      var prior, e := evs[..|evs| - 1], evs[|evs| - 1];
      NothingStarted(r, s, prior);
      assert !Starts(s, e);
    }
  }

  // ---- No frame is reported twice ----

  /** A message that is being received still wants bytes. */
  predicate Wanting(r: Receiver) { r.Valid() && (r.length == 0 || r.received < r.length) }

  lemma ConsumedOnce(r: Receiver, p: seq<byte>)
    requires Wanting(r)
    ensures var t := Consume(r, p);
            var u := Finish(t.0);
            |t.1| <= 1 && u.1 == [] && Wanting(u.0)
  {
    hide Zeros;
  }

  lemma OneReport(r: Receiver, s: Setup, e: Event)
    requires Wanting(r)
    ensures Wanting(OnEvent(r, s, e).0) && |OnEvent(r, s, e).1| <= 1
  {
    hide Zeros, PayloadOf, Consume;
    if e.Arrive? { ConsumedOnce(r.(last := e.at), PayloadOf(e.frame)); }
  }

  lemma {:induction false} StillWanting(r: Receiver, s: Setup, evs: seq<Event>)
    requires Wanting(r)
    ensures Wanting(Run(r, s, evs).0)
  {
    hide OnEvent, Wanting;
    assert r.Valid() by { WantingIsValid(r); }
    if evs != [] {
      StillWanting(r, s, evs[..|evs| - 1]);
      OneReport(Run(r, s, evs[..|evs| - 1]).0, s, evs[|evs| - 1]);
    }
  }

  lemma WantingIsValid(r: Receiver)
    requires Wanting(r)
    ensures r.Valid()
  {}

  /** Whatever has happened to an idle receiver: the next frame or call of `process` is reported at most once. What the
      code would hand over at the end of a fragment has always been handed over with its last byte. */
  lemma {:induction false} AtMostOneReport(r: Receiver, s: Setup, evs: seq<Event>, e: Event)
    requires Idle(r)
    ensures |OnEvent(Run(r, s, evs).0, s, e).1| <= 1
    ensures |Run(r, s, evs + [e]).1| <= |Run(r, s, evs).1| + 1
  {
    hide OnEvent, Run;
    StillWanting(r, s, evs);
    OneReport(Run(r, s, evs).0, s, e);
    RunOneMore(r, s, evs, e);
  }
}
