/** The receiving half of the basic long message handler, on values, and what any run of
    it delivers. `LongMessage` proves its in-place code against these functions. */
module LongMessageReceiver {
  import opened Can
  import opened LongMessageWire

  datatype Receiver = Receiver(
    receiving: bool, stream: byte, canId: byte, length: nat, crc: word,
    received: nat, index: nat, expected: uint32, last: uint32, buffer: seq<byte>)
  {
    predicate Valid() { index <= |buffer| }

    function Gathered(): seq<byte>
      requires Valid()
    {
      buffer[..index]
    }
  }

  datatype Setup = Setup(subscribed: seq<byte>, timeout: uint32)

  type Step = (Receiver, seq<Call>)

  /** How many more bytes the message wants; the code tests only after taking one. */
  function Left(r: Receiver): nat {
    if r.received < r.length then r.length - r.received else 1
  }

  /** Bytes are taken until the message is whole, the user's buffer is full, or the payload
      ends; in the first two cases the user gets what was gathered. */
  function Consume(r: Receiver, p: seq<byte>): (s: Step)
    requires r.Valid()
    ensures s.0.Valid() && |s.0.buffer| == |r.buffer|
  {
    var room := |r.buffer| - r.index;
    if Left(r) <= |p| && Left(r) <= room then
      (r.(buffer := Zeros(|r.buffer|), index := 0, received := r.received + Left(r)),
       [Call(r.Gathered() + p[..Left(r)], r.stream, Complete)])
    else if room < |p| then
      (r.(buffer := Zeros(|r.buffer|), index := 0, received := r.received + room),
       [Call(r.Gathered() + p[..room], r.stream, Incomplete)])
    else
      (r.(buffer := r.Gathered() + p + r.buffer[r.index + |p|..], index := r.index + |p|,
          received := r.received + |p|), [])
  }

  predicate StartsMessage(s: Setup, f: Frame) {
    SequenceOf(f) == 0 && FlagsOf(f) == 0 && StreamOf(f) in s.subscribed
  }

  function Started(r: Receiver, f: Frame): Receiver {
    r.(receiving := true, stream := StreamOf(f), canId := SenderOf(f), length := LengthOf(f), crc := CrcOf(f),
       received := 0, index := 0, expected := 0, buffer := Zeros(|r.buffer|))
  }

  function Accept(r: Receiver, s: Setup, f: Frame): (t: Step)
    requires r.Valid()
    ensures t.0.Valid() && |t.0.buffer| == |r.buffer|
  {
    if !r.receiving then
      (if StartsMessage(s, f) then Started(r, f) else r, [])
    else if SenderOf(f) != r.canId || StreamOf(f) != r.stream then
      (r, [])
    else if SequenceOf(f) == r.expected then
      Consume(r, PayloadOf(f))
    else
      (r.(receiving := false, length := 0, received := 0), [Call(r.Gathered(), r.stream, SequenceError)])
  }

  /** What follows every fragment: the counter moves on, and a message that has become whole ends. */
  function Finish(r0: Receiver): (u: Step)
    requires r0.Valid()
    ensures u.0.Valid() && |u.0.buffer| == |r0.buffer|
  {
    var r := r0.(expected := (r0.expected + 1) % TWO32);
    if r.length > 0 && r.received >= r.length then
      (r.(receiving := false, length := 0, received := 0, index := 0),
       if r.index > 0 then [Call(r.Gathered(), r.stream, Complete)] else [])
    else (r, [])
  }

  /** One received fragment. */
  function OnFrame(r: Receiver, s: Setup, f: Frame, now: uint32): (t: Step)
    requires r.Valid()
    ensures t.0.Valid() && |t.0.buffer| == |r.buffer|
  {
    var (q, calls) := Accept(r.(last := now), s, f);
    var (q', more) := Finish(q);
    (q', calls + more)
  }

  /** The receive timeout, tested on every `process` call. */
  function OnTick(r: Receiver, s: Setup, now: uint32): (t: Step)
    requires r.Valid()
    ensures t.0.Valid() && |t.0.buffer| == |r.buffer|
  {
    if r.receiving && Since(now, r.last) >= s.timeout then
      (r.(receiving := false, length := 0, received := 0), [Call(r.Gathered(), r.stream, TimeoutError)])
    else (r, [])
  }

  datatype Event = Arrive(frame: Frame, at: uint32) | Tick(at: uint32)

  function OnEvent(r: Receiver, s: Setup, e: Event): (t: Step)
    requires r.Valid()
    ensures t.0.Valid() && |t.0.buffer| == |r.buffer|
  {
    match e
    case Arrive(f, now) => OnFrame(r, s, f, now)
    case Tick(now) => OnTick(r, s, now)
  }

  /** A whole run: the final state and every handler call, in order. */
  function Run(r: Receiver, s: Setup, evs: seq<Event>): (t: Step)
    requires r.Valid()
    ensures t.0.Valid() && |t.0.buffer| == |r.buffer|
  {
    if evs == [] then (r, []) else
    var (q, calls) := Run(r, s, evs[..|evs| - 1]);
    var (q', more) := OnEvent(q, s, evs[|evs| - 1]);
    (q', calls + more)
  }

  lemma RunSnoc(r: Receiver, s: Setup, evs: seq<Event>, i: nat)
    requires r.Valid() && i < |evs|
    ensures var t := Run(r, s, evs[..i]);
            var u := OnEvent(t.0, s, evs[i]);
            Run(r, s, evs[..i + 1]) == (u.0, t.1 + u.1)
  {
    assert evs[..i + 1][..i] == evs[..i];
  }

  lemma {:induction false} CallsOnlyGrow(r: Receiver, s: Setup, evs: seq<Event>, i: nat)
    requires r.Valid() && i <= |evs|
    ensures Run(r, s, evs[..i]).1 <= Run(r, s, evs).1
    decreases |evs| - i
  {
    if i == |evs| {
      assert evs[..i] == evs;
    } else {
      RunSnoc(r, s, evs, i);
      CallsOnlyGrow(r, s, evs, i + 1);
    }
  }

  // ---- Calls of `process` between the frames ----

  /** The arrivals alone. */
  function Unticked(evs: seq<Event>): (arrived: seq<Event>) {
    if evs == [] then [] else
    Unticked(evs[..|evs| - 1]) + if evs[|evs| - 1].Tick? then [] else [evs[|evs| - 1]]
  }

  /** When the last frame arrived, if any has. */
  function LastSeen(evs: seq<Event>): Option<uint32> {
    if evs == [] then None else
    var e := evs[|evs| - 1];
    if e.Arrive? then Some(e.at) else LastSeen(evs[..|evs| - 1])
  }

  /** This event is not a call of `process` that comes the timeout or more after the last frame. */
  predicate Prompt(s: Setup, before: seq<Event>, e: Event) {
    e.Tick? && LastSeen(before).Some? ==> Since(e.at, LastSeen(before).value) < s.timeout
  }

  predicate InTime(s: Setup, evs: seq<Event>) {
    forall k :: 0 <= k < |evs| ==> Prompt(s, evs[..k], evs[k])
  }

  lemma LastStamped(r: Receiver, s: Setup, f: Frame, now: uint32)
    requires r.Valid()
    ensures OnFrame(r, s, f, now).0.last == now
  {
    hide Zeros, PayloadOf;
  }

  lemma InTimePrefix(s: Setup, evs: seq<Event>, n: nat)
    requires InTime(s, evs) && n <= |evs|
    ensures InTime(s, evs[..n])
  {
    assert forall k :: 0 <= k < n ==> evs[..n][..k] == evs[..k];
  }

  /** Calls of `process` that come in time change nothing and report nothing. */
  lemma {:induction false} TicksInTime(r: Receiver, s: Setup, evs: seq<Event>)
    requires Idle(r) && InTime(s, evs)
    ensures Run(r, s, evs) == Run(r, s, Unticked(evs))
    ensures Run(r, s, evs).0.receiving ==> LastSeen(evs) == Some(Run(r, s, evs).0.last)
  {
    if evs != [] {
      hide OnFrame, InTime;
      var prior, e := evs[..|evs| - 1], evs[|evs| - 1];
      InTimePrefix(s, evs, |evs| - 1);
      TicksInTime(r, s, prior);
      LastPrompt(s, evs);
      var q, calls := Run(r, s, prior).0, Run(r, s, prior).1;
      if e.Arrive? {
        LastStamped(q, s, e.frame, e.at);
        assert (Unticked(prior) + [e])[..|Unticked(prior)|] == Unticked(prior);
      } else {
        assert OnTick(q, s, e.at) == (q, []);
        assert calls + [] == calls;
        assert Unticked(prior) + [] == Unticked(prior);
      }
    }
  }

  lemma LastPrompt(s: Setup, evs: seq<Event>)
    requires InTime(s, evs) && evs != []
    ensures Prompt(s, evs[..|evs| - 1], evs[|evs| - 1])
  {}

  lemma {:induction false} UntickedPrefix(evs: seq<Event>, i: nat)
    requires i <= |evs|
    ensures |Unticked(evs[..i])| <= |Unticked(evs)|
    ensures Unticked(evs[..i]) == Unticked(evs)[..|Unticked(evs[..i])|]
    decreases |evs|
  {
    if i == |evs| {
      assert evs[..i] == evs;
    } else {
      UntickedPrefix(evs[..|evs| - 1], i);
      assert evs[..|evs| - 1][..i] == evs[..i];
    }
  }

  predicate Idle(r: Receiver) { r.Valid() && !r.receiving && r.length == 0 }

  // ---- A hostile channel ----

  /** Anything the channel may do around one message `m`: lose, repeat or reorder its frames, let time
      pass, and carry other streams from any sender. */
  predicate Hostile(e: Event, m: Message) {
    e.Tick? || e.frame in Frames(m) || StreamOf(e.frame) != m.stream
  }

  function Foreign(evs: seq<Event>, m: Message): nat {
    if evs == [] then 0
    else Foreign(evs[..|evs| - 1], m) +
         (var e := evs[|evs| - 1]; if e.Arrive? && StreamOf(e.frame) != m.stream then 1 else 0)
  }

  /** Every fragment so far was taken, in order. */
  predicate InOrder(r: Receiver, m: Message)
    requires r.Valid()
  {
    r.index == r.received < |m.bytes| && r.received == 5 * (r.expected - 1) && r.Gathered() == m.bytes[..r.index]
  }

  /** A fragment was missed, and too few are left for the count to be reached. */
  predicate Lagging(r: Receiver, m: Message) {
    var k := FragmentCount(|m.bytes|);
    r.received + 5 * (if r.expected <= k then k + 1 - r.expected else 0) < |m.bytes|
  }

  predicate Sound(r: Receiver, m: Message, foreign: nat) {
    && r.Valid() && (!r.receiving ==> r.length == 0)
    && (r.receiving && r.stream == m.stream ==>
          && r.canId == m.canId % 0x80 && r.length == |m.bytes|
          && r.index == r.received && 1 <= r.expected <= 0x100 + foreign
          && (InOrder(r, m) || Lagging(r, m)))
  }

  predicate OnlyWhole(calls: seq<Call>, m: Message) {
    forall c | c in calls :: c.stream == m.stream && c.status == Complete ==> c.bytes == m.bytes
  }

  predicate Receivable(m: Message, buffer: nat) {
    1 <= |m.bytes| <= buffer && |m.bytes| <= 1275
  }

  lemma OwnFrame(f: Frame, m: Message) returns (k: nat)
    requires f in Frames(m) && |m.bytes| <= 1275
    ensures k <= FragmentCount(|m.bytes|) && SequenceOf(f) == k
    ensures StreamOf(f) == m.stream && SenderOf(f) == m.canId % 0x80
    ensures k == 0 ==> f == HeaderFrame(m)
    ensures k > 0 ==> f == FragmentFrame(m, k - 1)
  {
    hide HeaderFrame, FragmentFrame, StreamOf, SenderOf, SequenceOf, FlagsOf, LengthOf, CrcOf;
    k :| 0 <= k < |Frames(m)| && Frames(m)[k] == f;
    if k == 0 { HeaderReads(m); } else { FragmentHead(m, k - 1); }
  }

  lemma {:induction false} FragmentInOrder(r: Receiver, m: Message)
    requires r.Valid() && InOrder(r, m) && r.length == |m.bytes| && Receivable(m, |r.buffer|)
    ensures var (q, calls) := Consume(r, PayloadOf(FragmentFrame(m, r.expected - 1)));
            if r.expected == FragmentCount(|m.bytes|)
            then q.received == q.length && q.index == 0 && calls == [Call(m.bytes, r.stream, Complete)]
            else q.received < q.length && q.index == q.received == r.received + 5 && calls == []
                 && q.Gathered() == m.bytes[..q.index]
  {
    var k, n := r.expected - 1, |m.bytes|;
    FragmentReads(m, k);
    var p := PayloadOf(FragmentFrame(m, k));
    if n - r.received <= 5 {
      assert p[..n - r.received] == m.bytes[r.index..];
      assert m.bytes[..r.index] + m.bytes[r.index..] == m.bytes;
    } else {
      assert p == m.bytes[r.index..r.index + 5];
      assert m.bytes[..r.index] + m.bytes[r.index..r.index + 5] == m.bytes[..r.index + 5];
    }
  }

  /** The receiver is in the middle of `m` itself. */
  predicate Gathering(r: Receiver, m: Message) {
    r.receiving && r.stream == m.stream
  }

  predicate StaysSound(t: Step, m: Message, foreign: nat) {
    Sound(t.0, m, foreign) && OnlyWhole(t.1, m)
  }

  lemma {:induction false} StartTaken(r: Receiver, s: Setup, f: Frame, now: uint32)
    requires Idle(r) && StartsMessage(s, f)
    ensures OnFrame(r, s, f, now) == (Started(r.(last := now), f).(expected := 1), [])
  {
    var none: seq<Call> := [];
    assert none + none == none;
  }

  /** A receiver that is gathering another stream ignores the frame. */
  lemma OwnWhileBusy(r: Receiver, s: Setup, m: Message, f: Frame, now: uint32, foreign: nat)
    requires Sound(r, m, foreign) && Receivable(m, |r.buffer|) && f in Frames(m) && r.receiving && r.stream != m.stream
    ensures StaysSound(OnFrame(r, s, f, now), m, foreign)
  {
    hide Consume, HeaderFrame, FragmentFrame, Frames, Started, StartsMessage, InOrder, Lagging, PayloadOf;
    var k := OwnFrame(f, m);
    assert Accept(r.(last := now), s, f) == (r.(last := now), []);
  }

  lemma NotStarted(r: Receiver, s: Setup, f: Frame, now: uint32)
    requires Idle(r) && !StartsMessage(s, f)
    ensures OnFrame(r, s, f, now) == (r.(last := now, expected := (r.expected + 1) % TWO32), [])
  {
    hide StartsMessage;
    var none: seq<Call> := [];
    assert none + none == none;
  }

  lemma {:induction false} OwnHeader(m: Message)
    requires |m.bytes| <= 1275
    ensures var f := HeaderFrame(m);
            StreamOf(f) == m.stream && SenderOf(f) == m.canId % 0x80 && LengthOf(f) == |m.bytes| && SequenceOf(f) == 0
  {
    HeaderReads(m);
  }

  /** An idle receiver starts at the header and at nothing else. */
  lemma OwnWhileIdle(r: Receiver, s: Setup, m: Message, f: Frame, now: uint32, foreign: nat)
    requires Sound(r, m, foreign) && Receivable(m, |r.buffer|) && f in Frames(m) && !r.receiving
    ensures StaysSound(OnFrame(r, s, f, now), m, foreign)
  {
    hide OnFrame, HeaderFrame, FragmentFrame, Frames, StreamOf, SenderOf, SequenceOf, LengthOf, Lagging;
    var k := OwnFrame(f, m);
    OwnHeader(m);
    if StartsMessage(s, f) {
      StartTaken(r, s, f, now);
    } else {
      NotStarted(r, s, f, now);
    }
  }

  lemma OwnWhileElsewhere(r: Receiver, s: Setup, m: Message, f: Frame, now: uint32, foreign: nat)
    requires Sound(r, m, foreign) && Receivable(m, |r.buffer|) && f in Frames(m) && !Gathering(r, m)
    ensures StaysSound(OnFrame(r, s, f, now), m, foreign)
  {
    hide OnFrame, StaysSound, Sound, Frames, Receivable;
    if r.receiving {
      OwnWhileBusy(r, s, m, f, now, foreign);
    } else {
      OwnWhileIdle(r, s, m, f, now, foreign);
    }
  }

  lemma OwnOutOfTurn(r: Receiver, s: Setup, m: Message, f: Frame, now: uint32, foreign: nat)
    requires Sound(r, m, foreign) && Receivable(m, |r.buffer|) && f in Frames(m)
    requires Gathering(r, m) && SequenceOf(f) != r.expected
    ensures StaysSound(OnFrame(r, s, f, now), m, foreign)
  {
    hide Consume, HeaderFrame, FragmentFrame, Frames;
    var k := OwnFrame(f, m);
  }

  lemma {:induction false} OwnInTurn(r: Receiver, s: Setup, m: Message, f: Frame, now: uint32, foreign: nat)
    requires Sound(r, m, foreign) && Receivable(m, |r.buffer|) && f in Frames(m)
    requires Gathering(r, m) && SequenceOf(f) == r.expected && InOrder(r, m)
    ensures StaysSound(OnFrame(r, s, f, now), m, foreign)
  {
    hide Consume, HeaderFrame, FragmentFrame, Frames, PayloadOf;
    var k := OwnFrame(f, m);
    var r0 := r.(last := now);
    assert InOrder(r0, m);
    FragmentInOrder(r0, m);
    ConsumeKeeps(r0, PayloadOf(f));
  }

  lemma OwnWhileLagging(r: Receiver, s: Setup, m: Message, f: Frame, now: uint32, foreign: nat)
    requires Sound(r, m, foreign) && Receivable(m, |r.buffer|) && f in Frames(m)
    requires Gathering(r, m) && SequenceOf(f) == r.expected && !InOrder(r, m)
    ensures StaysSound(OnFrame(r, s, f, now), m, foreign)
  {
    hide HeaderFrame, FragmentFrame, Frames;
    var k := OwnFrame(f, m);
    assert Left(r) > 5;
  }

  lemma OwnFrameIsSound(r: Receiver, s: Setup, m: Message, f: Frame, now: uint32, foreign: nat)
    requires Sound(r, m, foreign) && Receivable(m, |r.buffer|) && f in Frames(m)
    ensures StaysSound(OnFrame(r, s, f, now), m, foreign)
  {
    hide OnFrame, InOrder, Lagging, StaysSound;
    if !Gathering(r, m) {
      OwnWhileElsewhere(r, s, m, f, now, foreign);
    } else if SequenceOf(f) != r.expected {
      OwnOutOfTurn(r, s, m, f, now, foreign);
    } else if InOrder(r, m) {
      OwnInTurn(r, s, m, f, now, foreign);
    } else {
      OwnWhileLagging(r, s, m, f, now, foreign);
    }
  }

  lemma {:induction false} ConsumeKeeps(r: Receiver, p: seq<byte>)
    requires r.Valid()
    ensures var q := Consume(r, p).0;
            q == r.(buffer := q.buffer, index := q.index, received := q.received)
    ensures forall c | c in Consume(r, p).1 :: c.stream == r.stream
  {}

  lemma ForeignWhileGathering(r: Receiver, s: Setup, m: Message, f: Frame, now: uint32, foreign: nat)
    requires Sound(r, m, foreign) && StreamOf(f) != m.stream && Gathering(r, m)
    requires foreign < TWO32 - 0x101
    ensures StaysSound(OnFrame(r, s, f, now), m, foreign + 1)
  {
    hide Consume, PayloadOf, Frames;
    var q := OnFrame(r, s, f, now).0;
    if InOrder(r, m) {
      assert Lagging(q, m);
    }
  }

  lemma {:induction false} ForeignFrameIsSound(r: Receiver, s: Setup, m: Message, f: Frame, now: uint32, foreign: nat)
    requires Sound(r, m, foreign) && StreamOf(f) != m.stream
    requires foreign < TWO32 - 0x101
    ensures StaysSound(OnFrame(r, s, f, now), m, foreign + 1)
  {
    hide Consume, PayloadOf, Frames, InOrder, Lagging;
    if Gathering(r, m) {
      ForeignWhileGathering(r, s, m, f, now, foreign);
    } else {
      ConsumeKeeps(r.(last := now), PayloadOf(f));
    }
  }

  /** However the channel loses, repeats, reorders or delays the frames of one message, and whatever
      else it carries on other streams, a completed call on that stream always has exactly the message's
      bytes. (The frame counter is 32 bits wide; the bound keeps foreign frames from wrapping it.) */
  lemma {:induction false} HostileChannel(r: Receiver, s: Setup, m: Message, evs: seq<Event>)
    requires Idle(r) && Receivable(m, |r.buffer|)
    requires forall e | e in evs :: Hostile(e, m)
    requires Foreign(evs, m) <= TWO32 - 0x101
    ensures Sound(Run(r, s, evs).0, m, Foreign(evs, m))
    ensures OnlyWhole(Run(r, s, evs).1, m)
  {
    if evs != [] {
      var before, e := evs[..|evs| - 1], evs[|evs| - 1];
      HostileChannel(r, s, m, before);
      var q := Run(r, s, before).0;
      assert Hostile(e, m);
      if e.Arrive? {
        if StreamOf(e.frame) == m.stream {
          OwnFrameIsSound(q, s, m, e.frame, e.at, Foreign(before, m));
        } else {
          ForeignFrameIsSound(q, s, m, e.frame, e.at, Foreign(before, m));
        }
      }
    }
  }
}
