/** Demultiplexing: however the frames of many messages are interleaved, each message is reported
    exactly once, with exactly its bytes. */
module ExDemux {
  import opened Can
  import opened LongMessageWire
  import opened Crc16
  import opened ExReceiver

  /** One frame on the bus, the next one of message `msg` or anything else, or one call of the receiver's
      own `process`. */
  datatype Traffic = Own(msg: nat, at: uint32) | Other(frame: Frame, at: uint32) | Poll(at: uint32)

  function Key(m: Message): (byte, byte) { (m.stream, m.canId % 0x80) }

  /** Frames until the receiver has reported `m`: all of them, or as many as fill the buffer. */
  function Life(m: Message, size: nat): nat { 1 + FragmentCount(Min(|m.bytes|, size)) }

  /** Some but not all of the message's frames have been sent. */
  predicate Open(m: Message, sent: nat) { 0 < sent < |Frames(m)| }

  /** The message occupies a context. */
  predicate Live(m: Message, sent: nat, size: nat) { 0 < sent < Life(m, size) }

  /** The one report a message gets. */
  function Outcome(m: Message, s: ExSetup, size: nat): Call {
    if |m.bytes| <= size then Call(m.bytes, m.stream, Verdict(s.useCrc, m.crc, m.bytes))
    else Call(m.bytes[..size], m.stream, Truncated)
  }

  predicate Sendable(ms: seq<Message>, s: ExSetup) {
    forall i :: 0 <= i < |ms| ==> 1 <= |ms[i].bytes| <= 1275 && ms[i].stream in s.subscribed
  }

  function NoneSent(n: nat): (pos: seq<nat>)
    ensures |pos| == n
  {
    seq(n, i => 0)
  }

  function Moved(ms: seq<Message>, pos: seq<nat>, t: Traffic): (pos': seq<nat>)
    requires |pos| == |ms|
    ensures |pos'| == |ms|
  {
    if t.Own? && t.msg < |ms| then pos[t.msg := pos[t.msg] + 1] else pos
  }

  /** How many frames of each message have been sent. */
  function Sent(ms: seq<Message>, ts: seq<Traffic>): (pos: seq<nat>)
    ensures |pos| == |ms|
  {
    if ts == [] then NoneSent(|ms|) else Moved(ms, Sent(ms, ts[..|ts| - 1]), ts[|ts| - 1])
  }

  function Stamped(ms: seq<Message>, last: seq<uint32>, t: Traffic): (last': seq<uint32>)
    requires |last| == |ms|
    ensures |last'| == |ms|
  {
    if t.Own? && t.msg < |ms| then last[t.msg := t.at] else last
  }

  /** When the last frame of each message arrived, if any has. */
  function LastSeen(ms: seq<Message>, ts: seq<Traffic>): (last: seq<uint32>)
    ensures |last| == |ms|
  {
    if ts == [] then seq(|ms|, i => 0) else Stamped(ms, LastSeen(ms, ts[..|ts| - 1]), ts[|ts| - 1])
  }

  function LiveSet(ms: seq<Message>, pos: seq<nat>, size: nat): set<nat>
    requires |pos| == |ms|
  {
    set i | 0 <= i < |ms| && Live(ms[i], pos[i], size)
  }

  /** What the bus may carry next: a message starts only when fewer messages than contexts are live and
      no open one has its key; other frames start nothing here and continue no open message. */
  predicate MayCarry(ms: seq<Message>, s: ExSetup, size: nat, slots: nat, pos: seq<nat>, t: Traffic)
    requires |pos| == |ms|
  {
    match t
    case Own(i, _) =>
      && i < |ms| && pos[i] < |Frames(ms[i])|
      && (pos[i] == 0 ==>
            && |LiveSet(ms, pos, size)| < slots
            && forall j :: 0 <= j < |ms| && Open(ms[j], pos[j]) ==> Key(ms[j]) != Key(ms[i]))
    case Other(f, _) =>
      if SequenceOf(f) == 0 then FlagsOf(f) != 0 || StreamOf(f) !in s.subscribed
      else forall j :: 0 <= j < |ms| && Open(ms[j], pos[j]) ==> Key(ms[j]) != (StreamOf(f), SenderOf(f))
    case Poll(_) => true
  }

  /** The receiver's `process` finds no live message overdue. */
  predicate Prompt(ms: seq<Message>, s: ExSetup, size: nat, pos: seq<nat>, last: seq<uint32>, t: Traffic)
    requires |pos| == |last| == |ms|
  {
    t.Poll? ==> forall i :: 0 <= i < |ms| && Live(ms[i], pos[i], size) ==> Since(t.at, last[i]) < s.timeout
  }

  /** No call of `process` comes too late. */
  predicate InTime(ms: seq<Message>, s: ExSetup, size: nat, ts: seq<Traffic>) {
    forall k :: 0 <= k < |ts| ==> Prompt(ms, s, size, Sent(ms, ts[..k]), LastSeen(ms, ts[..k]), ts[k])
  }

  predicate Legal(ms: seq<Message>, s: ExSetup, size: nat, slots: nat, ts: seq<Traffic>) {
    InTime(ms, s, size, ts) && forall k :: 0 <= k < |ts| ==> MayCarry(ms, s, size, slots, Sent(ms, ts[..k]), ts[k])
  }

  function EventOf(ms: seq<Message>, pos: seq<nat>, t: Traffic): Event
    requires |pos| == |ms|
    requires t.Own? ==> t.msg < |ms| && pos[t.msg] < |Frames(ms[t.msg])|
  {
    match t
    case Own(i, at) => Arrive(Frames(ms[i])[pos[i]], at)
    case Other(f, at) => Arrive(f, at)
    case Poll(at) => Tick(at)
  }

  function EventsOf(ms: seq<Message>, s: ExSetup, size: nat, slots: nat, ts: seq<Traffic>): seq<Event>
    requires Legal(ms, s, size, slots, ts)
  {
    if ts == [] then [] else
    var n := |ts| - 1;
    LegalPrefix(ms, s, size, slots, ts, n);
    EventsOf(ms, s, size, slots, ts[..n]) + [EventOf(ms, Sent(ms, ts[..n]), ts[n])]
  }

  lemma LegalPrefix(ms: seq<Message>, s: ExSetup, size: nat, slots: nat, ts: seq<Traffic>, n: nat)
    requires Legal(ms, s, size, slots, ts) && n <= |ts|
    ensures Legal(ms, s, size, slots, ts[..n])
  {
    assert forall k :: 0 <= k < n ==> ts[..n][..k] == ts[..k];
  }

  /** The reports the user should see: each message's outcome, at the frame that decides it. */
  function Reports(ms: seq<Message>, s: ExSetup, size: nat, ts: seq<Traffic>): seq<Call> {
    if ts == [] then [] else
    var n := |ts| - 1;
    Reports(ms, s, size, ts[..n]) + Reported(ms, s, size, Sent(ms, ts[..n]), ts[n])
  }

  function Reported(ms: seq<Message>, s: ExSetup, size: nat, pos: seq<nat>, t: Traffic): seq<Call>
    requires |pos| == |ms|
  {
    if t.Own? && t.msg < |ms| && pos[t.msg] + 1 == Life(ms[t.msg], size) then [Outcome(ms[t.msg], s, size)] else []
  }

  // ---- The invariant: contexts in use and live messages correspond one to one ----

  /** Context `c` holds the first `p` frames of `m`. */
  predicate Holds(c: Context, m: Message, p: nat, size: nat) {
    && c.inUse && c.stream == m.stream && c.canId == m.canId % 0x80
    && c.length == |m.bytes| && c.crc == m.crc && c.expected == p && |c.buffer| == size
    && p >= 1 && c.index == c.received == 5 * (p - 1) < Min(|m.bytes|, size)
    && c.Gathered() == m.bytes[..c.index]
  }

  predicate Tracks(cs: seq<Context>, ms: seq<Message>, size: nat, pos: seq<nat>, last: seq<uint32>, owner: seq<nat>,
        home: seq<nat>) {
    && |owner| == |cs| && |home| == |ms| == |pos| == |last|
    && (forall c :: 0 <= c < |cs| && cs[c].inUse ==>
          owner[c] < |ms| && Live(ms[owner[c]], pos[owner[c]], size) && home[owner[c]] == c
          && Holds(cs[c], ms[owner[c]], pos[owner[c]], size) && cs[c].last == last[owner[c]])
    && (forall i :: 0 <= i < |ms| && Live(ms[i], pos[i], size) ==>
          home[i] < |cs| && cs[home[i]].inUse && owner[home[i]] == i)
    && (forall i, j :: 0 <= i < j < |ms| && Open(ms[i], pos[i]) && Open(ms[j], pos[j]) ==> Key(ms[i]) != Key(ms[j]))
  }

  lemma LiveIsOpen(m: Message, p: nat, size: nat)
    ensures Life(m, size) <= |Frames(m)|
    ensures Live(m, p, size) ==> Open(m, p)
  {}

  function Owners(owner: seq<nat>, n: nat): set<nat>
    requires n <= |owner|
  {
    if n == 0 then {} else Owners(owner, n - 1) + {owner[n - 1]}
  }

  /** No more contexts are in use than messages are live. */
  lemma {:induction false} OwnersFit(cs: seq<Context>, ms: seq<Message>, size: nat, pos: seq<nat>, last: seq<uint32>,
        owner: seq<nat>, home: seq<nat>, n: nat)
    requires Tracks(cs, ms, size, pos, last, owner, home) && n <= |cs|
    requires forall c :: 0 <= c < n ==> cs[c].inUse
    ensures |Owners(owner, n)| == n && Owners(owner, n) <= LiveSet(ms, pos, size)
    ensures forall x :: x in Owners(owner, n) ==> x < |home| && home[x] < n
  {
    hide Holds, Live;
    if n > 0 {
      OwnersFit(cs, ms, size, pos, last, owner, home, n - 1);
      assert cs[n - 1].inUse;
      assert owner[n - 1] !in Owners(owner, n - 1);
    }
  }

  lemma SomeFree(cs: seq<Context>, ms: seq<Message>, size: nat, pos: seq<nat>, last: seq<uint32>, owner: seq<nat>,
        home: seq<nat>)
    requires Tracks(cs, ms, size, pos, last, owner, home) && |LiveSet(ms, pos, size)| < |cs|
    ensures FindFree(cs, 0) < |cs|
  {
    if FindFree(cs, 0) == |cs| {
      OwnersFit(cs, ms, size, pos, last, owner, home, |cs|);
      SubsetSize(Owners(owner, |cs|), LiveSet(ms, pos, size));
    }
  }

  lemma {:induction false} SubsetSize(a: set<nat>, b: set<nat>)
    requires a <= b
    ensures |a| <= |b|
    decreases |a|
  {
    if a != {} {
      var x :| x in a;
      SubsetSize(a - {x}, b - {x});
    }
  }

  // ---- One frame ----

  lemma HeaderOpens(c: Context, m: Message, size: nat, now: uint32)
    requires |c.buffer| == size > 0 && 1 <= |m.bytes| <= 1275
    ensures Holds(Opened(c, HeaderFrame(m), now), m, 1, size)
  {
    hide HeaderFrame;
    HeaderReads(m);
  }

  /** The bytes of the next fragment that a context takes are the message's next bytes. */
  lemma BytesTaken(c: Context, m: Message, p: nat, size: nat)
    requires Holds(c, m, p, size) && |m.bytes| <= 1275 && c.index <= size
    ensures var q := PayloadOf(FragmentFrame(m, p - 1));
            var taken := Min(5, Min(Left(c), size - c.index));
            && c.index + taken <= |m.bytes| && c.Gathered() + q[..taken] == m.bytes[..c.index + taken]
            && (taken == 5 ==> q[..taken] == q)
  {
    hide FragmentFrame, PayloadOf;
    FragmentReads(m, p - 1);
    var q := PayloadOf(FragmentFrame(m, p - 1));
    var taken := Min(5, Min(Left(c), size - c.index));
    assert q[..taken] == m.bytes[c.index..c.index + taken];
  }

  /** The next fragment either extends what the context holds or decides the message. */
  lemma FragmentExtends(c: Context, m: Message, p: nat, s: ExSetup, size: nat, now: uint32)
    requires c.Valid() && Holds(c, m, p, size) && |m.bytes| <= 1275
    ensures var (d, calls) := Consume(c, s, PayloadOf(FragmentFrame(m, p - 1)), now);
            if p + 1 < Life(m, size) then calls == [] && Holds(Advance(d), m, p + 1, size) && d.last == now
            else calls == [Outcome(m, s, size)] && !d.inUse
  {
    hide FragmentFrame, PayloadOf, Verdict;
    BytesTaken(c, m, p, size);
    var taken := Min(5, Min(Left(c), size - c.index));
    assert c.index + taken == |m.bytes| ==> m.bytes[..c.index + taken] == m.bytes;
  }

  lemma OwnerFacts(cs: seq<Context>, ms: seq<Message>, size: nat, pos: seq<nat>, last: seq<uint32>, owner: seq<nat>,
        home: seq<nat>, c: nat)
    requires Tracks(cs, ms, size, pos, last, owner, home) && c < |cs| && cs[c].inUse
    ensures |owner| == |cs| && |home| == |ms| == |pos| == |last| && owner[c] < |ms| && home[owner[c]] == c
    ensures Live(ms[owner[c]], pos[owner[c]], size) && Open(ms[owner[c]], pos[owner[c]])
    ensures Key(ms[owner[c]]) == (cs[c].stream, cs[c].canId)
  {
    LiveIsOpen(ms[owner[c]], pos[owner[c]], size);
  }

  lemma KeysDiffer(cs: seq<Context>, ms: seq<Message>, size: nat, pos: seq<nat>, last: seq<uint32>, owner: seq<nat>,
        home: seq<nat>, i: nat, j: nat)
    requires Tracks(cs, ms, size, pos, last, owner, home) && i < |ms| && j < |ms|
    requires Open(ms[i], pos[i]) && Open(ms[j], pos[j]) && Key(ms[i]) == Key(ms[j])
    ensures i == j
  {
    hide Holds, Live, Open, Key;
  }

  lemma OnlyMatch(cs: seq<Context>, ms: seq<Message>, size: nat, pos: seq<nat>, last: seq<uint32>, owner: seq<nat>,
        home: seq<nat>, i: nat)
    requires Tracks(cs, ms, size, pos, last, owner, home) && i < |ms| && Open(ms[i], pos[i])
    ensures FindMatch(cs, ms[i].stream, ms[i].canId % 0x80, 0) == if Live(ms[i], pos[i], size) then home[i] else |cs|
  {
    assert |pos| == |home| == |ms|;
    var r := FindMatch(cs, ms[i].stream, ms[i].canId % 0x80, 0);
    hide Tracks, Holds, Open, Live, FindMatch;
    if r < |cs| {
      OwnerFacts(cs, ms, size, pos, last, owner, home, r);
      KeysDiffer(cs, ms, size, pos, last, owner, home, i, owner[r]);
    } else if Live(ms[i], pos[i], size) {
      HomeHolds(cs, ms, size, pos, last, owner, home, i);
    }
  }

  lemma {:induction false} OtherIgnored(cs: seq<Context>, ms: seq<Message>, s: ExSetup, size: nat, pos: seq<nat>,
        last: seq<uint32>, owner: seq<nat>, home: seq<nat>, f: Frame, now: uint32)
    requires AllValid(cs, size) && Tracks(cs, ms, size, pos, last, owner, home)
    requires MayCarry(ms, s, size, |cs|, pos, Other(f, now))
    ensures OnFrame(cs, s, f, now, size) == (cs, [])
  {
    var r := FindMatch(cs, StreamOf(f), SenderOf(f), 0);
    if SequenceOf(f) != 0 && r < |cs| {
      LiveIsOpen(ms[owner[r]], pos[owner[r]], size);
    }
  }

  /** A call of `process` that comes in time reports nothing and changes no context. */
  lemma PollQuiet(cs: seq<Context>, ms: seq<Message>, s: ExSetup, size: nat, pos: seq<nat>, last: seq<uint32>,
        owner: seq<nat>, home: seq<nat>, now: uint32)
    requires AllValid(cs, size) && Tracks(cs, ms, size, pos, last, owner, home)
    requires Prompt(ms, s, size, pos, last, Poll(now))
    ensures OnTick(cs, s, now, size, |cs|) == (cs, [])
  {
    hide Holds, Live, Open, Key;
    forall c | 0 <= c < |cs| ensures !Expired(cs[c], s, now) {}
    QuietTick(cs, s, now, size, |cs|);
  }

  lemma HeaderTracked(cs: seq<Context>, ms: seq<Message>, s: ExSetup, size: nat, pos: seq<nat>, last: seq<uint32>,
        owner: seq<nat>, home: seq<nat>, i: nat, now: uint32)
      returns (owner': seq<nat>, home': seq<nat>)
    requires AllValid(cs, size) && Tracks(cs, ms, size, pos, last, owner, home) && Sendable(ms, s)
    requires MayCarry(ms, s, size, |cs|, pos, Own(i, now)) && pos[i] == 0
    ensures var (ds, calls) := OnFrame(cs, s, HeaderFrame(ms[i]), now, size);
            calls == [] && Tracks(ds, ms, size, pos[i := 1], last[i := now], owner', home')
  {
    hide HeaderFrame, Frames, Holds;
    SomeFree(cs, ms, size, pos, last, owner, home);
    var c := FindFree(cs, 0);
    HeaderReads(ms[i]);
    HeaderOpens(cs[c], ms[i], size, now);
    owner', home' := owner[c := i], home[i := c];
  }

  /** Moving one message on: its context, if it has one, still holds it or is free again. */
  lemma MoveOn(cs: seq<Context>, ms: seq<Message>, size: nat, pos: seq<nat>, last: seq<uint32>, owner: seq<nat>,
        home: seq<nat>, i: nat, now: uint32, d: Context)
    requires Tracks(cs, ms, size, pos, last, owner, home) && i < |ms| && 0 < pos[i] < |Frames(ms[i])|
    requires Live(ms[i], pos[i], size)
    requires d.inUse == Live(ms[i], pos[i] + 1, size)
    requires (d.inUse ==> Holds(d, ms[i], pos[i] + 1, size) && d.last == now)
    ensures Tracks(cs[home[i] := d], ms, size, pos[i := pos[i] + 1], last[i := now], owner, home)
  {
    hide Holds, Frames, Life;
  }

  lemma MoveOnUnseen(cs: seq<Context>, ms: seq<Message>, size: nat, pos: seq<nat>, last: seq<uint32>, owner: seq<nat>,
        home: seq<nat>, i: nat, now: uint32)
    requires Tracks(cs, ms, size, pos, last, owner, home) && i < |ms| && 0 < pos[i] < |Frames(ms[i])|
    requires !Live(ms[i], pos[i], size)
    ensures Tracks(cs, ms, size, pos[i := pos[i] + 1], last[i := now], owner, home)
  {
    hide Holds, Frames, Life;
  }

  lemma FragmentSeen(cs: seq<Context>, s: ExSetup, size: nat, f: Frame, now: uint32, c: nat)
    requires AllValid(cs, size) && SequenceOf(f) != 0 && c == FindMatch(cs, StreamOf(f), SenderOf(f), 0)
    ensures c == |cs| ==> OnFrame(cs, s, f, now, size) == (cs, [])
    ensures c < |cs| && SequenceOf(f) == cs[c].expected ==>
              var (d, calls) := Consume(cs[c], s, PayloadOf(f), now);
              OnFrame(cs, s, f, now, size) == (cs[c := Advance(d)], calls)
  {
    hide Consume, PayloadOf;
  }

  lemma LiveFragment(cs: seq<Context>, ms: seq<Message>, s: ExSetup, size: nat, pos: seq<nat>, last: seq<uint32>,
        owner: seq<nat>, home: seq<nat>, i: nat, now: uint32)
    requires AllValid(cs, size) && Tracks(cs, ms, size, pos, last, owner, home) && Sendable(ms, s)
    requires i < |ms| && 0 < pos[i] < |Frames(ms[i])| && Live(ms[i], pos[i], size)
    ensures var (ds, calls) := OnFrame(cs, s, FragmentFrame(ms[i], pos[i] - 1), now, size);
            && calls == (if pos[i] + 1 == Life(ms[i], size) then [Outcome(ms[i], s, size)] else [])
            && Tracks(ds, ms, size, pos[i := pos[i] + 1], last[i := now], owner, home)
  {
    var m, p, h := ms[i], pos[i], home[i];
    HomeHolds(cs, ms, size, pos, last, owner, home, i);
    var d := LiveContext(cs[h], m, p, s, size, now);
    FragmentArrives(cs, ms, s, size, pos, last, owner, home, i, now);
    hide FragmentFrame, Consume, Outcome, Tracks, Holds, Frames, PayloadOf, OnFrame;
    MoveOn(cs, ms, size, pos, last, owner, home, i, now, d);
  }

  lemma TracksAll(cs: seq<Context>, ms: seq<Message>, size: nat, pos: seq<nat>, last: seq<uint32>, owner: seq<nat>,
        home: seq<nat>)
    requires Tracks(cs, ms, size, pos, last, owner, home)
    ensures |owner| == |cs| && |home| == |ms| == |pos| == |last|
  {}

  /** The fragment reaches the context that holds its message. */
  lemma FragmentArrives(cs: seq<Context>, ms: seq<Message>, s: ExSetup, size: nat, pos: seq<nat>, last: seq<uint32>,
        owner: seq<nat>, home: seq<nat>, i: nat, now: uint32)
    requires AllValid(cs, size) && Tracks(cs, ms, size, pos, last, owner, home) && Sendable(ms, s)
    requires i < |ms| && 0 < pos[i] < |Frames(ms[i])| && Live(ms[i], pos[i], size)
    ensures home[i] < |cs| && cs[home[i]].inUse
    ensures var f := FragmentFrame(ms[i], pos[i] - 1);
            var (d, calls) := Consume(cs[home[i]], s, PayloadOf(f), now);
            OnFrame(cs, s, f, now, size) == (cs[home[i] := Advance(d)], calls)
  {
    hide FragmentFrame, Consume, Tracks, Holds, Frames, PayloadOf, OnFrame, StreamOf, SenderOf, SequenceOf, FindMatch,
        Key, Life, Outcome;
    TracksAll(cs, ms, size, pos, last, owner, home);
    FragmentHead(ms[i], pos[i] - 1);
    HomeHolds(cs, ms, size, pos, last, owner, home, i);
    LiveIsOpen(ms[i], pos[i], size);
    OnlyMatch(cs, ms, size, pos, last, owner, home, i);
    FragmentSeen(cs, s, size, FragmentFrame(ms[i], pos[i] - 1), now, home[i]);
  }

  lemma LiveContext(c: Context, m: Message, p: nat, s: ExSetup, size: nat, now: uint32) returns (d: Context)
    requires c.Valid() && Holds(c, m, p, size) && |m.bytes| <= 1275 && Live(m, p, size)
    ensures d == Advance(Consume(c, s, PayloadOf(FragmentFrame(m, p - 1)), now).0)
    ensures d.inUse == Live(m, p + 1, size) && (d.inUse ==> Holds(d, m, p + 1, size) && d.last == now)
    ensures Consume(c, s, PayloadOf(FragmentFrame(m, p - 1)), now).1
            == if p + 1 == Life(m, size) then [Outcome(m, s, size)] else []
  {
    FragmentExtends(c, m, p, s, size, now);
    hide FragmentFrame, Consume, Outcome, Holds, PayloadOf;
    d := Advance(Consume(c, s, PayloadOf(FragmentFrame(m, p - 1)), now).0);
    HoldsInUse(d, m, p + 1, size);
  }

  lemma DeadFragment(cs: seq<Context>, ms: seq<Message>, s: ExSetup, size: nat, pos: seq<nat>, last: seq<uint32>,
        owner: seq<nat>, home: seq<nat>, i: nat, now: uint32)
    requires AllValid(cs, size) && Tracks(cs, ms, size, pos, last, owner, home) && Sendable(ms, s)
    requires i < |ms| && 0 < pos[i] < |Frames(ms[i])| && !Live(ms[i], pos[i], size)
    ensures OnFrame(cs, s, FragmentFrame(ms[i], pos[i] - 1), now, size) == (cs, [])
    ensures Tracks(cs, ms, size, pos[i := pos[i] + 1], last[i := now], owner, home)
  {
    var m, p := ms[i], pos[i];
    hide FragmentFrame, Frames, OnFrame, Holds;
    FragmentHead(m, p - 1);
    OnlyMatch(cs, ms, size, pos, last, owner, home, i);
    FragmentSeen(cs, s, size, FragmentFrame(m, p - 1), now, |cs|);
    MoveOnUnseen(cs, ms, size, pos, last, owner, home, i, now);
  }

  lemma FragmentTracked(cs: seq<Context>, ms: seq<Message>, s: ExSetup, size: nat, pos: seq<nat>, last: seq<uint32>,
        owner: seq<nat>, home: seq<nat>, i: nat, now: uint32)
    requires AllValid(cs, size) && Tracks(cs, ms, size, pos, last, owner, home) && Sendable(ms, s)
    requires i < |ms| && 0 < pos[i] < |Frames(ms[i])|
    ensures var (ds, calls) := OnFrame(cs, s, Frames(ms[i])[pos[i]], now, size);
            && calls == (if pos[i] + 1 == Life(ms[i], size) then [Outcome(ms[i], s, size)] else [])
            && Tracks(ds, ms, size, pos[i := pos[i] + 1], last[i := now], owner, home)
  {
    assert |pos| == |ms|;
    hide FragmentFrame, Outcome, Tracks, Frames, OnFrame, HeaderFrame;
    FrameData(ms[i]);
    assert Frames(ms[i])[1 + (pos[i] - 1)] == FragmentFrame(ms[i], pos[i] - 1);
    if Live(ms[i], pos[i], size) {
      LiveFragment(cs, ms, s, size, pos, last, owner, home, i, now);
    } else {
      DeadFragment(cs, ms, s, size, pos, last, owner, home, i, now);
    }
  }

  lemma HomeHolds(cs: seq<Context>, ms: seq<Message>, size: nat, pos: seq<nat>, last: seq<uint32>, owner: seq<nat>,
        home: seq<nat>, i: nat)
    requires Tracks(cs, ms, size, pos, last, owner, home) && i < |ms| && Live(ms[i], pos[i], size)
    ensures i < |home| && home[i] < |cs| && cs[home[i]].inUse
    ensures Holds(cs[home[i]], ms[i], pos[i], size) && cs[home[i]].expected == pos[i]
    ensures cs[home[i]].stream == ms[i].stream && cs[home[i]].canId == ms[i].canId % 0x80
  {}

  lemma HoldsInUse(c: Context, m: Message, p: nat, size: nat)
    ensures Holds(c, m, p, size) ==> c.inUse
  {}

  // ---- The whole run ----

  predicate AllFree(cs: seq<Context>) { forall c :: 0 <= c < |cs| ==> !cs[c].inUse }

  lemma StepTracked(cs: seq<Context>, ms: seq<Message>, s: ExSetup, size: nat, pos: seq<nat>, last: seq<uint32>,
        owner: seq<nat>, home: seq<nat>, t: Traffic)
      returns (owner': seq<nat>, home': seq<nat>)
    requires AllValid(cs, size) && |pos| == |ms| && Tracks(cs, ms, size, pos, last, owner, home) && Sendable(ms, s)
    requires MayCarry(ms, s, size, |cs|, pos, t) && |last| == |ms| && Prompt(ms, s, size, pos, last, t)
    ensures var (ds, calls) := OnEvent(cs, s, EventOf(ms, pos, t), size);
            && calls == Reported(ms, s, size, pos, t)
            && Tracks(ds, ms, size, Moved(ms, pos, t), Stamped(ms, last, t), owner', home')
  {
    hide OnFrame, Frames, Tracks, Outcome, HeaderFrame;
    owner', home' := owner, home;
    match t {
      case Own(i, now) =>
        if pos[i] == 0 {
          FrameData(ms[i]);
          owner', home' := HeaderTracked(cs, ms, s, size, pos, last, owner, home, i, now);
        } else {
          FragmentTracked(cs, ms, s, size, pos, last, owner, home, i, now);
        }
      case Poll(now) =>
        PollQuiet(cs, ms, s, size, pos, last, owner, home, now);
      case Other(f, now) =>
        OtherIgnored(cs, ms, s, size, pos, last, owner, home, f, now);
    }
  }

  lemma RunSnoc(cs: seq<Context>, s: ExSetup, evs: seq<Event>, e: Event, size: nat)
    requires AllValid(cs, size)
    ensures var (ds, calls) := Run(cs, s, evs, size);
            var (ds', more) := OnEvent(ds, s, e, size);
            Run(cs, s, evs + [e], size) == (ds', calls + more)
  {
    assert (evs + [e])[..|evs|] == evs;
  }

  lemma {:induction false} RunTracked(cs: seq<Context>, ms: seq<Message>, s: ExSetup, size: nat, ts: seq<Traffic>)
      returns (owner: seq<nat>, home: seq<nat>)
    requires AllValid(cs, size) && AllFree(cs) && Sendable(ms, s) && Legal(ms, s, size, |cs|, ts)
    ensures var (ds, calls) := Run(cs, s, EventsOf(ms, s, size, |cs|, ts), size);
            calls == Reports(ms, s, size, ts) && Tracks(ds, ms, size, Sent(ms, ts), LastSeen(ms, ts), owner, home)
  {
    if ts == [] {
      owner, home := seq(|cs|, i => 0), seq(|ms|, i => 0);
    } else {
      hide Run, OnEvent, Tracks, Reported, EventOf, MayCarry, Sendable, Moved;
      var n := |ts| - 1;
      LegalPrefix(ms, s, size, |cs|, ts, n);
      owner, home := RunTracked(cs, ms, s, size, ts[..n]);
      var before := EventsOf(ms, s, size, |cs|, ts[..n]);
      MayFollow(ms, s, size, |cs|, ts);
      RunSnoc(cs, s, before, EventOf(ms, Sent(ms, ts[..n]), ts[n]), size);
      owner, home := StepTracked(Run(cs, s, before, size).0, ms, s, size, Sent(ms, ts[..n]), LastSeen(ms, ts[..n]),
                                 owner, home, ts[n]);
    }
  }

  lemma MayFollow(ms: seq<Message>, s: ExSetup, size: nat, slots: nat, ts: seq<Traffic>)
    requires Legal(ms, s, size, slots, ts) && ts != []
    ensures var (pos, t) := (Sent(ms, ts[..|ts| - 1]), ts[|ts| - 1]);
            && MayCarry(ms, s, size, slots, pos, t)
            && (t.Own? ==> t.msg < |ms| && pos[t.msg] < |Frames(ms[t.msg])|)
  {}

  /** For any number of messages, any legal interleaving of their frames and any other traffic, the
      handler is called exactly as `Reports` says: once per message, when its last deciding frame
      arrives, with exactly its bytes (or the first ones that fit) and nothing in between. */
  lemma {:induction false} Demultiplexed(cs: seq<Context>, ms: seq<Message>, s: ExSetup, size: nat, ts: seq<Traffic>)
    requires AllValid(cs, size) && AllFree(cs) && Sendable(ms, s) && Legal(ms, s, size, |cs|, ts)
    ensures Run(cs, s, EventsOf(ms, s, size, |cs|, ts), size).1 == Reports(ms, s, size, ts)
  {
    var owner, home := RunTracked(cs, ms, s, size, ts);
  }

  // ---- Calls of `process` between the frames ----

  lemma LastPrompt(ms: seq<Message>, s: ExSetup, size: nat, ts: seq<Traffic>, n: nat)
    requires InTime(ms, s, size, ts) && n < |ts|
    ensures InTime(ms, s, size, ts[..n])
    ensures Prompt(ms, s, size, Sent(ms, ts[..n]), LastSeen(ms, ts[..n]), ts[n])
  {
    hide Prompt;
    assert forall k :: 0 <= k < n ==> ts[..n][..k] == ts[..k];
  }

  /** Legal traffic goes on with what the bus may carry, or with a prompt call of `process`. */
  lemma LegalOneMore(ms: seq<Message>, s: ExSetup, size: nat, slots: nat, ts: seq<Traffic>, t: Traffic)
    requires Legal(ms, s, size, slots, ts) && MayCarry(ms, s, size, slots, Sent(ms, ts), t)
    requires Prompt(ms, s, size, Sent(ms, ts), LastSeen(ms, ts), t)
    ensures t.Own? ==> t.msg < |ms| && Sent(ms, ts)[t.msg] < |Frames(ms[t.msg])|
    ensures Legal(ms, s, size, slots, ts + [t]) && Sent(ms, ts + [t]) == Moved(ms, Sent(ms, ts), t)
    ensures EventsOf(ms, s, size, slots, ts + [t]) == EventsOf(ms, s, size, slots, ts) + [EventOf(ms, Sent(ms, ts), t)]
  {
    hide MayCarry, Prompt, Moved, EventOf, Frames;
    MayMeansUnsent(ms, s, size, slots, Sent(ms, ts), t);
    var more := ts + [t];
    assert more[..|ts|] == ts;
    forall k | 0 <= k < |more|
      ensures MayCarry(ms, s, size, slots, Sent(ms, more[..k]), more[k])
      ensures Prompt(ms, s, size, Sent(ms, more[..k]), LastSeen(ms, more[..k]), more[k])
    {
      if k < |ts| { assert more[..k] == ts[..k]; }
    }
  }

  lemma MayMeansUnsent(ms: seq<Message>, s: ExSetup, size: nat, slots: nat, pos: seq<nat>, t: Traffic)
    requires |pos| == |ms| && MayCarry(ms, s, size, slots, pos, t)
    ensures t.Own? ==> t.msg < |ms| && pos[t.msg] < |Frames(ms[t.msg])|
  {}

  /** The traffic `ts` with the calls of `process` where `evs` has them. */
  function Woven(ts: seq<Traffic>, evs: seq<Event>): seq<Traffic> {
    if evs == [] then [] else
    var n := |evs| - 1;
    if evs[n].Tick? then Woven(ts, evs[..n]) + [Poll(evs[n].at)]
    else if ts == [] then [] else Woven(ts[..|ts| - 1], evs[..n]) + [ts[|ts| - 1]]
  }

  lemma WovenLast(ms: seq<Message>, s: ExSetup, size: nat, slots: nat, ts: seq<Traffic>, evs: seq<Event>)
    requires Legal(ms, s, size, slots, ts) && evs != [] && !evs[|evs| - 1].Tick?
    requires EventsOf(ms, s, size, slots, ts) == Unticked(evs)
    ensures ts != [] && Legal(ms, s, size, slots, ts[..|ts| - 1])
    ensures EventsOf(ms, s, size, slots, ts[..|ts| - 1]) == Unticked(evs[..|evs| - 1])
    ensures var (pos, t) := (Sent(ms, ts[..|ts| - 1]), ts[|ts| - 1]);
            && MayCarry(ms, s, size, slots, pos, t) && !t.Poll?
            && (t.Own? ==> t.msg < |ms| && pos[t.msg] < |Frames(ms[t.msg])|)
            && EventOf(ms, pos, t) == evs[|evs| - 1] && Sent(ms, ts) == Moved(ms, pos, t)
  {
    hide MayCarry, Moved, Frames;
    var n := |ts| - 1;
    assert ts != [];
    LegalPrefix(ms, s, size, slots, ts, n);
    MayFollow(ms, s, size, slots, ts);
    var a, b := EventsOf(ms, s, size, slots, ts[..n]), Unticked(evs[..|evs| - 1]);
    var x, e := EventOf(ms, Sent(ms, ts[..n]), ts[n]), evs[|evs| - 1];
    assert a + [x] == b + [e];
    assert a == (a + [x])[..|a|] && b == (b + [e])[..|b|] && |a| == |b|;
    assert x == (a + [x])[|a|] == e;
  }

  lemma PollAdded(ms: seq<Message>, s: ExSetup, size: nat, slots: nat, ts: seq<Traffic>, at: uint32)
    requires Legal(ms, s, size, slots, ts) && Prompt(ms, s, size, Sent(ms, ts), LastSeen(ms, ts), Poll(at))
    ensures Legal(ms, s, size, slots, ts + [Poll(at)]) && Sent(ms, ts + [Poll(at)]) == Sent(ms, ts)
    ensures EventsOf(ms, s, size, slots, ts + [Poll(at)]) == EventsOf(ms, s, size, slots, ts) + [Tick(at)]
  {
    hide Legal, Prompt, Sent, LastSeen, EventsOf;
    LegalOneMore(ms, s, size, slots, ts, Poll(at));
  }

  /** Calls of `process` in time, wherever they fall, keep legal traffic legal. */
  lemma {:induction false} WovenLegal(ms: seq<Message>, s: ExSetup, size: nat, slots: nat, ts: seq<Traffic>,
        evs: seq<Event>)
    requires Legal(ms, s, size, slots, ts) && EventsOf(ms, s, size, slots, ts) == Unticked(evs)
    requires InTime(ms, s, size, Woven(ts, evs))
    ensures Legal(ms, s, size, slots, Woven(ts, evs)) && EventsOf(ms, s, size, slots, Woven(ts, evs)) == evs
    ensures Sent(ms, Woven(ts, evs)) == Sent(ms, ts)
    decreases |evs|
  {
    hide MayCarry, Moved, Frames, Legal, Prompt, InTime, EventsOf, Sent, LastSeen, EventOf;
    if evs == [] {
      NothingWoven(ms, s, size, slots, ts);
    } else {
      var n := |evs| - 1;
      if !evs[n].Tick? { WovenLast(ms, s, size, slots, ts, evs); }
      var before := if evs[n].Tick? then ts else ts[..|ts| - 1];
      var w, prior := Woven(ts, evs), Woven(before, evs[..n]);
      assert w == prior + [w[|prior|]] && w[..|prior|] == prior;
      assert evs == evs[..n] + [evs[n]];
      LastPrompt(ms, s, size, w, |prior|);
      WovenLegal(ms, s, size, slots, before, evs[..n]);
      if evs[n].Tick? {
        PollAdded(ms, s, size, slots, prior, evs[n].at);
      } else {
        LegalOneMore(ms, s, size, slots, prior, w[|prior|]);
      }
    }
  }

  lemma NothingWoven(ms: seq<Message>, s: ExSetup, size: nat, slots: nat, ts: seq<Traffic>)
    requires Legal(ms, s, size, slots, ts) && EventsOf(ms, s, size, slots, ts) == []
    ensures ts == [] && Legal(ms, s, size, slots, [])
  {}

  // ---- What the reports amount to ----

  /** The outcome of message `k` if enough of it has been sent. */
  function DecidedAt(ms: seq<Message>, s: ExSetup, size: nat, pos: seq<nat>, k: nat): multiset<Call>
    requires |pos| == |ms| && k < |ms|
  {
    if pos[k] >= Life(ms[k], size) then multiset{Outcome(ms[k], s, size)} else multiset{}
  }

  /** The outcomes of those of the first `k` messages that have been decided. */
  function Decided(ms: seq<Message>, s: ExSetup, size: nat, pos: seq<nat>, k: nat): multiset<Call>
    requires |pos| == |ms| && k <= |ms|
  {
    if k == 0 then multiset{} else Decided(ms, s, size, pos, k - 1) + DecidedAt(ms, s, size, pos, k - 1)
  }

  lemma Shuffle(a: multiset<Call>, b: multiset<Call>, c: multiset<Call>)
    ensures (a + b) + c == (a + c) + b && a + multiset{} == a
  {}

  /** Sending one more frame of message `i` decides it. */
  predicate Deciding(ms: seq<Message>, size: nat, pos: seq<nat>, i: nat)
    requires |pos| == |ms| && i < |ms|
  {
    pos[i] + 1 == Life(ms[i], size)
  }

  lemma DecidesAt(ms: seq<Message>, s: ExSetup, size: nat, pos: seq<nat>, i: nat, k: nat)
    requires |pos| == |ms| && k < |ms| && i < |ms|
    ensures var (was, now') := (DecidedAt(ms, s, size, pos, k), DecidedAt(ms, s, size, pos[i := pos[i] + 1], k));
            if i == k && Deciding(ms, size, pos, i) then was == multiset{} && now' == multiset{Outcome(ms[i], s, size)}
            else now' == was
  {
    hide Outcome, Life;
  }

  lemma {:induction false} DecidesOne(ms: seq<Message>, s: ExSetup, size: nat, pos: seq<nat>, i: nat, k: nat)
    requires |pos| == |ms| && k <= |ms| && i < |ms|
    ensures var (was, now') := (Decided(ms, s, size, pos, k), Decided(ms, s, size, pos[i := pos[i] + 1], k));
            if i < k && Deciding(ms, size, pos, i) then now' == was + multiset{Outcome(ms[i], s, size)} else now' == was
  {
    hide Outcome, Life, DecidedAt, Deciding;
    if k > 0 {
      DecidesOne(ms, s, size, pos, i, k - 1);
      DecidesAt(ms, s, size, pos, i, k - 1);
      if i < k - 1 && Deciding(ms, size, pos, i) {
        Shuffle(Decided(ms, s, size, pos, k - 1), multiset{Outcome(ms[i], s, size)},
                DecidedAt(ms, s, size, pos, k - 1));
      } else if i == k - 1 && Deciding(ms, size, pos, i) {
        Shuffle(Decided(ms, s, size, pos, k - 1), multiset{Outcome(ms[i], s, size)}, multiset{});
      }
    }
  }

  lemma {:induction false} NothingDecided(ms: seq<Message>, s: ExSetup, size: nat, k: nat)
    requires k <= |ms|
    ensures Decided(ms, s, size, NoneSent(|ms|), k) == multiset{}
  {
    if k > 0 {
      NothingDecided(ms, s, size, k - 1);
    }
  }

  lemma ReportsBag(ms: seq<Message>, s: ExSetup, size: nat, ts: seq<Traffic>)
    requires ts != []
    ensures var (n, pos) := (|ts| - 1, Sent(ms, ts[..|ts| - 1]));
            var (was, now') := (multiset(Reports(ms, s, size, ts[..n])), multiset(Reports(ms, s, size, ts)));
            if ts[n].Own? && ts[n].msg < |ms| && Deciding(ms, size, pos, ts[n].msg)
            then now' == was + multiset{Outcome(ms[ts[n].msg], s, size)} else now' == was
  {
    hide Outcome, Life;
    var n := |ts| - 1;
    var earlier := Reports(ms, s, size, ts[..n]);
    assert earlier + [] == earlier;
  }

  lemma DecidesMoved(ms: seq<Message>, s: ExSetup, size: nat, pos: seq<nat>, t: Traffic)
    requires |pos| == |ms|
    ensures var (was, now') := (Decided(ms, s, size, pos, |ms|), Decided(ms, s, size, Moved(ms, pos, t), |ms|));
            if t.Own? && t.msg < |ms| && Deciding(ms, size, pos, t.msg)
            then now' == was + multiset{Outcome(ms[t.msg], s, size)} else now' == was
  {
    hide Outcome, Life, Decided, Deciding;
    if t.Own? && t.msg < |ms| {
      DecidesOne(ms, s, size, pos, t.msg, |ms|);
    }
  }

  /** Every message that has been sent far enough is reported exactly once, and no other. */
  lemma {:induction false} ReportedOnce(ms: seq<Message>, s: ExSetup, size: nat, ts: seq<Traffic>)
    ensures multiset(Reports(ms, s, size, ts)) == Decided(ms, s, size, Sent(ms, ts), |ms|)
  {
    if ts == [] {
      NothingDecided(ms, s, size, |ms|);
    } else {
      hide Outcome, Life, Decided, Reports, Deciding, Moved;
      var n := |ts| - 1;
      ReportedOnce(ms, s, size, ts[..n]);
      ReportsBag(ms, s, size, ts);
      DecidesMoved(ms, s, size, Sent(ms, ts[..n]), ts[n]);
    }
  }

  /** A message that fits is accepted exactly when its header asks for no check, or for a check that this
      receiver makes and that succeeds. */
  lemma {:induction false} AcceptedExactlyWhen(m: Message, s: ExSetup, size: nat)
    requires |m.bytes| <= size
    ensures Outcome(m, s, size).bytes == m.bytes
    ensures Outcome(m, s, size).status == Complete <==> m.crc == 0 || (s.useCrc && Crc(m.bytes) == m.crc)
    ensures Outcome(m, s, size).status != Complete <==> Outcome(m, s, size).status == CrcError
  {}

  /** `m` is what arrives of a checked message `sent` when an odd number of its bits, or some of sixteen
      consecutive ones, were damaged in flight. */
  ghost predicate DamagedInFlight(sent: Message, m: Message) {
    sent.crc == Crc(sent.bytes) != 0 && m == sent.(bytes := m.bytes) && Detectable(sent.bytes, m.bytes)
  }

  /** The outcomes of those of the first `n` messages, other than `k`, that have been decided. */
  function DecidedBut(ms: seq<Message>, s: ExSetup, size: nat, pos: seq<nat>, k: nat, n: nat): multiset<Call>
    requires |pos| == |ms| && n <= |ms|
  {
    if n == 0 then multiset{} else
    DecidedBut(ms, s, size, pos, k, n - 1) + if n - 1 == k then multiset{} else DecidedAt(ms, s, size, pos, n - 1)
  }

  lemma {:induction false} DecidedSplits(ms: seq<Message>, s: ExSetup, size: nat, pos: seq<nat>, k: nat, n: nat)
    requires |pos| == |ms| && n <= |ms| && k < |ms|
    ensures Decided(ms, s, size, pos, n)
            == DecidedBut(ms, s, size, pos, k, n) + if k < n then DecidedAt(ms, s, size, pos, k) else multiset{}
  {
    hide DecidedAt;
    if n > 0 {
      DecidedSplits(ms, s, size, pos, k, n - 1);
      if k < n - 1 {
        Shuffle(DecidedBut(ms, s, size, pos, k, n - 1), DecidedAt(ms, s, size, pos, k),
                DecidedAt(ms, s, size, pos, n - 1));
      }
    }
  }

  /** The call is the outcome of a message other than `k`. */
  predicate OfAnother(ms: seq<Message>, s: ExSetup, size: nat, k: nat, c: Call) {
    exists i :: 0 <= i < |ms| && i != k && c == Outcome(ms[i], s, size)
  }

  lemma {:induction false} OthersOnly(ms: seq<Message>, s: ExSetup, size: nat, pos: seq<nat>, k: nat, n: nat)
    requires |pos| == |ms| && n <= |ms|
    ensures forall c :: c in DecidedBut(ms, s, size, pos, k, n) ==> OfAnother(ms, s, size, k, c)
  {
    hide Outcome, Life;
    if n > 0 {
      OthersOnly(ms, s, size, pos, k, n - 1);
      assert n - 1 != k ==> OfAnother(ms, s, size, k, Outcome(ms[n - 1], s, size));
    }
  }

  /** What a damaged message is reported as: a check error, or truncated if it does not fit. */
  function DamageReport(m: Message, size: nat): Call {
    if |m.bytes| <= size then Call(m.bytes, m.stream, CrcError) else Call(m.bytes[..size], m.stream, Truncated)
  }

  /** The report, due once so many frames have been sent that the message is decided. */
  function DamageDue(m: Message, size: nat, sent: nat): multiset<Call> {
    if sent >= Life(m, size) then multiset{DamageReport(m, size)} else multiset{}
  }

  lemma DamageOutcome(sent: Message, m: Message, s: ExSetup, size: nat)
    requires s.useCrc && DamagedInFlight(sent, m)
    ensures HeaderFrame(m) == HeaderFrame(sent) && Outcome(m, s, size) == DamageReport(m, size)
  {
    DamageDetected(sent.bytes, m.bytes);
    hide Crc;
  }

  /** Such damage to any one of any number of interleaved messages, wherever the fragment boundaries fall, is
      reported once the message has been decided, as a check error and never as a complete message. All
      other calls are the outcomes of the other messages. */
  lemma {:induction false} DamageReported(cs: seq<Context>, sent: Message, ms: seq<Message>, k: nat, s: ExSetup,
        size: nat, ts: seq<Traffic>)
    requires AllValid(cs, size) && AllFree(cs) && Sendable(ms, s) && Legal(ms, s, size, |cs|, ts)
    requires k < |ms| && s.useCrc && DamagedInFlight(sent, ms[k])
    ensures HeaderFrame(ms[k]) == HeaderFrame(sent)
    ensures var calls := Run(cs, s, EventsOf(ms, s, size, |cs|, ts), size).1;
            var pos := Sent(ms, ts);
            && multiset(calls) == DecidedBut(ms, s, size, pos, k, |ms|) + DamageDue(ms[k], size, pos[k])
            && (forall c :: c in DecidedBut(ms, s, size, pos, k, |ms|) ==> OfAnother(ms, s, size, k, c))
            && (forall c :: c in calls && c.status == Complete ==> OfAnother(ms, s, size, k, c))
  {
    hide Run, EventsOf, Legal, Sent, Reports, Outcome, DecidedBut, Life, OfAnother, HeaderFrame, AllValid,
         DamagedInFlight;
    var calls, pos := Run(cs, s, EventsOf(ms, s, size, |cs|, ts), size).1, Sent(ms, ts);
    DamageOutcome(sent, ms[k], s, size);
    Demultiplexed(cs, ms, s, size, ts);
    ReportedOnce(ms, s, size, ts);
    DecidedSplits(ms, s, size, pos, k, |ms|);
    OthersOnly(ms, s, size, pos, k, |ms|);
    forall c | c in calls && c.status == Complete
      ensures OfAnother(ms, s, size, k, c)
    {
      assert c in multiset(calls);
    }
  }

  /** With one message on the bus that call is the only one. */
  lemma {:induction false} LoneDamageReported(cs: seq<Context>, sent: Message, m: Message, s: ExSetup, size: nat,
        ts: seq<Traffic>)
    requires AllValid(cs, size) && AllFree(cs) && Sendable([m], s) && Legal([m], s, size, |cs|, ts)
    requires s.useCrc && DamagedInFlight(sent, m)
    ensures Run(cs, s, EventsOf([m], s, size, |cs|, ts), size).1
            == if Sent([m], ts)[0] < Life(m, size) then [] else [DamageReport(m, size)]
  {
    hide Run, EventsOf, Legal, Sent, Outcome, Life, AllValid, DamagedInFlight;
    DamageReported(cs, sent, [m], 0, s, size, ts);
    assert DecidedBut([m], s, size, Sent([m], ts), 0, 1) == multiset{};
    OnlyElement(Run(cs, s, EventsOf([m], s, size, |cs|, ts), size).1, DamageReport(m, size),
                Sent([m], ts)[0] >= Life(m, size));
  }

  lemma OnlyElement(a: seq<Call>, c: Call, once: bool)
    requires multiset(a) == if once then multiset{c} else multiset{}
    ensures a == if once then [c] else []
  {
    assert |multiset(a)| == |a|;
    if once {
      assert a[0] in multiset(a);
    }
  }
}
