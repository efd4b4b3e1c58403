/** The sending half of the extended handler, on values: one context per outgoing message, served in
    turn, one fragment a call. */
module ExSender {
  import opened Can
  import opened LongMessageWire
  import opened Crc16

  datatype Slot = Slot(inUse: bool, stream: byte, priority: byte, buffer: seq<byte>, index: nat, sequence: nat,
        last: uint32)
  {
    predicate Valid() {
      inUse ==> index % 5 == 0 && sequence == 1 + index / 5 && (index < |buffer| || index == |buffer| == 0)
    }
  }

  datatype Sender = Sender(slots: seq<Slot>, cursor: nat)
  {
    /** No two contexts in use send on the same stream. */
    predicate Valid() {
      && cursor < |slots|
      && (forall i :: 0 <= i < |slots| ==> slots[i].Valid())
      && (forall i, j :: 0 <= i < j < |slots| && slots[i].inUse && slots[j].inUse ==>
            slots[i].stream != slots[j].stream)
    }
  }

  datatype ExConfig = ExConfig(canId: byte, delay: byte, useCrc: bool)

  /** The bytes that the check word covers: the length is handed on as sixteen bits. */
  function Checked(bytes: seq<byte>): seq<byte> { bytes[..|bytes| % 0x1_0000] }

  function MessageOf(g: ExConfig, bytes: seq<byte>, stream: byte, priority: byte): Message {
    Message(stream, g.canId, priority, bytes, if g.useCrc then Crc(Checked(bytes)) else 0)
  }

  /** A message of no bytes still has one fragment here, an empty one. */
  function Parts(n: nat): nat { if n == 0 then 1 else FragmentCount(n) }

  function Fragments(m: Message): (fs: seq<Frame>)
    ensures |fs| == Parts(|m.bytes|)
  {
    seq(Parts(|m.bytes|), k requires 0 <= k < Parts(|m.bytes|) => FragmentFrame(m, k))
  }

  function AllFrames(m: Message): seq<Frame> { [HeaderFrame(m)] + Fragments(m) }

  /** Both handlers put a message that is not empty on the bus in the same frames, which is what the
      receivers are proved against. */
  lemma {:induction false} SameFramesAsBasic(m: Message)
    ensures |m.bytes| > 0 <==> AllFrames(m) == Frames(m)
  {
    FrameData(m);
    hide HeaderFrame, FragmentFrame;
    if |m.bytes| > 0 {
      assert Fragments(m) == Frames(m)[1..];
    } else {
      assert |AllFrames(m)| == 2 && |Frames(m)| == 1;
    }
  }

  function Outgoing(t: Slot, canId: byte): Message { Message(t.stream, canId, t.priority, t.buffer, 0) }

  /** The frames a context still has to send. */
  function Pending(t: Slot, canId: byte): seq<Frame>
    requires t.Valid()
  {
    if t.inUse then Fragments(Outgoing(t, canId))[t.sequence - 1..] else []
  }

  predicate Sends(t: Slot, stream: byte) { t.inUse && t.stream == stream }

  /** The first context from `i` on that sends on `stream`. */
  function FindStream(ts: seq<Slot>, stream: byte, i: nat): (r: nat)
    requires i <= |ts|
    ensures i <= r <= |ts| && (forall k :: i <= k < r ==> !Sends(ts[k], stream)) && (r < |ts| ==> Sends(ts[r], stream))
    decreases |ts| - i
  {
    if i == |ts| || Sends(ts[i], stream) then i else FindStream(ts, stream, i + 1)
  }

  function FindFree(ts: seq<Slot>, i: nat): (r: nat)
    requires i <= |ts|
    ensures i <= r <= |ts| && (forall k :: i <= k < r ==> ts[k].inUse) && (r < |ts| ==> !ts[r].inUse)
    decreases |ts| - i
  {
    if i == |ts| || !ts[i].inUse then i else FindFree(ts, i + 1)
  }

  /** The frames still to be sent on one stream. */
  function PendingOn(x: Sender, canId: byte, stream: byte): seq<Frame>
    requires x.Valid()
  {
    var i := FindStream(x.slots, stream, 0);
    if i < |x.slots| then Pending(x.slots[i], canId) else []
  }

  /** A new message is accepted unless its stream is being sent on; the code needs a free context then. */
  predicate Accepts(x: Sender, stream: byte) { FindStream(x.slots, stream, 0) == |x.slots| }

  predicate HasFree(x: Sender) { FindFree(x.slots, 0) < |x.slots| }

  /** What an accepted message needs: a free context, and no zero byte, because the code copies it as a C
      string and would send what lies behind a copy that was cut off. */
  predicate CanSend(x: Sender, stream: byte, bytes: seq<byte>) {
    Accepts(x, stream) ==> HasFree(x) && 0 !in bytes
  }

  function OnSend(x: Sender, g: ExConfig, m: Message): (r: (Sender, seq<Frame>))
    requires x.Valid() && CanSend(x, m.stream, m.bytes)
  {
    if !Accepts(x, m.stream) then (x, []) else
    var i := FindFree(x.slots, 0);
    (x.(slots := x.slots[i := Slot(true, m.stream, m.priority, m.bytes, 0, 1, x.slots[i].last)]), [HeaderFrame(m)])
  }

  function Served(t: Slot, now: uint32): Slot
    requires t.Valid() && t.inUse
  {
    if t.index + 5 >= |t.buffer| then t.(inUse := false, buffer := [], index := |t.buffer|)
    else t.(index := t.index + 5, sequence := t.sequence + 1, last := now)
  }

  predicate Due(t: Slot, g: ExConfig, now: uint32) { t.inUse && Since(now, t.last) >= g.delay }

  function Next(x: Sender): nat { if x.cursor + 1 >= |x.slots| then 0 else x.cursor + 1 }

  /** One `process` call: the context whose turn it is sends a fragment if its delay has passed. */
  function OnProcess(x: Sender, g: ExConfig, now: uint32): (r: (Sender, seq<Frame>))
    requires x.Valid()
  {
    var t := x.slots[x.cursor];
    if Due(t, g, now) then
      (Sender(x.slots[x.cursor := Served(t, now)], Next(x)), [FragmentFrame(Outgoing(t, g.canId), t.sequence - 1)])
    else (x.(cursor := Next(x)), [])
  }

  lemma SendKeepsValid(x: Sender, g: ExConfig, m: Message)
    requires x.Valid() && CanSend(x, m.stream, m.bytes)
    ensures OnSend(x, g, m).0.Valid()
  {}

  lemma ProcessKeepsValid(x: Sender, g: ExConfig, now: uint32)
    requires x.Valid()
    ensures OnProcess(x, g, now).0.Valid()
  {}

  // ---- Conservation: sent plus pending is what was accepted, on every stream ----

  function OnStream(fs: seq<Frame>, stream: byte): seq<Frame> {
    if fs == [] then [] else
    OnStream(fs[..|fs| - 1], stream) + if StreamOf(fs[|fs| - 1]) == stream then [fs[|fs| - 1]] else []
  }

  lemma {:induction false} OnStreamJoins(a: seq<Frame>, b: seq<Frame>, stream: byte)
    ensures OnStream(a + b, stream) == OnStream(a, stream) + OnStream(b, stream)
  {
    if b == [] {
      assert a + b == a;
    } else {
      OnStreamJoins(a, b[..|b| - 1], stream);
      assert (a + b)[..|a + b| - 1] == a + b[..|b| - 1];
    }
  }

  lemma FragmentAt(m: Message, k: nat)
    requires k < Parts(|m.bytes|)
    ensures Fragments(m)[k] == FragmentFrame(m, k)
    ensures Fragments(m)[k..] == [FragmentFrame(m, k)] + Fragments(m)[k + 1..]
  {}

  /** Serving a context moves exactly the first of its pending frames onto the bus. */
  lemma ServeSendsFirst(t: Slot, canId: byte, now: uint32)
    requires t.Valid() && t.inUse
    ensures Served(t, now).Valid()
    ensures Pending(t, canId) == [FragmentFrame(Outgoing(t, canId), t.sequence - 1)] + Pending(Served(t, now), canId)
  {
    hide FragmentFrame, Fragments;
    FragmentAt(Outgoing(t, canId), t.sequence - 1);
  }

  lemma {:induction false} ProcessConserves(x: Sender, g: ExConfig, now: uint32, stream: byte)
    requires x.Valid()
    ensures OnProcess(x, g, now).0.Valid()
    ensures PendingOn(x, g.canId, stream) ==
              OnStream(OnProcess(x, g, now).1, stream) + PendingOn(OnProcess(x, g, now).0, g.canId, stream)
  {
    hide FragmentFrame, Fragments, Served;
    ProcessKeepsValid(x, g, now);
    var (y, sent) := OnProcess(x, g, now);
    var c := x.cursor;
    var t := x.slots[c];
    if Due(t, g, now) {
      ServeSendsFirst(t, g.canId, now);
      ServedStream(t, now);
      FragmentHead(Outgoing(t, g.canId), t.sequence - 1);
      OneFrame(sent[0], stream);
      if t.stream == stream {
        assert FindStream(x.slots, stream, 0) == c;
        assert FindStream(y.slots, stream, 0) == if y.slots[c].inUse then c else |y.slots|;
      } else {
        SameFinding(x.slots, y.slots, stream, c);
      }
    } else {
      assert OnStream([], stream) == [];
    }
  }

  lemma OneFrame(f: Frame, stream: byte)
    ensures OnStream([f], stream) == if StreamOf(f) == stream then [f] else []
  {
    assert [f][..0] == [];
    assert OnStream([], stream) == [];
  }

  lemma ServedStream(t: Slot, now: uint32)
    requires t.Valid() && t.inUse
    ensures Served(t, now).stream == t.stream
  {}

  /** Changing a context that does not send on `stream` to one that does not either. */
  lemma SameFinding(a: seq<Slot>, b: seq<Slot>, stream: byte, c: nat)
    requires |a| == |b| && c < |a| && b == a[c := b[c]] && !Sends(a[c], stream) && !Sends(b[c], stream)
    ensures FindStream(a, stream, 0) == FindStream(b, stream, 0)
  {
    var r, q := FindStream(a, stream, 0), FindStream(b, stream, 0);
    assert r < |a| ==> r != c && b[r] == a[r];
    assert q < |a| ==> q != c && a[q] == b[q];
  }

  lemma HeaderHead(m: Message)
    ensures StreamOf(HeaderFrame(m)) == m.stream
  {
    HeaderReads(m);
  }

  lemma SendConserves(x: Sender, g: ExConfig, m: Message, stream: byte)
    requires x.Valid() && CanSend(x, m.stream, m.bytes) && m.canId == g.canId
    ensures OnSend(x, g, m).0.Valid()
    ensures PendingOn(x, g.canId, stream) + (if Accepts(x, m.stream) && m.stream == stream then AllFrames(m) else [])
            == OnStream(OnSend(x, g, m).1, stream) + PendingOn(OnSend(x, g, m).0, g.canId, stream)
  {
    hide HeaderFrame, Fragments;
    SendKeepsValid(x, g, m);
    var (y, sent) := OnSend(x, g, m);
    if Accepts(x, m.stream) {
      var i := FindFree(x.slots, 0);
      hide StreamOf;
      HeaderHead(m);
      OneFrame(HeaderFrame(m), stream);
      SameFragments(m, Outgoing(y.slots[i], g.canId));
      if m.stream == stream {
        assert FindStream(y.slots, stream, 0) == i;
      } else {
        SameFinding(x.slots, y.slots, stream, i);
      }
    } else {
      assert OnStream([], stream) == [];
    }
  }

  lemma SameFragments(m: Message, n: Message)
    requires m == n.(crc := m.crc)
    ensures Fragments(m) == Fragments(n)
  {}

  // ---- Whole runs ----

  datatype Op = Send(bytes: seq<byte>, stream: byte, priority: byte) | Process(at: uint32)

  /** A call that the code carries out as it is meant. */
  predicate Callable(x: Sender, op: Op) {
    op.Send? ==> CanSend(x, op.stream, op.bytes)
  }

  function Perform(x: Sender, g: ExConfig, op: Op): (r: (Sender, seq<Frame>))
    requires x.Valid() && Callable(x, op)
    ensures r.0.Valid()
  {
    match op
    case Send(bytes, stream, priority) =>
      SendKeepsValid(x, g, MessageOf(g, bytes, stream, priority));
      OnSend(x, g, MessageOf(g, bytes, stream, priority))
    case Process(now) =>
      ProcessKeepsValid(x, g, now);
      OnProcess(x, g, now)
  }

  /** The state, the frames on the bus, and the frames owed for the accepted messages of one stream. */
  datatype History = History(x: Sender, bus: seq<Frame>, owed: seq<Frame>)

  function OwedBy(x: Sender, g: ExConfig, op: Op, stream: byte): seq<Frame> {
    if op.Send? && Accepts(x, op.stream) && op.stream == stream
    then AllFrames(MessageOf(g, op.bytes, op.stream, op.priority)) else []
  }

  /** A run is one of calls that the code carries out as they are meant; any other is left out of it. */
  function Run(x: Sender, g: ExConfig, ops: seq<Op>, stream: byte): (h: History)
    requires x.Valid()
    ensures h.x.Valid()
  {
    if ops == [] then History(x, [], []) else
    var h := Run(x, g, ops[..|ops| - 1], stream);
    var op := ops[|ops| - 1];
    if !Callable(h.x, op) then h else
    var (y, sent) := Perform(h.x, g, op);
    History(y, h.bus + sent, h.owed + OwedBy(h.x, g, op, stream))
  }

  lemma PerformConserves(x: Sender, g: ExConfig, op: Op, stream: byte)
    requires x.Valid() && Callable(x, op)
    ensures PendingOn(x, g.canId, stream) + OwedBy(x, g, op, stream)
            == OnStream(Perform(x, g, op).1, stream) + PendingOn(Perform(x, g, op).0, g.canId, stream)
  {
    match op {
      case Send(bytes, to, priority) => SendConserves(x, g, MessageOf(g, bytes, to, priority), stream);
      case Process(now) => ProcessConserves(x, g, now, stream);
    }
  }

  lemma Reassociate(bus: seq<Frame>, pending: seq<Frame>, owed: seq<Frame>, more: seq<Frame>, sent: seq<Frame>,
        pending': seq<Frame>)
    requires bus + pending == owed && pending + more == sent + pending'
    ensures (bus + sent) + pending' == owed + more
  {
    assert (bus + sent) + pending' == bus + (sent + pending') == bus + (pending + more) == (bus + pending) + more;
  }

  /** However such calls of `sendLongMessage` and `process` are mixed, the frames seen on a stream followed by
      those still pending there are exactly the frames of the messages accepted for it, in order. */
  lemma {:induction false} Conserved(x: Sender, g: ExConfig, ops: seq<Op>, stream: byte)
    requires x.Valid() && PendingOn(x, g.canId, stream) == []
    ensures var h := Run(x, g, ops, stream);
            OnStream(h.bus, stream) + PendingOn(h.x, g.canId, stream) == h.owed
  {
    hide Perform, PendingOn, OwedBy;
    if ops == [] {
      assert OnStream([], stream) == [];
    } else {
      Conserved(x, g, ops[..|ops| - 1], stream);
      var h := Run(x, g, ops[..|ops| - 1], stream);
      var op := ops[|ops| - 1];
      if Callable(h.x, op) {
        var (y, sent) := Perform(h.x, g, op);
        PerformConserves(h.x, g, op, stream);
        OnStreamJoins(h.bus, sent, stream);
        Reassociate(OnStream(h.bus, stream), PendingOn(h.x, g.canId, stream), h.owed, OwedBy(h.x, g, op, stream),
                    OnStream(sent, stream), PendingOn(y, g.canId, stream));
      }
    }
  }

  // ---- Progress ----

  /** Only `process` calls, at the given times. */
  function Turns(x: Sender, g: ExConfig, nows: seq<uint32>): (y: Sender)
    requires x.Valid()
    ensures y.Valid() && |y.slots| == |x.slots|
  {
    if nows == [] then x else
    var z := Turns(x, g, nows[..|nows| - 1]);
    ProcessKeepsValid(z, g, nows[|nows| - 1]);
    OnProcess(z, g, nows[|nows| - 1]).0
  }

  /** The context whose turn it is may send. */
  predicate Ready(x: Sender, g: ExConfig, now: uint32)
    requires x.Valid()
  {
    x.slots[x.cursor].inUse ==> Due(x.slots[x.cursor], g, now)
  }

  /** Whenever a context in use has its turn, its delay has passed. */
  predicate Unhurried(x: Sender, g: ExConfig, nows: seq<uint32>)
    requires x.Valid()
  {
    forall k :: 0 <= k < |nows| ==> Ready(Turns(x, g, nows[..k]), g, nows[k])
  }

  function Remaining(t: Slot): nat
    requires t.Valid()
  {
    if t.inUse then Parts(|t.buffer|) - (t.sequence - 1) else 0
  }

  function Less(n: nat): nat { if n == 0 then 0 else n - 1 }

  function LessIf(served: bool, n: nat): nat { if served then Less(n) else n }

  lemma ServedRemaining(t: Slot, now: uint32)
    requires t.Valid() && t.inUse
    ensures Served(t, now).Valid() && Remaining(Served(t, now)) == Remaining(t) - 1
  {}

  /** A context that sent at `from` and has more to send sends nothing until its delay has passed, however often and
      in whatever order the contexts have their turns. */
  lemma {:induction false} NotTooSoon(x: Sender, g: ExConfig, i: nat, from: uint32, nows: seq<uint32>)
    requires x.Valid() && i < |x.slots| && x.slots[i].last == from
    requires forall now :: now in nows ==> Since(now, from) < g.delay
    ensures Turns(x, g, nows).Valid() && |Turns(x, g, nows).slots| == |x.slots|
    ensures Turns(x, g, nows).slots[i] == x.slots[i]
  {
    hide Since, Served;
    if nows != [] {
      var k := |nows| - 1;
      NotTooSoon(x, g, i, from, nows[..k]);
      ProcessKeepsValid(Turns(x, g, nows[..k]), g, nows[k]);
    }
  }

  /** A fragment with more behind it starts that delay. */
  lemma {:induction false} FragmentStartsDelay(x: Sender, g: ExConfig, now: uint32, nows: seq<uint32>)
    requires x.Valid() && OnProcess(x, g, now).1 != [] && OnProcess(x, g, now).0.slots[x.cursor].inUse
    requires forall later :: later in nows ==> Since(later, now) < g.delay
    ensures OnProcess(x, g, now).0.Valid()
    ensures var y := OnProcess(x, g, now).0;
            |Turns(y, g, nows).slots| == |y.slots| && Turns(y, g, nows).slots[x.cursor] == y.slots[x.cursor]
  {
    hide Since;
    ProcessKeepsValid(x, g, now);
    NotTooSoon(OnProcess(x, g, now).0, g, x.cursor, now, nows);
  }

  /** When context `i` last put a fragment on the bus that had more behind it, over the calls `ops`; before there was
      one, what it started with. */
  function LastPaced(x: Sender, g: ExConfig, ops: seq<Op>, i: nat): uint32
    requires x.Valid() && i < |x.slots|
  {
    if ops == [] then x.slots[i].last else
    var n := |ops| - 1;
    var before, after := Run(x, g, ops[..n], 0), Run(x, g, ops, 0);
    if ops[n].Process? && before.x.cursor == i && |after.bus| > |before.bus| && i < |after.x.slots|
       && after.x.slots[i].inUse
    then ops[n].at else LastPaced(x, g, ops[..n], i)
  }

  lemma SendKeepsTimes(x: Sender, g: ExConfig, m: Message)
    requires x.Valid() && CanSend(x, m.stream, m.bytes)
    ensures var y := OnSend(x, g, m).0;
            |y.slots| == |x.slots| && forall i :: 0 <= i < |x.slots| ==> y.slots[i].last == x.slots[i].last
  {}

  lemma ProcessTimes(x: Sender, g: ExConfig, now: uint32)
    requires x.Valid()
    ensures var (y, sent) := OnProcess(x, g, now);
            && |y.slots| == |x.slots|
            && forall i :: 0 <= i < |x.slots| ==>
                 y.slots[i].last == if i == x.cursor && sent != [] && y.slots[i].inUse then now else x.slots[i].last
  {
    hide Since, FragmentFrame;
  }

  lemma {:induction false} LastIsPaced(x: Sender, g: ExConfig, ops: seq<Op>, i: nat)
    requires x.Valid() && i < |x.slots|
    ensures var y := Run(x, g, ops, 0).x;
            |y.slots| == |x.slots| && y.slots[i].last == LastPaced(x, g, ops, i)
  {
    hide Callable, OnSend, OnProcess, OwedBy, AllFrames, MessageOf;
    if ops != [] {
      var n := |ops| - 1;
      LastIsPaced(x, g, ops[..n], i);
      var y := Run(x, g, ops[..n], 0).x;
      if Callable(y, ops[n]) {
        match ops[n] {
          case Send(bytes, stream, priority) =>
            SendMayRun(y, g, bytes, stream, priority);
            SendKeepsTimes(y, g, MessageOf(g, bytes, stream, priority));
          case Process(now) => ProcessTimes(y, g, now);
        }
      } else {
        AlwaysProcess(y, ops[n]);
      }
    }
  }

  lemma SendMayRun(x: Sender, g: ExConfig, bytes: seq<byte>, stream: byte, priority: byte)
    requires Callable(x, Send(bytes, stream, priority))
    ensures var m := MessageOf(g, bytes, stream, priority); CanSend(x, m.stream, m.bytes)
  {}

  lemma AlwaysProcess(x: Sender, op: Op)
    ensures op.Process? ==> Callable(x, op)
  {}

  /** Over any run: a call of `process` puts a fragment on the bus exactly when the context whose turn it is has a
      message, and its last fragment but a final one was sent at least the delay ago. */
  lemma {:induction false} PacedExactlyWhen(x: Sender, g: ExConfig, ops: seq<Op>, now: uint32)
    requires x.Valid()
    ensures var y := Run(x, g, ops, 0).x;
            && |y.slots| == |x.slots|
            && (OnProcess(y, g, now).1 != [] <==>
                  y.slots[y.cursor].inUse && (now - LastPaced(x, g, ops, y.cursor)) % 0x1_0000_0000 >= g.delay)
  {
    hide Run, LastPaced, Served, FragmentFrame;
    LastIsPaced(x, g, ops, 0);
    LastIsPaced(x, g, ops, Run(x, g, ops, 0).x.cursor);
  }

  /** How many calls until context `i` has its turn. */
  function Distance(x: Sender, i: nat): nat
    requires x.cursor < |x.slots| && i < |x.slots|
  {
    if i >= x.cursor then i - x.cursor else i + |x.slots| - x.cursor
  }

  lemma UnhurriedPrefix(x: Sender, g: ExConfig, nows: seq<uint32>, k: nat)
    requires x.Valid() && Unhurried(x, g, nows) && k <= |nows|
    ensures Unhurried(x, g, nows[..k])
  {
    assert forall j :: 0 <= j < k ==> nows[..k][..j] == nows[..j];
  }

  lemma TurnServes(x: Sender, g: ExConfig, now: uint32)
    requires x.Valid() && Ready(x, g, now)
    ensures var y := OnProcess(x, g, now).0;
            && y.Valid() && y.cursor == Next(x) && |y.slots| == |x.slots|
            && forall i :: 0 <= i < |x.slots| ==>
                 Remaining(y.slots[i]) == LessIf(i == x.cursor, Remaining(x.slots[i]))
  {
    hide Remaining, Served;
    ProcessKeepsValid(x, g, now);
    var t := x.slots[x.cursor];
    IdleRemaining(t);
    if t.inUse {
      ServedRemaining(t, now);
    }
  }

  /** After `k` calls, at most one round, exactly the contexts whose turn has come have one fragment less to send. */
  lemma {:induction false} PartOfRound(x: Sender, g: ExConfig, nows: seq<uint32>)
    requires x.Valid() && Unhurried(x, g, nows) && |nows| <= |x.slots|
    ensures var y := Turns(x, g, nows);
            && y.cursor == (if x.cursor + |nows| < |x.slots| then x.cursor + |nows| else x.cursor + |nows| - |x.slots|)
            && forall i :: 0 <= i < |x.slots| ==>
                 Remaining(y.slots[i]) == LessIf(Distance(x, i) < |nows|, Remaining(x.slots[i]))
  {
    hide Remaining, Served, Ready, OnProcess, Less;
    if nows != [] {
      var k := |nows| - 1;
      UnhurriedPrefix(x, g, nows, k);
      PartOfRound(x, g, nows[..k]);
      var z := Turns(x, g, nows[..k]);
      assert Distance(x, z.cursor) == k;
      assert Ready(z, g, nows[k]);
      TurnServes(z, g, nows[k]);
    }
  }

  lemma IdleRemaining(t: Slot)
    requires t.Valid()
    ensures Remaining(t) > 0 <==> t.inUse
  {}

  /** One call for each context serves every one of them that has something to send. */
  lemma EveryoneServed(x: Sender, g: ExConfig, nows: seq<uint32>)
    requires x.Valid() && |nows| == |x.slots| && Unhurried(x, g, nows)
    ensures Turns(x, g, nows).cursor == x.cursor
    ensures forall i :: 0 <= i < |x.slots| ==> Remaining(Turns(x, g, nows).slots[i]) == Less(Remaining(x.slots[i]))
  {
    PartOfRound(x, g, nows);
  }

  lemma {:induction false} TurnsCompose(x: Sender, g: ExConfig, a: seq<uint32>, b: seq<uint32>)
    requires x.Valid()
    ensures Turns(x, g, a + b) == Turns(Turns(x, g, a), g, b)
  {
    if b == [] {
      assert a + b == a;
    } else {
      TurnsCompose(x, g, a, b[..|b| - 1]);
      assert (a + b)[..|a + b| - 1] == a + b[..|b| - 1];
    }
  }

  lemma UnhurriedSuffix(x: Sender, g: ExConfig, nows: seq<uint32>, k: nat)
    requires x.Valid() && Unhurried(x, g, nows) && k <= |nows|
    ensures Unhurried(Turns(x, g, nows[..k]), g, nows[k..])
  {
    hide Ready, Turns;
    forall j | 0 <= j < |nows| - k
      ensures Ready(Turns(Turns(x, g, nows[..k]), g, nows[k..][..j]), g, nows[k..][j])
    {
      TurnsCompose(x, g, nows[..k], nows[k..][..j]);
      assert nows[..k] + nows[k..][..j] == nows[..k + j];
    }
  }

  function Times(n: nat, rounds: nat): nat { if rounds == 0 then 0 else n + Times(n, rounds - 1) }

  lemma {:induction false} TimesIsProduct(n: nat, rounds: nat)
    ensures Times(n, rounds) == n * rounds
  {
    if rounds > 0 {
      TimesIsProduct(n, rounds - 1);
    }
  }

  predicate AllIdle(x: Sender) { forall i :: 0 <= i < |x.slots| ==> !x.slots[i].inUse }

  predicate AtMost(x: Sender, rounds: nat)
    requires x.Valid()
  {
    forall i :: 0 <= i < |x.slots| ==> Remaining(x.slots[i]) <= rounds
  }

  lemma NothingLeft(x: Sender, g: ExConfig, nows: seq<uint32>)
    requires x.Valid() && AtMost(x, 0) && |nows| == Times(|x.slots|, 0)
    ensures AllIdle(Turns(x, g, nows))
  {
    hide Remaining;
    assert nows == [];
    forall i | 0 <= i < |x.slots| ensures !x.slots[i].inUse { IdleRemaining(x.slots[i]); }
  }

  lemma OneRoundLess(x: Sender, g: ExConfig, nows: seq<uint32>, rounds: nat)
    requires x.Valid() && |nows| == |x.slots| && Unhurried(x, g, nows) && AtMost(x, rounds) && rounds > 0
    ensures AtMost(Turns(x, g, nows), rounds - 1)
  {
    hide Remaining, Unhurried, Turns, Sender.Valid;
    EveryoneServed(x, g, nows);
  }

  lemma AfterOneRound(x: Sender, g: ExConfig, nows: seq<uint32>, rounds: nat) returns (y: Sender, rest: seq<uint32>)
    requires x.Valid() && Unhurried(x, g, nows) && AtMost(x, rounds) && rounds > 0 && |nows| == Times(|x.slots|, rounds)
    ensures y.Valid() && Unhurried(y, g, rest) && AtMost(y, rounds - 1) && |rest| == Times(|y.slots|, rounds - 1)
    ensures Turns(x, g, nows) == Turns(y, g, rest)
  {
    hide Unhurried, Turns, AtMost, Sender.Valid;
    var n := |x.slots|;
    var first := nows[..n];
    rest := nows[n..];
    UnhurriedPrefix(x, g, nows, n);
    OneRoundLess(x, g, first, rounds);
    UnhurriedSuffix(x, g, nows, n);
    y := Turns(x, g, first);
    TurnsCompose(x, g, first, rest);
    assert first + rest == nows;
  }

  lemma {:induction false} DrainedInRounds(x: Sender, g: ExConfig, nows: seq<uint32>, rounds: nat)
    requires x.Valid() && Unhurried(x, g, nows) && |nows| == Times(|x.slots|, rounds) && AtMost(x, rounds)
    ensures AllIdle(Turns(x, g, nows))
    decreases rounds
  {
    hide *;
    if rounds == 0 {
      NothingLeft(x, g, nows);
    } else {
      var y, rest := AfterOneRound(x, g, nows, rounds);
      DrainedInRounds(y, g, rest, rounds - 1);
    }
  }

  /** Everything has been sent after as many rounds as the longest context has fragments left: when no
      message is longer than `longest`, within contexts times a fifth of that, rounded up, calls. */
  lemma {:induction false} Drained(x: Sender, g: ExConfig, nows: seq<uint32>, longest: nat)
    requires x.Valid() && Unhurried(x, g, nows)
    requires forall i :: 0 <= i < |x.slots| ==> x.slots[i].inUse ==> |x.slots[i].buffer| <= longest
    requires |nows| == |x.slots| * Parts(longest)
    ensures AllIdle(Turns(x, g, nows))
  {
    TimesIsProduct(|x.slots|, Parts(longest));
    forall i | 0 <= i < |x.slots| ensures Remaining(x.slots[i]) <= Parts(longest) {
      RemainingBound(x.slots[i]);
    }
    DrainedInRounds(x, g, nows, Parts(longest));
  }

  lemma RemainingBound(t: Slot)
    requires t.Valid()
    ensures t.inUse ==> Remaining(t) <= Parts(|t.buffer|)
    ensures !t.inUse ==> Remaining(t) == 0
  {}
}
