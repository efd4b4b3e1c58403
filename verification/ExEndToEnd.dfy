/** An extended sender and an extended receiver together: any run of the one, its frames carried to the
    other, ends with every accepted message reported complete. */
module ExEndToEnd {
  import opened Can
  import opened LongMessageWire
  import opened Crc16
  import S = ExSender
  import R = ExReceiver
  import D = ExDemux

  /** A sender, the messages it has accepted, which of them each frame on the bus belongs to, and which of
      them each context sends. */
  datatype World = World(x: S.Sender, accepted: seq<Message>, labels: seq<nat>, owner: seq<nat>)

  function Next(w: World, g: S.ExConfig, op: S.Op): (w': World)
    requires w.x.Valid() && |w.owner| == |w.x.slots|
    ensures w'.x.Valid() && |w'.owner| == |w'.x.slots|
  {
    if !S.Callable(w.x, op) then w else
    var x := S.Perform(w.x, g, op).0;
    match op
    case Send(bytes, stream, priority) =>
      if !S.Accepts(w.x, stream) then w else
      World(x, w.accepted + [S.MessageOf(g, bytes, stream, priority)], w.labels + [|w.accepted|],
            w.owner[S.FindFree(w.x.slots, 0) := |w.accepted|])
    case Process(now) =>
      w.(x := x, labels := if S.Due(w.x.slots[w.x.cursor], g, now) then w.labels + [w.owner[w.x.cursor]] else w.labels)
  }

  function Go(x: S.Sender, g: S.ExConfig, ops: seq<S.Op>): (w: World)
    requires x.Valid()
    ensures w.x.Valid() && |w.owner| == |w.x.slots|
  {
    if ops == [] then World(x, [], [], seq(|x.slots|, i => 0)) else Next(Go(x, g, ops[..|ops| - 1]), g, ops[|ops| - 1])
  }

  /** The traffic that the labels describe, with the arrival times of `evs`. */
  function TrafficOf(labels: seq<nat>, evs: seq<R.Event>): (ts: seq<D.Traffic>)
    ensures |ts| == Min(|labels|, |evs|)
  {
    var n := Min(|labels|, |evs|);
    seq(n, k requires 0 <= k < n => D.Own(labels[k], evs[k].at))
  }

  /** A context sends this message and has sent its first `p` frames. */
  predicate Carries(t: S.Slot, m: Message, p: nat) {
    t.stream == m.stream && t.priority == m.priority && t.buffer == m.bytes && t.sequence == p
  }

  predicate InFlight(w: World, j: nat)
    requires |w.owner| == |w.x.slots|
  {
    exists i :: 0 <= i < |w.owner| && w.x.slots[i].inUse && w.owner[i] == j
  }

  predicate SlotsLinked(w: World, ms: seq<Message>, pos: seq<nat>)
    requires |w.owner| == |w.x.slots| && |pos| == |ms| && w.accepted <= ms
  {
    && (forall i :: 0 <= i < |w.owner| && w.x.slots[i].inUse ==>
          w.owner[i] < |w.accepted| && Carries(w.x.slots[i], ms[w.owner[i]], pos[w.owner[i]]))
    && (forall i, k :: 0 <= i < k < |w.owner| && w.x.slots[i].inUse && w.x.slots[k].inUse ==> w.owner[i] != w.owner[k])
  }

  /** Every accepted message is in some context or has been sent in full; of no other has anything been sent. */
  predicate MessagesLinked(w: World, ms: seq<Message>, pos: seq<nat>)
    requires |w.owner| == |w.x.slots| && |pos| == |ms| && w.accepted <= ms
  {
    && (forall j :: 0 <= j < |w.accepted| ==> pos[j] == |Frames(ms[j])| || InFlight(w, j))
    && (forall j :: |w.accepted| <= j < |ms| ==> pos[j] == 0)
  }

  predicate Linked(w: World, ms: seq<Message>, pos: seq<nat>) {
    && w.x.Valid() && |w.owner| == |w.x.slots| && |pos| == |ms| && w.accepted <= ms
    && SlotsLinked(w, ms, pos) && MessagesLinked(w, ms, pos)
  }

  /** Messages of one to 1275 bytes from this node. */
  predicate Fit(ms: seq<Message>, g: S.ExConfig) {
    forall j :: 0 <= j < |ms| ==> 1 <= |ms[j].bytes| <= 1275 && ms[j].canId == g.canId
  }

  lemma CarriedIsOpen(t: S.Slot, m: Message, p: nat)
    requires t.Valid() && t.inUse && Carries(t, m, p) && |m.bytes| >= 1
    ensures 1 <= p < |Frames(m)|
    ensures t.index + 5 >= |t.buffer| <==> p + 1 == |Frames(m)|
  {}

  // ---- One frame of a message that is being sent ----

  lemma ServedFrame(t: S.Slot, m: Message, p: nat, g: S.ExConfig)
    requires t.Valid() && t.inUse && Carries(t, m, p) && 1 <= |m.bytes| && m.canId == g.canId
    ensures p < |Frames(m)| && Frames(m)[p] == FragmentFrame(S.Outgoing(t, g.canId), t.sequence - 1)
  {
    CarriedIsOpen(t, m, p);
    FrameData(m);
    hide Frames;
    assert Frames(m)[1 + (p - 1)] == FragmentFrame(m, p - 1);
  }

  lemma ServedCarries(t: S.Slot, m: Message, p: nat, now: uint32)
    requires t.Valid() && t.inUse && Carries(t, m, p) && |m.bytes| >= 1
    ensures var t' := S.Served(t, now);
            if t'.inUse then Carries(t', m, p + 1) else p + 1 == |Frames(m)|
  {
    hide Frames;
    CarriedIsOpen(t, m, p);
  }

  lemma SlotsServed(w: World, g: S.ExConfig, now: uint32, ms: seq<Message>, pos: seq<nat>)
    requires Linked(w, ms, pos) && Fit(ms, g) && S.Due(w.x.slots[w.x.cursor], g, now)
    ensures var (w', j) := (Next(w, g, S.Process(now)), w.owner[w.x.cursor]);
            j < |ms| && w'.accepted == w.accepted && SlotsLinked(w', ms, pos[j := pos[j] + 1])
  {
    hide Frames, S.Served, Carries, S.Sender.Valid;
    CursorValid(w);
    var c := w.x.cursor;
    ServedCarries(w.x.slots[c], ms[w.owner[c]], pos[w.owner[c]], now);
  }

  lemma CursorValid(w: World)
    requires w.x.Valid()
    ensures w.x.cursor < |w.x.slots| && w.x.slots[w.x.cursor].Valid()
  {}

  lemma MessagesServed(w: World, g: S.ExConfig, now: uint32, ms: seq<Message>, pos: seq<nat>)
    requires Linked(w, ms, pos) && Fit(ms, g) && S.Due(w.x.slots[w.x.cursor], g, now)
    ensures var (w', j) := (Next(w, g, S.Process(now)), w.owner[w.x.cursor]);
            j < |ms| && w'.accepted == w.accepted && MessagesLinked(w', ms, pos[j := pos[j] + 1])
  {
    hide Frames, S.Served, Carries, S.Sender.Valid;
    CursorValid(w);
    var c := w.x.cursor;
    var w', j := Next(w, g, S.Process(now)), w.owner[c];
    ServedCarries(w.x.slots[c], ms[j], pos[j], now);
    forall k | 0 <= k < |w.accepted|
      ensures pos[j := pos[j] + 1][k] == |Frames(ms[k])| || InFlight(w', k)
    {
      if k == j {
        if w'.x.slots[c].inUse { assert w'.owner[c] == k; }
      } else if pos[k] != |Frames(ms[k])| {
        var i :| 0 <= i < |w.owner| && w.x.slots[i].inUse && w.owner[i] == k;
        assert w'.x.slots[i].inUse && w'.owner[i] == k;
      }
    }
  }

  /** The context whose turn it is puts the next frame of its message on the bus. */
  lemma {:induction false} ProcessLinked(w: World, g: S.ExConfig, now: uint32, ms: seq<Message>, pos: seq<nat>)
    requires Linked(w, ms, pos) && Fit(ms, g) && S.Due(w.x.slots[w.x.cursor], g, now)
    ensures var (w', j) := (Next(w, g, S.Process(now)), w.owner[w.x.cursor]);
            && j < |ms| && 0 < pos[j] < |Frames(ms[j])| && Linked(w', ms, pos[j := pos[j] + 1])
            && S.OnProcess(w.x, g, now).1 == [Frames(ms[j])[pos[j]]]
  {
    SlotsServed(w, g, now, ms, pos);
    MessagesServed(w, g, now, ms, pos);
    hide Frames, S.Served, S.Sender.Valid, MessagesLinked, FragmentFrame;
    CursorValid(w);
    var c := w.x.cursor;
    CarriedIsOpen(w.x.slots[c], ms[w.owner[c]], pos[w.owner[c]]);
    ServedFrame(w.x.slots[c], ms[w.owner[c]], pos[w.owner[c]], g);
  }

  // ---- A new message ----

  /** Message `m` is accepted into context `i`, which is free. */
  predicate Taken(w: World, w': World, m: Message, i: nat)
    requires |w.owner| == |w.x.slots|
  {
    && i < |w.x.slots| && !w.x.slots[i].inUse && w'.accepted == w.accepted + [m]
    && w'.owner == w.owner[i := |w.accepted|]
    && w'.x.slots == w.x.slots[i := S.Slot(true, m.stream, m.priority, m.bytes, 0, 1, w.x.slots[i].last)]
  }

  lemma NextTaken(w: World, g: S.ExConfig, op: S.Op) returns (i: nat)
    requires w.x.Valid() && |w.owner| == |w.x.slots| && op.Send? && S.Callable(w.x, op) && S.Accepts(w.x, op.stream)
    ensures var m := S.MessageOf(g, op.bytes, op.stream, op.priority);
            Taken(w, Next(w, g, op), m, i) && S.OnSend(w.x, g, m).1 == [HeaderFrame(m)]
  {
    hide HeaderFrame, S.Checked, Crc, S.Sender.Valid;
    i := S.FindFree(w.x.slots, 0);
  }

  lemma TakenSlots(w: World, w': World, m: Message, i: nat, ms: seq<Message>, pos: seq<nat>)
    requires Linked(w, ms, pos) && Taken(w, w', m, i) && w'.accepted <= ms && pos[|w.accepted|] == 0
    ensures SlotsLinked(w', ms, pos[|w.accepted| := 1])
  {
    hide Carries, S.Sender.Valid, MessagesLinked;
    assert w'.accepted[|w.accepted|] == ms[|w.accepted|];
    NewCarries(m, w.x.slots[i].last);
  }

  lemma TakenMessages(w: World, w': World, m: Message, i: nat, ms: seq<Message>, pos: seq<nat>)
    requires Linked(w, ms, pos) && Taken(w, w', m, i) && w'.accepted <= ms
    ensures pos[|w.accepted|] == 0 && MessagesLinked(w', ms, pos[|w.accepted| := 1])
  {
    hide Frames, SlotsLinked, S.Sender.Valid;
    var j := |w.accepted|;
    forall k | 0 <= k < |w'.accepted|
      ensures pos[j := 1][k] == |Frames(ms[k])| || InFlight(w', k)
    {
      if k == j {
        assert w'.x.slots[i].inUse && w'.owner[i] == k;
      } else if pos[k] != |Frames(ms[k])| {
        var n :| 0 <= n < |w.owner| && w.x.slots[n].inUse && w.owner[n] == k;
        assert w'.x.slots[n].inUse && w'.owner[n] == k;
      }
    }
  }

  lemma SendLinked(w: World, g: S.ExConfig, op: S.Op, ms: seq<Message>, pos: seq<nat>)
    requires Linked(w, ms, pos) && Fit(ms, g) && op.Send? && S.Callable(w.x, op) && S.Accepts(w.x, op.stream)
    requires Next(w, g, op).accepted <= ms
    ensures var j := |w.accepted|;
            && j < |ms| && pos[j] == 0 && Linked(Next(w, g, op), ms, pos[j := 1])
            && ms[j] == S.MessageOf(g, op.bytes, op.stream, op.priority)
            && S.OnSend(w.x, g, ms[j]).1 == [Frames(ms[j])[0]]
  {
    hide Next, Frames, HeaderFrame, S.Sender.Valid, SlotsLinked, MessagesLinked, S.Callable, S.Accepts, S.MessageOf;
    var i := NextTaken(w, g, op);
    var w', m := Next(w, g, op), S.MessageOf(g, op.bytes, op.stream, op.priority);
    assert w'.accepted[|w.accepted|] == m;
    TakenMessages(w, w', m, i, ms, pos);
    TakenSlots(w, w', m, i, ms, pos);
    FrameData(m);
  }

  lemma NewCarries(m: Message, last: uint32)
    ensures Carries(S.Slot(true, m.stream, m.priority, m.bytes, 0, 1, last), m, 1)
  {}

  // ---- What the sender puts on the bus is legal traffic for the receiver ----

  /** The messages that the contexts before `n` are sending. */
  function Owned(w: World, n: nat): (o: set<nat>)
    requires |w.owner| == |w.x.slots| && n <= |w.owner|
    ensures |o| <= n
    ensures forall i :: 0 <= i < n && w.x.slots[i].inUse ==> w.owner[i] in o
    ensures (exists i :: 0 <= i < n && !w.x.slots[i].inUse) ==> |o| < n
  {
    if n == 0 then {} else
    Owned(w, n - 1) + if w.x.slots[n - 1].inUse then {w.owner[n - 1]} else {}
  }

  /** A message that has been started and not finished is in some context. */
  lemma OpenIsInFlight(w: World, ms: seq<Message>, pos: seq<nat>, j: nat)
    requires Linked(w, ms, pos) && j < |ms| && D.Open(ms[j], pos[j])
    ensures InFlight(w, j)
  {
    hide Frames, SlotsLinked, S.Sender.Valid;
  }

  lemma FewLive(w: World, ms: seq<Message>, pos: seq<nat>, size: nat)
    requires Linked(w, ms, pos) && S.HasFree(w.x)
    ensures |D.LiveSet(ms, pos, size)| < |w.x.slots|
  {
    hide Frames, D.Live, SlotsLinked, MessagesLinked, D.Open, S.Sender.Valid;
    var o := Owned(w, |w.owner|);
    assert !w.x.slots[S.FindFree(w.x.slots, 0)].inUse;
    forall j | j in D.LiveSet(ms, pos, size)
      ensures j in o
    {
      D.LiveIsOpen(ms[j], pos[j], size);
      OpenIsInFlight(w, ms, pos, j);
    }
    D.SubsetSize(D.LiveSet(ms, pos, size), o);
  }

  /** No message that is still being sent has the stream of one that is accepted. */
  lemma OthersDiffer(w: World, g: S.ExConfig, ms: seq<Message>, pos: seq<nat>, m: Message, j: nat)
    requires Linked(w, ms, pos) && S.Accepts(w.x, m.stream) && j < |ms| && D.Open(ms[j], pos[j])
    ensures D.Key(ms[j]) != D.Key(m)
  {
    OpenIsInFlight(w, ms, pos, j);
    hide Frames, MessagesLinked, S.Sender.Valid, D.Open;
    var i :| 0 <= i < |w.owner| && w.x.slots[i].inUse && w.owner[i] == j;
    assert Carries(w.x.slots[i], ms[j], pos[j]);
    assert !S.Sends(w.x.slots[i], m.stream);
  }

  lemma {:induction false} SendMayCarry(w: World, g: S.ExConfig, op: S.Op, ms: seq<Message>, pos: seq<nat>,
        s: R.ExSetup, size: nat, slots: nat, at: uint32)
    requires Linked(w, ms, pos) && Fit(ms, g) && op.Send? && S.Callable(w.x, op) && S.Accepts(w.x, op.stream)
    requires Next(w, g, op).accepted <= ms && slots >= |w.x.slots|
    ensures |pos| == |ms| && D.MayCarry(ms, s, size, slots, pos, D.Own(|w.accepted|, at))
  {
    SendLinked(w, g, op, ms, pos);
    hide Frames, Linked, Next, D.Open, D.Key, S.Accepts, D.LiveSet;
    FewLive(w, ms, pos, size);
    forall j | 0 <= j < |ms| && D.Open(ms[j], pos[j])
      ensures D.Key(ms[j]) != D.Key(ms[|w.accepted|])
    {
      OthersDiffer(w, g, ms, pos, ms[|w.accepted|], j);
    }
  }

  /** The traffic is legal, and reads as these events. */
  ghost predicate Explains(ms: seq<Message>, s: R.ExSetup, size: nat, slots: nat, ts: seq<D.Traffic>,
        evs: seq<R.Event>) {
    D.Legal(ms, s, size, slots, ts) && D.EventsOf(ms, s, size, slots, ts) == evs
  }

  lemma ExplainsOneMore(ms: seq<Message>, s: R.ExSetup, size: nat, slots: nat, ts: seq<D.Traffic>, evs: seq<R.Event>,
        t: D.Traffic)
    requires Explains(ms, s, size, slots, ts, evs) && D.MayCarry(ms, s, size, slots, D.Sent(ms, ts), t) && !t.Poll?
    ensures t.Own? ==> t.msg < |ms| && D.Sent(ms, ts)[t.msg] < |Frames(ms[t.msg])|
    ensures Explains(ms, s, size, slots, ts + [t], evs + [D.EventOf(ms, D.Sent(ms, ts), t)])
    ensures D.Sent(ms, ts + [t]) == D.Moved(ms, D.Sent(ms, ts), t)
  {
    hide D.MayCarry, D.Moved, D.EventOf, Frames, D.Legal, D.EventsOf, D.Sent, D.LastSeen;
    D.LegalOneMore(ms, s, size, slots, ts, t);
  }

  predicate Arrivals(evs: seq<R.Event>, bus: seq<Frame>) {
    |evs| == |bus| && forall k :: 0 <= k < |bus| ==> evs[k].Arrive? && evs[k].frame == bus[k]
  }

  /** One sender, one receiver and the frames between them; `ms` is everything that will be accepted. */
  datatype Setting = Setting(g: S.ExConfig, ms: seq<Message>, s: R.ExSetup, size: nat, slots: nat)

  /** The world `w` has put `bus` on the bus, and the receiver has seen `evs`. */
  ghost predicate Joint(w: World, z: Setting, bus: seq<Frame>, evs: seq<R.Event>) {
    && Arrivals(evs, bus) && |w.labels| == |bus|
    && Explains(z.ms, z.s, z.size, z.slots, TrafficOf(w.labels, evs), evs)
    && Linked(w, z.ms, D.Sent(z.ms, TrafficOf(w.labels, evs)))
  }

  lemma LabelOneMore(labels: seq<nat>, evs: seq<R.Event>, j: nat, e: R.Event)
    requires |labels| == |evs|
    ensures TrafficOf(labels + [j], evs + [e]) == TrafficOf(labels, evs) + [D.Own(j, e.at)]
  {}

  /** One more frame, the next one of message `j`. */
  lemma JointOneMore(w: World, w': World, z: Setting, bus: seq<Frame>, evs: seq<R.Event>, j: nat, e: R.Event)
    requires Joint(w, z, bus, evs) && w'.labels == w.labels + [j] && j < |z.ms|
    requires var pos := D.Sent(z.ms, TrafficOf(w.labels, evs));
             && D.MayCarry(z.ms, z.s, z.size, z.slots, pos, D.Own(j, e.at))
             && pos[j] < |Frames(z.ms[j])| && e == R.Arrive(Frames(z.ms[j])[pos[j]], e.at)
             && Linked(w', z.ms, pos[j := pos[j] + 1])
    ensures Joint(w', z, bus + [e.frame], evs + [e])
  {
    hide Linked, Explains, D.MayCarry, Frames, D.Sent;
    var ts := TrafficOf(w.labels, evs);
    ExplainsOneMore(z.ms, z.s, z.size, z.slots, ts, evs, D.Own(j, e.at));
    LabelOneMore(w.labels, evs, j, e);
  }

  /** The frames that an operation puts on the bus. */
  function Emitted(x: S.Sender, g: S.ExConfig, op: S.Op): seq<Frame>
    requires x.Valid()
  {
    if S.Callable(x, op) then S.Perform(x, g, op).1 else []
  }

  lemma ProcessJoint(w: World, z: Setting, bus: seq<Frame>, evs: seq<R.Event>, now: uint32, more: seq<R.Event>)
    requires Joint(w, z, bus, evs) && Fit(z.ms, z.g) && Arrivals(more, Emitted(w.x, z.g, S.Process(now)))
    ensures Joint(Next(w, z.g, S.Process(now)), z, bus + Emitted(w.x, z.g, S.Process(now)), evs + more)
  {
    hide Linked, Explains, D.MayCarry, Frames, D.Sent, S.Sender.Valid, FragmentFrame, S.Served;
    JointLinked(w, z, bus, evs);
    if S.Due(w.x.slots[w.x.cursor], z.g, now) {
      var pos, j := D.Sent(z.ms, TrafficOf(w.labels, evs)), w.owner[w.x.cursor];
      ProcessLinked(w, z.g, now, z.ms, pos);
      StartedMayGoOn(z.ms, z.s, z.size, z.slots, pos, j, more[0].at);
      JointOneMore(w, Next(w, z.g, S.Process(now)), z, bus, evs, j, more[0]);
      assert more == [more[0]] && Emitted(w.x, z.g, S.Process(now)) == [more[0].frame];
    } else {
      IdleTurn(w, z.g, now, z.ms, D.Sent(z.ms, TrafficOf(w.labels, evs)));
      assert more == [] && evs + more == evs && bus + [] == bus;
    }
  }

  lemma JointLinked(w: World, z: Setting, bus: seq<Frame>, evs: seq<R.Event>)
    requires Joint(w, z, bus, evs)
    ensures w.x.Valid() && |w.owner| == |w.x.slots| && w.x.cursor < |w.x.slots|
  {}

  lemma IdleTurn(w: World, g: S.ExConfig, now: uint32, ms: seq<Message>, pos: seq<nat>)
    requires Linked(w, ms, pos) && !S.Due(w.x.slots[w.x.cursor], g, now)
    ensures Linked(Next(w, g, S.Process(now)), ms, pos)
  {
    hide Frames, Carries;
    assert Next(w, g, S.Process(now)).x.slots == w.x.slots;
    forall j | InFlight(w, j) ensures InFlight(Next(w, g, S.Process(now)), j) {}
  }

  lemma StartedMayGoOn(ms: seq<Message>, s: R.ExSetup, size: nat, slots: nat, pos: seq<nat>, j: nat, at: uint32)
    requires |pos| == |ms| && j < |ms| && 0 < pos[j] < |Frames(ms[j])|
    ensures D.MayCarry(ms, s, size, slots, pos, D.Own(j, at))
  {
    hide Frames;
  }

  lemma SendJoint(w: World, z: Setting, bus: seq<Frame>, evs: seq<R.Event>, op: S.Op, more: seq<R.Event>)
    requires Joint(w, z, bus, evs) && Fit(z.ms, z.g) && op.Send? && Arrivals(more, Emitted(w.x, z.g, op))
    requires Next(w, z.g, op).accepted <= z.ms && z.slots >= |w.x.slots|
    ensures Joint(Next(w, z.g, op), z, bus + Emitted(w.x, z.g, op), evs + more)
  {
    hide Linked, Explains, D.MayCarry, Frames, D.Sent, S.Sender.Valid, HeaderFrame, Crc;
    JointLinked(w, z, bus, evs);
    if S.Callable(w.x, op) && S.Accepts(w.x, op.stream) {
      var pos := D.Sent(z.ms, TrafficOf(w.labels, evs));
      SendLinked(w, z.g, op, z.ms, pos);
      SendMayCarry(w, z.g, op, z.ms, pos, z.s, z.size, z.slots, more[0].at);
      JointOneMore(w, Next(w, z.g, op), z, bus, evs, |w.accepted|, more[0]);
      assert more == [more[0]] && Emitted(w.x, z.g, op) == [more[0].frame];
    } else {
      assert more == [] && evs + more == evs && bus + [] == bus;
    }
  }

  // ---- Whole runs ----

  /** The bus of a run, and the labelled world it leads to. */
  lemma {:induction false} GoFollowsRun(x: S.Sender, g: S.ExConfig, ops: seq<S.Op>)
    requires x.Valid()
    ensures S.Run(x, g, ops, 0).x == Go(x, g, ops).x
    ensures ops != [] ==>
              var n := |ops| - 1;
              S.Run(x, g, ops, 0).bus == S.Run(x, g, ops[..n], 0).bus + Emitted(Go(x, g, ops[..n]).x, g, ops[n])
  {
    hide S.Perform, S.OwedBy;
    if ops != [] {
      GoFollowsRun(x, g, ops[..|ops| - 1]);
      SameNext(Go(x, g, ops[..|ops| - 1]), g, ops[|ops| - 1]);
    }
  }

  lemma SameNext(w: World, g: S.ExConfig, op: S.Op)
    requires w.x.Valid() && |w.owner| == |w.x.slots|
    ensures Next(w, g, op).x == if S.Callable(w.x, op) then S.Perform(w.x, g, op).0 else w.x
    ensures w.accepted <= Next(w, g, op).accepted && |Next(w, g, op).x.slots| == |w.x.slots|
  {
    hide S.FindStream, S.Served, HeaderFrame, FragmentFrame, S.FindFree;
  }

  lemma {:induction false} SameSlots(x: S.Sender, g: S.ExConfig, ops: seq<S.Op>)
    requires x.Valid()
    ensures |Go(x, g, ops).x.slots| == |x.slots|
  {
    if ops != [] {
      hide Next;
      SameSlots(x, g, ops[..|ops| - 1]);
      SameNext(Go(x, g, ops[..|ops| - 1]), g, ops[|ops| - 1]);
    }
  }

  lemma NothingYet(x: S.Sender, z: Setting)
    requires x.Valid() && S.AllIdle(x)
    ensures Joint(Go(x, z.g, []), z, [], [])
  {
    hide Frames;
    assert D.Sent(z.ms, TrafficOf([], [])) == D.NoneSent(|z.ms|);
  }

  lemma ArrivalsSplit(evs: seq<R.Event>, a: seq<Frame>, b: seq<Frame>)
    requires Arrivals(evs, a + b)
    ensures Arrivals(evs[..|a|], a) && Arrivals(evs[|a|..], b) && evs[..|a|] + evs[|a|..] == evs
  {
    assert forall k :: 0 <= k < |b| ==> evs[|a|..][k].frame == (a + b)[|a| + k];
  }

  lemma StepJoint(w: World, z: Setting, bus: seq<Frame>, evs: seq<R.Event>, op: S.Op, more: seq<R.Event>)
    requires Joint(w, z, bus, evs) && Fit(z.ms, z.g)
    requires Next(w, z.g, op).accepted <= z.ms && z.slots >= |w.x.slots|
    requires Arrivals(more, Emitted(w.x, z.g, op))
    ensures Joint(Next(w, z.g, op), z, bus + Emitted(w.x, z.g, op), evs + more)
  {
    hide Joint, Next, Emitted, Arrivals;
    match op
    case Send(_, _, _) => SendJoint(w, z, bus, evs, op, more);
    case Process(now) => ProcessJoint(w, z, bus, evs, now, more);
  }

  lemma {:induction false} RunJoint(x: S.Sender, z: Setting, ops: seq<S.Op>, evs: seq<R.Event>)
    requires x.Valid() && S.AllIdle(x) && Fit(z.ms, z.g) && z.slots >= |x.slots|
    requires Go(x, z.g, ops).accepted <= z.ms && Arrivals(evs, S.Run(x, z.g, ops, 0).bus)
    ensures Joint(Go(x, z.g, ops), z, S.Run(x, z.g, ops, 0).bus, evs)
  {
    hide Joint, Next, Emitted, Arrivals, S.Sender.Valid, Fit;
    if ops == [] {
      NothingYet(x, z);
      NoArrivals(evs);
    } else {
      var prior, op := ops[..|ops| - 1], ops[|ops| - 1];
      var w, bus := Go(x, z.g, prior), S.Run(x, z.g, prior, 0).bus;
      GoFollowsRun(x, z.g, ops);
      SameNext(w, z.g, op);
      SameSlots(x, z.g, prior);
      hide Go, S.Run;
      ArrivalsSplit(evs, bus, Emitted(w.x, z.g, op));
      RunJoint(x, z, prior, evs[..|bus|]);
      StepJoint(w, z, bus, evs[..|bus|], op, evs[|bus|..]);
    }
  }

  lemma NoArrivals(evs: seq<R.Event>)
    requires Arrivals(evs, [])
    ensures evs == []
  {}

  // ---- What the handler at the other end sees ----

  /** Both ends agree on checking, or the sender does not ask for it. */
  predicate Matching(g: S.ExConfig, s: R.ExSetup) { g.useCrc ==> s.useCrc }

  predicate OpFits(op: S.Op, s: R.ExSetup, size: nat) {
    op.Send? ==> 1 <= |op.bytes| <= Min(size, 1275) && 0 !in op.bytes && op.stream in s.subscribed
  }

  /** A message as `MessageOf` makes it of bytes that fit. */
  predicate WellMade(m: Message, g: S.ExConfig, s: R.ExSetup, size: nat) {
    && 1 <= |m.bytes| <= Min(size, 1275) && m.canId == g.canId && m.stream in s.subscribed
    && m.crc == if g.useCrc then Crc(m.bytes) else 0
  }

  predicate AllWellMade(ms: seq<Message>, g: S.ExConfig, s: R.ExSetup, size: nat) {
    forall j :: 0 <= j < |ms| ==> WellMade(ms[j], g, s, size)
  }

  lemma CheckedWhole(bytes: seq<byte>)
    requires |bytes| < 0x1_0000
    ensures S.Checked(bytes) == bytes
  {}

  lemma NextWellMade(w: World, g: S.ExConfig, op: S.Op, s: R.ExSetup, size: nat)
    requires w.x.Valid() && |w.owner| == |w.x.slots| && AllWellMade(w.accepted, g, s, size) && OpFits(op, s, size)
    ensures AllWellMade(Next(w, g, op).accepted, g, s, size)
  {
    hide S.FindStream, S.Served, HeaderFrame, FragmentFrame, S.FindFree, Crc, S.Checked;
    if op.Send? { CheckedWhole(op.bytes); }
  }

  lemma {:induction false} AcceptedWellMade(x: S.Sender, g: S.ExConfig, ops: seq<S.Op>, s: R.ExSetup, size: nat)
    requires x.Valid() && forall op :: op in ops ==> OpFits(op, s, size)
    ensures AllWellMade(Go(x, g, ops).accepted, g, s, size)
  {
    hide Next, OpFits, WellMade;
    if ops != [] {
      AcceptedWellMade(x, g, ops[..|ops| - 1], s, size);
      NextWellMade(Go(x, g, ops[..|ops| - 1]), g, ops[|ops| - 1], s, size);
    }
  }

  function Completed(m: Message): Call { Call(m.bytes, m.stream, Complete) }

  /** One complete call for each message. */
  function CompletedAll(ms: seq<Message>): multiset<Call> {
    if ms == [] then multiset{} else CompletedAll(ms[..|ms| - 1]) + multiset{Completed(ms[|ms| - 1])}
  }

  lemma WellMadeCompletes(m: Message, g: S.ExConfig, s: R.ExSetup, size: nat)
    requires WellMade(m, g, s, size) && Matching(g, s)
    ensures D.Outcome(m, s, size) == Completed(m)
  {
    hide Crc;
    D.AcceptedExactlyWhen(m, s, size);
  }

  lemma DecidedAtCompletes(ms: seq<Message>, g: S.ExConfig, s: R.ExSetup, size: nat, pos: seq<nat>, k: nat)
    requires |pos| == |ms| && k < |ms| && AllWellMade(ms, g, s, size) && Matching(g, s)
    ensures D.DecidedAt(ms, s, size, pos, k) <= multiset{Completed(ms[k])}
    ensures pos[k] == |Frames(ms[k])| ==> D.DecidedAt(ms, s, size, pos, k) == multiset{Completed(ms[k])}
  {
    hide D.Outcome, D.Life, Frames, WellMade, Completed;
    WellMadeCompletes(ms[k], g, s, size);
    D.LiveIsOpen(ms[k], pos[k], size);
  }

  lemma SumsBelow(a: multiset<Call>, b: multiset<Call>, c: multiset<Call>, d: multiset<Call>)
    requires a <= b && c <= d
    ensures a + c <= b + d
  {}

  /** What has been decided is completed calls only. */
  lemma {:induction false} DecidedBelow(ms: seq<Message>, g: S.ExConfig, s: R.ExSetup, size: nat, pos: seq<nat>, k: nat)
    requires |pos| == |ms| && k <= |ms| && AllWellMade(ms, g, s, size) && Matching(g, s)
    ensures D.Decided(ms, s, size, pos, k) <= CompletedAll(ms[..k])
  {
    hide D.DecidedAt, AllWellMade, Matching, Completed;
    if k > 0 {
      DecidedBelow(ms, g, s, size, pos, k - 1);
      DecidedAtCompletes(ms, g, s, size, pos, k - 1);
      assert ms[..k][..k - 1] == ms[..k - 1];
      SumsBelow(D.Decided(ms, s, size, pos, k - 1), CompletedAll(ms[..k - 1]),
                D.DecidedAt(ms, s, size, pos, k - 1), multiset{Completed(ms[k - 1])});
    }
  }

  /** Once everything has been sent it is all of them. */
  lemma {:induction false} DecidedAll(ms: seq<Message>, g: S.ExConfig, s: R.ExSetup, size: nat, pos: seq<nat>, k: nat)
    requires |pos| == |ms| && k <= |ms| && AllWellMade(ms, g, s, size) && Matching(g, s)
    requires forall j :: 0 <= j < k ==> pos[j] == |Frames(ms[j])|
    ensures D.Decided(ms, s, size, pos, k) == CompletedAll(ms[..k])
  {
    hide D.DecidedAt, Frames, AllWellMade, Matching, Completed;
    if k > 0 {
      DecidedAll(ms, g, s, size, pos, k - 1);
      DecidedAtCompletes(ms, g, s, size, pos, k - 1);
      assert ms[..k][..k - 1] == ms[..k - 1];
    }
  }

  lemma DrainedIsSent(w: World, ms: seq<Message>, pos: seq<nat>)
    requires Linked(w, ms, pos) && S.AllIdle(w.x) && w.accepted == ms
    ensures forall j :: 0 <= j < |ms| ==> pos[j] == |Frames(ms[j])|
  {
    hide Frames;
  }

  /** What the receiving node sees: the labelled frames, and its own calls of `process` between them. */
  function Seen(w: World, evs: seq<R.Event>): seq<D.Traffic> {
    D.Woven(TrafficOf(w.labels, R.Unticked(evs)), evs)
  }

  /** However an extended sender is used with messages that fit, whenever its frames arrive and whenever the
      receiving node calls `process`, as long as that finds no unfinished message overdue: the handler of an
      extended receiver with at least as many contexts and a matching setting is called only with complete
      messages, each of them accepted by the sender and with exactly its bytes, and none twice; once the
      sender has nothing left to send it has been called for every accepted message. */
  lemma {:induction false} Delivered(x: S.Sender, g: S.ExConfig, ops: seq<S.Op>, cs: seq<R.Context>, s: R.ExSetup,
        size: nat, evs: seq<R.Event>)
    requires x.Valid() && S.AllIdle(x) && R.AllValid(cs, size) && D.AllFree(cs) && |cs| >= |x.slots|
    requires (forall op :: op in ops ==> OpFits(op, s, size)) && Matching(g, s)
    requires Arrivals(R.Unticked(evs), S.Run(x, g, ops, 0).bus)
    requires D.InTime(Go(x, g, ops).accepted, s, size, Seen(Go(x, g, ops), evs))
    ensures var calls := multiset(R.Run(cs, s, evs, size).1);
            var expected := CompletedAll(Go(x, g, ops).accepted);
            calls <= expected && (S.AllIdle(S.Run(x, g, ops, 0).x) ==> calls == expected)
  {
    hide R.Run, S.Run, Go, R.AllValid, S.Sender.Valid, OpFits, D.AllFree, Linked, D.Legal, D.EventsOf, D.Sent,
        D.Reports, D.InTime, D.Woven, R.Unticked, TrafficOf;
    var w := Go(x, g, ops);
    var ms, arrived := w.accepted, R.Unticked(evs);
    AcceptedWellMade(x, g, ops, s, size);
    WellMadeFit(ms, g, s, size);
    RunJoint(x, Setting(g, ms, s, size, |cs|), ops, arrived);
    GoFollowsRun(x, g, ops);
    var ts := Seen(w, evs);
    D.WovenLegal(ms, s, size, |cs|, TrafficOf(w.labels, arrived), evs);
    D.Demultiplexed(cs, ms, s, size, ts);
    D.ReportedOnce(ms, s, size, ts);
    DecidedBelow(ms, g, s, size, D.Sent(ms, ts), |ms|);
    assert ms[..|ms|] == ms;
    if S.AllIdle(w.x) {
      DrainedIsSent(w, ms, D.Sent(ms, ts));
      DecidedAll(ms, g, s, size, D.Sent(ms, ts), |ms|);
    }
  }

  lemma WellMadeFit(ms: seq<Message>, g: S.ExConfig, s: R.ExSetup, size: nat)
    requires AllWellMade(ms, g, s, size)
    ensures Fit(ms, g) && D.Sendable(ms, s)
  {
    hide Crc;
  }
}
