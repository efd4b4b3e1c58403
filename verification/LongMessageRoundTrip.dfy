/** One message over a perfect channel into the basic receiver: exactly when it is delivered,
    and what happens at the 256th fragment, whose number no longer fits the wire. */
module LongMessageRoundTrip {
  import opened Can
  import opened LongMessageWire
  import opened LongMessageReceiver

  /** The first of the message's frames have arrived, in order. */
  predicate InPart(evs: seq<Event>, m: Message) {
    |evs| <= |Frames(m)| && forall i :: 0 <= i < |evs| ==> evs[i].Arrive? && evs[i].frame == Frames(m)[i]
  }

  /** All of the message's frames arrive, in order. */
  predicate Perfect(evs: seq<Event>, m: Message) { InPart(evs, m) && |evs| == |Frames(m)| }

  /** All of the message's frames arrive, in order and at any times, and the node calls `process` between
      them as often as it likes, as long as no gap between the frames reaches the timeout. */
  predicate PerfectChannel(evs: seq<Event>, s: Setup, m: Message) { Perfect(Unticked(evs), m) && InTime(s, evs) }

  lemma PerfectFrame(evs: seq<Event>, m: Message, q: nat)
    requires InPart(evs, m) && q < |evs|
    ensures q <= FragmentCount(|m.bytes|) && evs[q].Arrive?
    ensures evs[q].frame == if q == 0 then HeaderFrame(m) else FragmentFrame(m, q - 1)
  {}

  predicate Listening(r: Receiver, s: Setup, m: Message) {
    Idle(r) && m.stream in s.subscribed
  }

  /** The length the header can carry. */
  function Announced(m: Message): nat { |m.bytes| % 0x1_0000 }

  /** `j` fragments have been taken in order and nothing has been reported. */
  predicate Advanced(r: Receiver, m: Message, j: nat) {
    && r.Valid() && r.receiving && r.stream == m.stream && r.canId == m.canId % 0x80
    && r.length == Announced(m) && r.expected == j + 1
    && r.index == r.received == 5 * j <= |m.bytes| && r.Gathered() == m.bytes[..5 * j]
  }

  lemma HeaderTaken(r: Receiver, s: Setup, m: Message, now: uint32)
    requires Listening(r, s, m)
    ensures var (q, calls) := OnFrame(r, s, HeaderFrame(m), now);
            calls == [] && Advanced(q, m, 0)
  {
    hide HeaderFrame, OnFrame;
    HeaderReads(m);
    StartTaken(r, s, HeaderFrame(m), now);
  }

  /** What the next fragment does to a receiver that has taken `j` of them. */
  function Reaction(m: Message, j: nat, buffer: nat): (calls: seq<Call>)
    requires 5 * j < Announced(m)
  {
    var n := Announced(m);
    if j == 255 then [Call(m.bytes[..1275], m.stream, SequenceError)]
    else if n <= 5 * j + 5 && n <= buffer then [Call(m.bytes[..n], m.stream, Complete)]
    else if buffer < 5 * j + 5 && buffer < |m.bytes| then [Call(m.bytes[..buffer], m.stream, Incomplete)]
    else []
  }

  lemma FragmentConsumed(r: Receiver, m: Message, j: nat)
    requires Advanced(r, m, j) && 5 * j < Announced(m) && j < 255
    ensures var (q, calls) := Consume(r, PayloadOf(FragmentFrame(m, j)));
            && calls == Reaction(m, j, |r.buffer|)
            && (calls == [] ==>
                  q.received < q.length && q.index == q.received == 5 * j + 5 && q.Gathered() == m.bytes[..5 * j + 5])
            && (calls != [] ==> q.index == 0 && (calls[0].status == Complete ==> q.received >= q.length))
  {
    FragmentReads(m, j);
    var p := PayloadOf(FragmentFrame(m, j));
    var taken := Min(Left(r), Min(5, |r.buffer| - r.index));
    assert 5 * j + taken <= |m.bytes|;
    assert p[..taken] == m.bytes[5 * j..5 * j + taken];
    assert m.bytes[..5 * j] + m.bytes[5 * j..5 * j + taken] == m.bytes[..5 * j + taken];
    assert taken == 5 ==> p[..taken] == p;
  }

  lemma FragmentTaken(r: Receiver, s: Setup, m: Message, j: nat, now: uint32)
    requires Advanced(r, m, j) && 5 * j < Announced(m) && j <= 255
    ensures var (q, calls) := OnFrame(r, s, FragmentFrame(m, j), now);
            && calls == Reaction(m, j, |r.buffer|)
            && (calls == [] ==> Advanced(q, m, j + 1))
            && (calls != [] && calls[0].status != Incomplete ==> Idle(q))
  {
    hide FragmentFrame, PayloadOf, Consume;
    var r0 := r.(last := now);
    FragmentReads(m, j);
    assert Advanced(r0, m, j);
    if j == 255 {
      assert r0.Gathered() == m.bytes[..1275];
    } else {
      FragmentConsumed(r0, m, j);
      ConsumeKeeps(r0, PayloadOf(FragmentFrame(m, j)));
    }
  }

  lemma RunNothing(r: Receiver, s: Setup, evs: seq<Event>)
    requires r.Valid()
    ensures Run(r, s, []) == (r, []) && Run(r, s, evs[..0]) == (r, [])
  {}

  lemma StillSilent(m: Message, j: nat, buffer: nat)
    requires 5 * j + 5 < Announced(m) && 5 * j + 5 <= buffer && j < 255
    ensures Reaction(m, j, buffer) == []
  {}

  /** As long as nothing is reported, every fragment is taken in order. */
  lemma {:induction false} Quiet(r: Receiver, s: Setup, m: Message, evs: seq<Event>, j: nat)
    requires Listening(r, s, m) && InPart(evs, m) && 1 + j <= |evs|
    requires 5 * j < Announced(m) && 5 * j <= |r.buffer| && j <= 255
    ensures 1 + j < |Frames(m)|
    ensures Run(r, s, evs[..1 + j]).1 == [] && Advanced(Run(r, s, evs[..1 + j]).0, m, j)
  {
    hide Run, Frames, OnFrame, Reaction, Advanced, FragmentFrame, HeaderFrame;
    RunSnoc(r, s, evs, j);
    PerfectFrame(evs, m, j);
    if j == 0 {
      RunNothing(r, s, evs);
      HeaderTaken(r, s, m, evs[0].at);
    } else {
      Quiet(r, s, m, evs, j - 1);
      StillSilent(m, j - 1, |r.buffer|);
      FragmentTaken(Run(r, s, evs[..j]).0, s, m, j - 1, evs[j].at);
    }
  }

  /** How many fragments are taken before the first report. */
  function SilentFragments(m: Message, buffer: nat): nat
    requires Announced(m) > 0
  {
    Min(255, Min((Announced(m) - 1) / 5, buffer / 5))
  }

  lemma FirstReport(r: Receiver, s: Setup, m: Message, evs: seq<Event>)
    requires Listening(r, s, m) && Perfect(evs, m) && Announced(m) > 0
    ensures var j := SilentFragments(m, |r.buffer|);
            && j + 2 <= |evs|
            && Run(r, s, evs[..j + 2]).1 == Reaction(m, j, |r.buffer|) != []
            && (Reaction(m, j, |r.buffer|)[0].status != Incomplete ==> Idle(Run(r, s, evs[..j + 2]).0))
  {
    hide Run, Frames, OnFrame;
    var j := SilentFragments(m, |r.buffer|);
    Quiet(r, s, m, evs, j);
    RunSnoc(r, s, evs, j + 1);
    PerfectFrame(evs, m, j + 1);
    FragmentTaken(Run(r, s, evs[..j + 1]).0, s, m, j, evs[j + 1].at);
  }

  // ---- A message of 65536 bytes, or a multiple, announces itself as empty ----

  /** A header that announces nothing was taken and `j` fragments since; every one is a message of its own. */
  predicate Adrift(r: Receiver, m: Message, j: nat) {
    && r.Valid() && r.receiving && r.stream == m.stream && r.canId == m.canId % 0x80
    && r.length == 0 == r.index && r.expected == j + 1
  }

  /** What fragment `j` gives the user: its first byte, if there is room for one. */
  function FirstByte(m: Message, j: nat, buffer: nat): Call
    requires 5 * j < |m.bytes|
  {
    if buffer == 0 then Call([], m.stream, Incomplete) else Call([m.bytes[5 * j]], m.stream, Complete)
  }

  /** What `j` fragments give; the one after 255 of them has a number that does not match. */
  function Dribble(m: Message, j: nat, buffer: nat): (calls: seq<Call>)
    requires j <= 256 && 1280 <= |m.bytes|
    ensures |calls| == j
  {
    if j == 0 then [] else
    Dribble(m, j - 1, buffer)
    + [if j == 256 then Call([], m.stream, SequenceError) else FirstByte(m, j - 1, buffer)]
  }

  lemma FirstByteConsumed(r: Receiver, m: Message, j: nat)
    requires Adrift(r, m, j) && 5 * j < |m.bytes|
    ensures var (q, calls) := Consume(r, PayloadOf(FragmentFrame(m, j)));
            calls == [FirstByte(m, j, |r.buffer|)] && q.index == 0
  {
    hide FragmentFrame, PayloadOf, Zeros;
    FragmentReads(m, j);
    var p := PayloadOf(FragmentFrame(m, j));
    assert p[..1] == [m.bytes[5 * j]] && p[..0] == [];
    assert r.Gathered() == [] && [] + p[..0] == [] && [] + p[..1] == [m.bytes[5 * j]];
  }

  lemma AdriftFragment(r: Receiver, s: Setup, m: Message, j: nat, now: uint32)
    requires Adrift(r, m, j) && 1280 <= |m.bytes| && j <= 255
    ensures var (q, calls) := OnFrame(r, s, FragmentFrame(m, j), now);
            if j == 255 then calls == [Call([], m.stream, SequenceError)] && Idle(q)
            else calls == [FirstByte(m, j, |r.buffer|)] && Adrift(q, m, j + 1)
  {
    hide FragmentFrame, PayloadOf, Consume, FirstByte;
    var r0 := r.(last := now);
    FragmentReads(m, j);
    if j < 255 {
      FirstByteConsumed(r0, m, j);
      ConsumeKeeps(r0, PayloadOf(FragmentFrame(m, j)));
    }
  }

  lemma {:induction false} EmptyWithoutTicks(r: Receiver, s: Setup, m: Message, evs: seq<Event>, j: nat)
    requires Listening(r, s, m) && Perfect(evs, m) && Announced(m) == 0 && m.bytes != [] && j <= 256
    ensures |m.bytes| >= 0x1_0000 && |evs| > 257
    ensures var t := Run(r, s, evs[..1 + j]);
            && t.1 == Dribble(m, j, |r.buffer|)
            && (if j == 256 then Idle(t.0) else Adrift(t.0, m, j)) && |t.0.buffer| == |r.buffer|
  {
    hide Run, Frames, OnFrame, Adrift;
    RunSnoc(r, s, evs, j);
    PerfectFrame(evs, m, j);
    if j == 0 {
      RunNothing(r, s, evs);
      HeaderAnnouncesNothing(r, s, m, evs[0].at);
    } else {
      EmptyWithoutTicks(r, s, m, evs, j - 1);
      AdriftFragment(Run(r, s, evs[..j]).0, s, m, j - 1, evs[j].at);
    }
  }

  lemma HeaderAnnouncesNothing(r: Receiver, s: Setup, m: Message, now: uint32)
    requires Listening(r, s, m) && Announced(m) == 0
    ensures var (q, calls) := OnFrame(r, s, HeaderFrame(m), now);
            calls == [] && Adrift(q, m, 0)
  {
    hide HeaderFrame, OnFrame;
    HeaderTaken(r, s, m, now);
  }

  lemma NothingInIt(r: Receiver, s: Setup, m: Message, evs: seq<Event>)
    requires Listening(r, s, m) && Perfect(evs, m) && m.bytes == []
    ensures Run(r, s, evs).1 == []
  {
    hide OnFrame, HeaderFrame;
    RunSnoc(r, s, evs, 0);
    HeaderTaken(r, s, m, evs[0].at);
    assert evs[..1] == evs;
  }

  /** A message of 65536 bytes, or a multiple, is taken for an empty one: each of the first 255 fragments is
      reported as a complete message of its first byte, and the next one as a sequence error. */
  lemma {:induction false} EmptyAnnouncement(r: Receiver, s: Setup, m: Message, evs: seq<Event>, i: nat)
    requires Listening(r, s, m) && PerfectChannel(evs, s, m) && Announced(m) == 0 && m.bytes != [] && i <= |evs|
    requires 1 <= |Unticked(evs[..i])| <= 257
    ensures |m.bytes| >= 0x1_0000
    ensures Run(r, s, evs[..i]).1 == Dribble(m, |Unticked(evs[..i])| - 1, |r.buffer|)
    ensures |Unticked(evs[..i])| == 257 ==> Idle(Run(r, s, evs[..i]).0)
  {
    hide Run, Frames, InTime, Unticked, Idle, Dribble;
    InTimePrefix(s, evs, i);
    TicksInTime(r, s, evs[..i]);
    UntickedPrefix(evs, i);
    EmptyWithoutTicks(r, s, m, Unticked(evs), |Unticked(evs[..i])| - 1);
  }

  lemma DeliveredWithoutTicks(r: Receiver, s: Setup, m: Message, evs: seq<Event>)
    requires Listening(r, s, m) && Perfect(evs, m)
    ensures Run(r, s, evs).1 == [Call(m.bytes, m.stream, Complete)] <==> Receivable(m, |r.buffer|)
    ensures Receivable(m, |r.buffer|) ==> Idle(Run(r, s, evs).0)
  {
    hide Run, Frames;
    if Announced(m) == 0 {
      if m.bytes == [] {
        NothingInIt(r, s, m, evs);
      } else {
        EmptyWithoutTicks(r, s, m, evs, 1);
        CallsOnlyGrow(r, s, evs, 2);
        assert Run(r, s, evs).1[0] == FirstByte(m, 0, |r.buffer|);
      }
    } else {
      FirstReport(r, s, m, evs);
      var j := SilentFragments(m, |r.buffer|);
      CallsOnlyGrow(r, s, evs, j + 2);
      assert Run(r, s, evs).1[0] == Reaction(m, j, |r.buffer|)[0];
      if Receivable(m, |r.buffer|) {
        assert j + 2 == |evs|;
        assert m.bytes[..|m.bytes|] == m.bytes;
        assert evs[..j + 2] == evs;
      }
    }
  }

  predicate OnlyTicks(evs: seq<Event>, n: nat) { forall k :: n <= k < |evs| ==> evs[k].Tick? }

  predicate AllTimeouts(calls: seq<Call>) { forall c :: c in calls ==> c.status == TimeoutError }

  /** Calls of `process` alone report timeouts and nothing else, and nothing at all when no message is being
      received. */
  lemma {:induction false} TrailingTicks(r: Receiver, s: Setup, evs: seq<Event>, n: nat) returns (more: seq<Call>)
    requires r.Valid() && n <= |evs| && OnlyTicks(evs, n)
    ensures Run(r, s, evs).1 == Run(r, s, evs[..n]).1 + more && AllTimeouts(more)
    ensures !Run(r, s, evs[..n]).0.receiving ==> more == [] && !Run(r, s, evs).0.receiving
    decreases |evs|
  {
    hide Run;
    if n == |evs| {
      assert evs[..n] == evs;
      more := [];
    } else {
      var prior := evs[..|evs| - 1];
      var earlier := TrailingTicks(r, s, prior, n);
      assert prior[..n] == evs[..n] && evs[..|evs| - 1 + 1] == evs;
      RunSnoc(r, s, evs, |evs| - 1);
      more := earlier + OnTick(Run(r, s, prior).0, s, evs[|evs| - 1].at).1;
    }
  }

  /** Delivery as one complete call and nothing else happens exactly for messages of one to 1275 bytes that
      fit the user's buffer, whatever the message is, and however long the node goes on calling `process`
      after the first `n` events, which carry it. */
  lemma {:induction false} DeliveredExactlyWhen(r: Receiver, s: Setup, m: Message, evs: seq<Event>, n: nat)
    requires Listening(r, s, m) && n <= |evs| && PerfectChannel(evs[..n], s, m) && OnlyTicks(evs, n)
    ensures Run(r, s, evs).1 == [Call(m.bytes, m.stream, Complete)] <==> Receivable(m, |r.buffer|)
  {
    hide Run, Frames, InTime, Receivable;
    TicksInTime(r, s, evs[..n]);
    DeliveredWithoutTicks(r, s, m, Unticked(evs[..n]));
    var more := TrailingTicks(r, s, evs, n);
    if !Receivable(m, |r.buffer|) {
      NotJustOne(Run(r, s, evs[..n]).1, more, Call(m.bytes, m.stream, Complete));
    }
  }

  lemma NotJustOne(a: seq<Call>, more: seq<Call>, c: Call)
    requires a != [c] && AllTimeouts(more) && c.status == Complete
    ensures a + more != [c]
  {
    if a == [] && more != [] {
      assert more[0] in more;
      assert (a + more)[0] == more[0];
    }
  }

  // ---- Beyond 255 fragments ----

  predicate TooManyFragments(m: Message, buffer: nat) {
    1275 < |m.bytes| <= buffer && |m.bytes| < 0x1_0000
  }

  lemma LimitWithoutTicks(r: Receiver, s: Setup, m: Message, evs: seq<Event>)
    requires Listening(r, s, m) && Perfect(evs, m) && TooManyFragments(m, |r.buffer|)
    ensures |evs| >= 257
    ensures Run(r, s, evs[..256]).1 == []
    ensures Run(r, s, evs[..257]).1 == [Call(m.bytes[..1275], m.stream, SequenceError)]
    ensures Idle(Run(r, s, evs[..257]).0)
  {
    Quiet(r, s, m, evs, 255);
    FirstReport(r, s, m, evs);
  }

  /** A longer message ends in a sequence error at fragment 256, after exactly 1275 bytes: nothing is reported
      until the header and 255 fragments have arrived, and that one error with the next. */
  lemma {:induction false} FragmentLimit(r: Receiver, s: Setup, m: Message, evs: seq<Event>, i: nat)
    requires Listening(r, s, m) && PerfectChannel(evs, s, m) && TooManyFragments(m, |r.buffer|) && i <= |evs|
    ensures |Unticked(evs)| >= 257
    ensures |Unticked(evs[..i])| <= 256 ==> Run(r, s, evs[..i]).1 == []
    ensures |Unticked(evs[..i])| == 257 ==>
              Run(r, s, evs[..i]).1 == [Call(m.bytes[..1275], m.stream, SequenceError)] && Idle(Run(r, s, evs[..i]).0)
  {
    hide Run, Frames, InTime, Unticked;
    var arrived := Unticked(evs);
    var q := |Unticked(evs[..i])|;
    LimitWithoutTicks(r, s, m, arrived);
    InTimePrefix(s, evs, i);
    TicksInTime(r, s, evs[..i]);
    UntickedPrefix(evs, i);
    if q <= 256 {
      CallsOnlyGrow(r, s, arrived[..256], q);
      assert arrived[..256][..q] == arrived[..q];
    }
  }

  /** Fragment number `q` reads as a header: its number is zero on the wire and its last byte, where a
      header has its flags, is zero. */
  predicate Phantom(m: Message, q: nat)
    requires 1 <= q <= FragmentCount(|m.bytes|)
  {
    q % 0x100 == 0 && FlagsOf(FragmentFrame(m, q - 1)) == 0
  }

  predicate QuietAfter(r: Receiver, s: Setup, evs: seq<Event>, from: nat)
    requires r.Valid()
  {
    forall i | from <= i <= |evs| ::
      Run(r, s, evs[..i]).1 == Run(r, s, evs[..Min(from, |evs|)]).1 && !Run(r, s, evs[..i]).0.receiving
  }

  lemma IdleIgnores(r: Receiver, s: Setup, m: Message, q: nat, now: uint32)
    requires Idle(r) && m.stream in s.subscribed && 1 <= q <= FragmentCount(|m.bytes|)
    ensures var (r', calls) := OnFrame(r, s, FragmentFrame(m, q - 1), now);
            calls == [] && (if Phantom(m, q) then r'.receiving else Idle(r'))
  {
    FragmentReads(m, q - 1);
    hide FragmentFrame;
  }

  lemma {:induction false} StaysIdle(r: Receiver, s: Setup, m: Message, evs: seq<Event>, from: nat, i: nat)
    requires Listening(r, s, m) && Perfect(evs, m) && 1 <= from <= i <= |evs|
    requires Idle(Run(r, s, evs[..from]).0)
    requires forall q | from <= q < i :: !Phantom(m, q)
    ensures Run(r, s, evs[..i]).1 == Run(r, s, evs[..from]).1 && Idle(Run(r, s, evs[..i]).0)
    decreases i
  {
    hide Run, Frames, Phantom, OnFrame;
    if from < i {
      StaysIdle(r, s, m, evs, from, i - 1);
      RunSnoc(r, s, evs, i - 1);
      PerfectFrame(evs, m, i - 1);
      assert !Phantom(m, i - 1);
      IdleIgnores(Run(r, s, evs[..i - 1]).0, s, m, i - 1, evs[i - 1].at);
    }
  }

  lemma AfterWithoutTicks(r: Receiver, s: Setup, m: Message, evs: seq<Event>)
    requires Listening(r, s, m) && Perfect(evs, m) && TooManyFragments(m, |r.buffer|)
    ensures |evs| == 1 + FragmentCount(|m.bytes|)
    ensures QuietAfter(r, s, evs, 257) <==> forall q | 257 <= q <= FragmentCount(|m.bytes|) :: !Phantom(m, q)
  {
    hide Run, Frames, Phantom;
    LimitWithoutTicks(r, s, m, evs);
    if forall q | 257 <= q <= FragmentCount(|m.bytes|) :: !Phantom(m, q) {
      forall i | 257 <= i <= |evs|
        ensures Run(r, s, evs[..i]).1 == Run(r, s, evs[..257]).1 && !Run(r, s, evs[..i]).0.receiving
      {
        StaysIdle(r, s, m, evs, 257, i);
      }
    } else {
      var q := FirstPhantom(m, 257);
      StaysIdle(r, s, m, evs, 257, q);
      RunSnoc(r, s, evs, q);
      assert evs[q].frame == FragmentFrame(m, q - 1) by { PerfectFrame(evs, m, q); }
      IdleIgnores(Run(r, s, evs[..q]).0, s, m, q, evs[q].at);
      assert Run(r, s, evs[..q + 1]).0.receiving;
    }
  }

  lemma FirstPhantom(m: Message, from: nat) returns (q: nat)
    requires from >= 1 && exists p | from <= p <= FragmentCount(|m.bytes|) :: Phantom(m, p)
    ensures from <= q <= FragmentCount(|m.bytes|) && Phantom(m, q)
    ensures forall p | from <= p < q :: !Phantom(m, p)
    decreases FragmentCount(|m.bytes|) - from
  {
    if Phantom(m, from) { q := from; } else { q := FirstPhantom(m, from + 1); }
  }

  /** A moment at which `n` frames have arrived. */
  lemma {:induction false} ArrivalAt(evs: seq<Event>, n: nat) returns (i: nat)
    requires n <= |Unticked(evs)|
    ensures i <= |evs| && |Unticked(evs[..i])| == n
    decreases |evs|
  {
    if n == |Unticked(evs)| {
      i := |evs|;
      assert evs[..i] == evs;
    } else {
      var prior := evs[..|evs| - 1];
      i := ArrivalAt(prior, n);
      assert prior[..i] == evs[..i];
    }
  }

  /** The runs up to moment `i`, with and without the calls of `process`. */
  lemma RunAt(r: Receiver, s: Setup, evs: seq<Event>, i: nat)
    requires Idle(r) && InTime(s, evs) && i <= |evs|
    ensures |Unticked(evs[..i])| <= |Unticked(evs)|
    ensures Run(r, s, evs[..i]) == Run(r, s, Unticked(evs)[..|Unticked(evs[..i])|])
  {
    hide Run, InTime, Unticked;
    InTimePrefix(s, evs, i);
    TicksInTime(r, s, evs[..i]);
    UntickedPrefix(evs, i);
  }

  lemma ArrivedBefore(evs: seq<Event>, i: nat, j: nat)
    requires i <= j <= |evs|
    ensures |Unticked(evs[..i])| <= |Unticked(evs[..j])|
  {
    UntickedPrefix(evs[..j], i);
    assert evs[..j][..i] == evs[..i];
  }

  lemma {:induction false} TicksKeepQuiet(r: Receiver, s: Setup, evs: seq<Event>, from: nat)
    requires Idle(r) && InTime(s, evs) && from <= |evs|
    ensures QuietAfter(r, s, evs, from) <==> QuietAfter(r, s, Unticked(evs), |Unticked(evs[..from])|)
  {
    hide Run, InTime, Unticked;
    var arrived, n := Unticked(evs), |Unticked(evs[..from])|;
    RunAt(r, s, evs, from);
    if QuietAfter(r, s, arrived, n) {
      forall i | from <= i <= |evs|
        ensures Run(r, s, evs[..i]).1 == Run(r, s, evs[..from]).1 && !Run(r, s, evs[..i]).0.receiving
      {
        RunAt(r, s, evs, i);
        ArrivedBefore(evs, from, i);
      }
    }
    if QuietAfter(r, s, evs, from) {
      forall q | n <= q <= |arrived|
        ensures Run(r, s, arrived[..q]).1 == Run(r, s, arrived[..n]).1 && !Run(r, s, arrived[..q]).0.receiving
      {
        var i := ArrivalAt(evs, q);
        if i < from {
          ArrivedBefore(evs, i, from);
          i := from;
        }
        RunAt(r, s, evs, i);
      }
    }
  }

  /** After that error, at any moment `from` before the next fragment, the rest of the message is ignored exactly
      when none of its later fragments reads as a header; the first one that does starts a phantom reception. */
  lemma {:induction false} AfterTheLimit(r: Receiver, s: Setup, m: Message, evs: seq<Event>, from: nat)
    requires Listening(r, s, m) && PerfectChannel(evs, s, m) && TooManyFragments(m, |r.buffer|)
    requires from <= |evs| && |Unticked(evs[..from])| == 257
    ensures QuietAfter(r, s, evs, from) <==> forall q | 257 <= q <= FragmentCount(|m.bytes|) :: !Phantom(m, q)
  {
    hide QuietAfter, InTime, Unticked, Phantom, Frames;
    TicksKeepQuiet(r, s, evs, from);
    AfterWithoutTicks(r, s, m, Unticked(evs));
  }

  /** A fragment reads as a header when its number is a multiple of 256 and its last byte is zero, or padding. */
  lemma {:induction false} PhantomExactlyWhen(m: Message, q: nat)
    requires 1 <= q <= FragmentCount(|m.bytes|)
    ensures Phantom(m, q) <==> q % 0x100 == 0 && (5 * q > |m.bytes| || m.bytes[5 * q - 1] == 0)
  {
    FragmentReads(m, q - 1);
    var f, p := FragmentFrame(m, q - 1), Fragment(m.bytes, q - 1);
    assert f.data[7] == if |p| == 5 then p[4] else 0;
  }

  /** So with a last fragment that is short and numbered with a multiple of 256, as every message of 2556 to 2559
      bytes has one, no message is ignored, whatever its bytes are. */
  lemma {:induction false} ShortLastFragmentWakes(r: Receiver, s: Setup, m: Message, evs: seq<Event>, from: nat)
    requires Listening(r, s, m) && PerfectChannel(evs, s, m) && TooManyFragments(m, |r.buffer|)
    requires from <= |evs| && |Unticked(evs[..from])| == 257
    requires var k := FragmentCount(|m.bytes|); k > 256 && k % 256 == 0 && |m.bytes| % 5 != 0
    ensures !QuietAfter(r, s, evs, from)
  {
    hide QuietAfter, InTime, Unticked, Phantom, Frames;
    AfterTheLimit(r, s, m, evs, from);
    PhantomExactlyWhen(m, FragmentCount(|m.bytes|));
  }
}
