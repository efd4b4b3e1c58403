/** How much the extended handler can deliver: what no run exceeds, exactly which messages arrive, and what becomes of
    one whose length does not fit the header. */
module ExLimits {
  import opened Can
  import opened LongMessageWire
  import opened Crc16
  import opened ExReceiver
  import opened ExDemux
  import S = ExSender

  // ---- What no run exceeds ----

  /** A context waits for a fragment number up to 256, which no frame has, and holds five bytes for each before it. */
  predicate Numbered(c: Context) {
    c.inUse ==> 1 <= c.expected <= 256 && c.index <= 5 * (c.expected - 1)
  }

  predicate AllNumbered(cs: seq<Context>) { forall i :: 0 <= i < |cs| ==> Numbered(cs[i]) }

  /** At most what fits the buffer and what 255 fragments carry; a complete message is never empty. */
  predicate Small(c: Call, size: nat) {
    |c.bytes| <= size && |c.bytes| <= 1275 && (c.status == Complete ==> c.bytes != [])
  }

  predicate AllSmall(calls: seq<Call>, size: nat) { forall c :: c in calls ==> Small(c, size) }

  lemma ConsumeSmall(c: Context, s: ExSetup, f: Frame, now: uint32, size: nat)
    requires c.Valid() && c.inUse && Numbered(c) && |c.buffer| == size && SequenceOf(f) == c.expected
    ensures var (d, calls) := Consume(c, s, PayloadOf(f), now);
            Numbered(Advance(d)) && AllSmall(calls, size)
  {
    hide PayloadOf, Verdict;
    assert |PayloadOf(f)| == 5;
  }

  lemma FrameSmall(cs: seq<Context>, s: ExSetup, f: Frame, now: uint32, size: nat)
    requires AllValid(cs, size) && AllNumbered(cs)
    ensures AllNumbered(OnFrame(cs, s, f, now, size).0) && AllSmall(OnFrame(cs, s, f, now, size).1, size)
  {
    hide PayloadOf, Consume, Advance, FindFree, FindMatch;
    if SequenceOf(f) != 0 {
      var i := FindMatch(cs, StreamOf(f), SenderOf(f), 0);
      if i < |cs| && SequenceOf(f) == cs[i].expected { ConsumeSmall(cs[i], s, f, now, size); }
    }
  }

  lemma {:induction false} TickSmall(cs: seq<Context>, s: ExSetup, now: uint32, size: nat, n: nat)
    requires AllValid(cs, size) && AllNumbered(cs) && n <= |cs|
    ensures AllNumbered(OnTick(cs, s, now, size, n).0) && AllSmall(OnTick(cs, s, now, size, n).1, size)
  {
    hide Since;
    if n > 0 { TickSmall(cs, s, now, size, n - 1); }
  }

  /** Whatever arrives and whenever `process` is called, no call ever carries more than the buffer holds, or more than
      1275 bytes, and none carries an empty complete message. */
  lemma {:induction false} NeverMore(cs: seq<Context>, s: ExSetup, evs: seq<Event>, size: nat)
    requires AllValid(cs, size) && AllNumbered(cs)
    ensures AllNumbered(Run(cs, s, evs, size).0) && AllSmall(Run(cs, s, evs, size).1, size)
  {
    hide OnFrame, OnTick, AllNumbered, Small, AllValid;
    if evs != [] {
      NeverMore(cs, s, evs[..|evs| - 1], size);
      var ds := Run(cs, s, evs[..|evs| - 1], size).0;
      match evs[|evs| - 1] {
        case Arrive(f, now) => FrameSmall(ds, s, f, now, size);
        case Tick(now) => TickSmall(ds, s, now, size, |ds|);
      }
    }
  }

  // ---- Which messages arrive ----

  lemma OnlyOutcome(cs: seq<Context>, m: Message, s: ExSetup, size: nat, ts: seq<Traffic>)
    requires AllValid(cs, size) && AllFree(cs) && Sendable([m], s) && Legal([m], s, size, |cs|, ts)
    requires Sent([m], ts)[0] == |Frames(m)|
    ensures Run(cs, s, EventsOf([m], s, size, |cs|, ts), size).1 == [Outcome(m, s, size)]
  {
    hide Run, EventsOf, Legal, Sent, Outcome, Life, AllValid, Frames;
    ReportedOnce([m], s, size, ts);
    Demultiplexed(cs, [m], s, size, ts);
    LiveIsOpen(m, 0, size);
    DecidedOne(m, s, size, Sent([m], ts));
    OnlyElement(Reports([m], s, size, ts), Outcome(m, s, size), true);
  }

  lemma DecidedOne(m: Message, s: ExSetup, size: nat, pos: seq<nat>)
    requires |pos| == 1 && pos[0] >= Life(m, size)
    ensures Decided([m], s, size, pos, 1) == multiset{Outcome(m, s, size)}
  {
    hide Outcome, Life;
    assert Decided([m], s, size, pos, 0) == multiset{};
  }

  /** All frames of a message arrive, with no other message on the bus: the user gets exactly this message as a
      complete one exactly when it has one to 1275 bytes, fits the buffer, and asks for no check or for one that this
      receiver makes and that succeeds. */
  lemma {:induction false} ArrivesExactlyWhen(cs: seq<Context>, m: Message, s: ExSetup, size: nat, ts: seq<Traffic>)
    requires AllValid(cs, size) && AllFree(cs) && m.stream in s.subscribed && Legal([m], s, size, |cs|, ts)
    requires Sent([m], ts)[0] == |Frames(m)|
    ensures Call(m.bytes, m.stream, Complete) in Run(cs, s, EventsOf([m], s, size, |cs|, ts), size).1
            <==> 1 <= |m.bytes| <= size && |m.bytes| <= 1275 && (m.crc == 0 || (s.useCrc && Crc(m.bytes) == m.crc))
  {
    hide Run, EventsOf, Legal, Sent, Outcome, AllValid, Frames, Crc;
    NeverMore(cs, s, EventsOf([m], s, size, |cs|, ts), size);
    if 1 <= |m.bytes| <= 1275 {
      OnlyOutcome(cs, m, s, size, ts);
      CompletesExactlyWhen(m, s, size);
    }
  }

  lemma CompletesExactlyWhen(m: Message, s: ExSetup, size: nat)
    ensures Outcome(m, s, size) == Call(m.bytes, m.stream, Complete)
            <==> |m.bytes| <= size && (m.crc == 0 || (s.useCrc && Crc(m.bytes) == m.crc))
  {
    hide Crc;
    if |m.bytes| <= size { AcceptedExactlyWhen(m, s, size); }
  }

  // ---- Lengths of more than sixteen bits ----

  /** The first `n` frames of a message, at the times `at`. */
  function Arrivals(m: Message, at: seq<uint32>, n: nat): (evs: seq<Event>)
    requires n <= |at| && n <= |Frames(m)|
    ensures |evs| == n
  {
    if n == 0 then [] else Arrivals(m, at, n - 1) + [Arrive(Frames(m)[n - 1], at[n - 1])]
  }

  function Alone(at: seq<uint32>, n: nat): (ts: seq<Traffic>)
    requires n <= |at|
    ensures |ts| == n
  {
    if n == 0 then [] else Alone(at, n - 1) + [Own(0, at[n - 1])]
  }

  lemma {:induction false} AloneSends(m: Message, at: seq<uint32>, n: nat)
    requires n <= |at|
    ensures Sent([m], Alone(at, n)) == [n]
  {
    if n > 0 {
      AloneSends(m, at, n - 1);
      assert Alone(at, n)[..n - 1] == Alone(at, n - 1);
    }
  }

  lemma {:induction false} AloneLegal(m: Message, s: ExSetup, size: nat, slots: nat, at: seq<uint32>, n: nat)
    requires n <= |at| && n <= |Frames(m)| && slots > 0
    ensures Legal([m], s, size, slots, Alone(at, n))
    ensures EventsOf([m], s, size, slots, Alone(at, n)) == Arrivals(m, at, n)
  {
    hide Frames;
    if n > 0 {
      AloneLegal(m, s, size, slots, at, n - 1);
      AloneSends(m, at, n - 1);
      assert Alone(at, n)[..n - 1] == Alone(at, n - 1);
      assert Alone(at, n)[n - 1] == Own(0, at[n - 1]);
      assert LiveSet([m], [0], size) == {};
      LegalOneMore([m], s, size, slots, Alone(at, n - 1), Own(0, at[n - 1]));
    }
  }

  /** The bytes of `part` are the first ones of `m`, and both have the same header. */
  predicate Announced(part: Message, m: Message) {
    part == m.(bytes := part.bytes) && part.bytes <= m.bytes && HeaderFrame(part) == HeaderFrame(m)
  }

  lemma SameBytes(q: nat, r: nat)
    requires r < 0x1_0000
    ensures HighByte(q * 0x1_0000 + r) == HighByte(r) && LowByte(q * 0x1_0000 + r) == LowByte(r)
  {
    var n, high, low := q * 0x1_0000 + r, r / 0x100, r % 0x100;
    LowestEight(n, q * 0x100 + high, low);
    LowestEight(q * 0x100 + high, q, high);
  }

  lemma LowestEight(n: nat, q: nat, r: nat)
    requires n == q * 0x100 + r && r < 0x100
    ensures n / 0x100 == q && n % 0x100 == r
  {}

  lemma AnnouncedFields(part: Message, m: Message)
    requires Announced(part, m)
    ensures part.stream == m.stream && part.canId == m.canId && |part.bytes| <= |m.bytes|
  {}

  lemma LowSixteenAnnounced(m: Message, n: nat)
    requires n == |m.bytes| % 0x1_0000
    ensures n <= |m.bytes| && Announced(m.(bytes := m.bytes[..n]), m)
  {
    hide HighByte, LowByte;
    assert |m.bytes| == |m.bytes| / 0x1_0000 * 0x1_0000 + n;
    SameBytes(|m.bytes| / 0x1_0000, n);
  }

  lemma FramesEnough(part: Message, m: Message)
    requires |part.bytes| <= |m.bytes|
    ensures |Frames(part)| == 1 + FragmentCount(|part.bytes|) <= |Frames(m)|
  {}

  lemma SameFragment(part: Message, m: Message, k: nat)
    requires Announced(part, m) && 5 * k + 5 <= |part.bytes|
    ensures FragmentFrame(part, k) == FragmentFrame(m, k)
  {
    hide HeaderFrame;
    assert Fragment(part.bytes, k) == Fragment(m.bytes, k);
  }

  /** The fragment with the last announced byte differs only behind it. */
  lemma LastFragment(part: Message, m: Message, k: nat)
    requires Announced(part, m) && 5 * k < |part.bytes| <= 5 * k + 5
    ensures var f, f' := FragmentFrame(part, k), FragmentFrame(m, k);
            && StreamOf(f) == StreamOf(f') == m.stream && SequenceOf(f) == SequenceOf(f') == (k + 1) % 0x100
            && SenderOf(f) == SenderOf(f') == m.canId % 0x80
            && PayloadOf(f)[..|part.bytes| - 5 * k] == PayloadOf(f')[..|part.bytes| - 5 * k]
  {
    hide FragmentFrame, HeaderFrame, PayloadOf, StreamOf, SenderOf, SequenceOf;
    FragmentReads(part, k);
    FragmentReads(m, k);
    var n, p, p' := |part.bytes| - 5 * k, PayloadOf(FragmentFrame(part, k)), PayloadOf(FragmentFrame(m, k));
    assert forall j :: 0 <= j < n ==> p[j] == m.bytes[5 * k + j] == p'[j];
  }

  /** A context takes no more of a fragment than its message still wants. */
  lemma SameTaken(c: Context, s: ExSetup, p: seq<byte>, p': seq<byte>, now: uint32, n: nat)
    requires c.Valid() && c.inUse && |p| == |p'| && n <= |p| && p[..n] == p'[..n]
    requires 0 < c.length - c.received == n && n <= |c.buffer| - c.index
    ensures Consume(c, s, p, now) == Consume(c, s, p', now)
  {
    hide Verdict;
  }

  lemma WantsRest(ds: seq<Context>, m: Message, s: ExSetup, size: nat, c: nat, k: nat, f: Frame, f': Frame, now: uint32)
    requires AllValid(ds, size) && c < |ds| && Holds(ds[c], m, k + 1, size) && 5 * k < |m.bytes| < 5 * k + 5
    requires |m.bytes| <= size && FindMatch(ds, m.stream, m.canId % 0x80, 0) == c
    requires StreamOf(f) == StreamOf(f') == m.stream && SenderOf(f) == SenderOf(f') == m.canId % 0x80
    requires SequenceOf(f) == SequenceOf(f') != 0
    requires PayloadOf(f)[..|m.bytes| - 5 * k] == PayloadOf(f')[..|m.bytes| - 5 * k]
    ensures OnFrame(ds, s, f, now, size) == OnFrame(ds, s, f', now, size)
  {
    hide PayloadOf, Consume, FindMatch, StreamOf, SenderOf, SequenceOf;
    assert |PayloadOf(f)| == |PayloadOf(f')| == 5;
    SameTaken(ds[c], s, PayloadOf(f), PayloadOf(f'), now, |m.bytes| - 5 * k);
  }

  /** The context that has the first `n` frames of a message that is alone on the bus. */
  lemma ContextOf(cs: seq<Context>, m: Message, s: ExSetup, size: nat, at: seq<uint32>, n: nat) returns (c: nat)
    requires AllValid(cs, size) && AllFree(cs) && cs != [] && Sendable([m], s) && Live(m, n, size) && n <= |at|
    ensures n < |Frames(m)|
    ensures var ds := Run(cs, s, Arrivals(m, at, n), size).0;
            c < |ds| && Holds(ds[c], m, n, size) && FindMatch(ds, m.stream, m.canId % 0x80, 0) == c
  {
    hide Run, AllFree, Frames, Holds, Tracks, AllValid, Sendable, Legal, Live;
    LiveIsOpen(m, n, size);
    assert n < |Frames(m)|;
    AloneLegal(m, s, size, |cs|, at, n);
    AloneSends(m, at, n);
    var owner, home := RunTracked(cs, [m], s, size, Alone(at, n));
    var ds := Run(cs, s, Arrivals(m, at, n), size).0;
    HomeHolds(ds, [m], size, [n], LastSeen([m], Alone(at, n)), owner, home, 0);
    OnlyMatch(ds, [m], size, [n], LastSeen([m], Alone(at, n)), owner, home, 0);
    c := home[0];
  }

  lemma StillLive(m: Message, s: ExSetup, size: nat, k: nat)
    requires Sendable([m], s) && 5 * k < |m.bytes| <= size
    ensures Live(m, k + 1, size) && k + 1 < |Frames(m)| && k + 1 < 0x100
  {
    assert [m][0] == m;
  }

  lemma LastAlike(cs: seq<Context>, part: Message, m: Message, s: ExSetup, size: nat, at: seq<uint32>, k: nat)
    requires AllValid(cs, size) && AllFree(cs) && cs != [] && Sendable([part], s) && |part.bytes| <= size
    requires Announced(part, m) && 5 * k < |part.bytes| < 5 * k + 5 && k + 2 <= |at|
    ensures k + 1 < |Frames(part)|
    ensures var ds := Run(cs, s, Arrivals(part, at, k + 1), size).0;
            OnFrame(ds, s, FragmentFrame(part, k), at[k + 1], size)
            == OnFrame(ds, s, FragmentFrame(m, k), at[k + 1], size)
  {
    hide *;
    StillLive(part, s, size, k);
    AnnouncedFields(part, m);
    var c := ContextOf(cs, part, s, size, at, k + 1);
    LastFragment(part, m, k);
    WantsRest(Run(cs, s, Arrivals(part, at, k + 1), size).0, part, s, size, c, k, FragmentFrame(part, k),
              FragmentFrame(m, k), at[k + 1]);
  }

  lemma FrameAlike(cs: seq<Context>, part: Message, m: Message, s: ExSetup, size: nat, at: seq<uint32>, n: nat)
    requires AllValid(cs, size) && AllFree(cs) && cs != [] && Sendable([part], s) && |part.bytes| <= size
    requires Announced(part, m) && n < |Frames(part)| && n < |at|
    ensures |Frames(part)| <= |Frames(m)|
    ensures var ds := Run(cs, s, Arrivals(part, at, n), size).0;
            OnFrame(ds, s, Frames(part)[n], at[n], size) == OnFrame(ds, s, Frames(m)[n], at[n], size)
  {
    hide AllValid, AllFree, Sendable, OnFrame, Frames, Run, HeaderFrame, FragmentFrame;
    FramesEnough(part, m);
    FrameData(m);
    FrameData(part);
    if 0 < n && 5 * n <= |part.bytes| {
      SameFragment(part, m, n - 1);
    } else if 0 < n {
      LastAlike(cs, part, m, s, size, at, n - 1);
    }
  }

  /** The frames of a message do to the receiver what those of its announced part do, as far as these go. */
  lemma {:induction false} RunsAlike(cs: seq<Context>, part: Message, m: Message, s: ExSetup, size: nat,
        at: seq<uint32>, n: nat)
    requires AllValid(cs, size) && AllFree(cs) && cs != [] && Sendable([part], s) && |part.bytes| <= size
    requires Announced(part, m) && n <= |Frames(part)| && n <= |at|
    ensures |Frames(part)| <= |Frames(m)|
    ensures Run(cs, s, Arrivals(part, at, n), size) == Run(cs, s, Arrivals(m, at, n), size)
  {
    assert |part.bytes| <= |m.bytes|;
    hide AllValid, AllFree, Sendable, OnFrame, Frames, Run, Announced;
    FramesEnough(part, m);
    if n > 0 {
      RunsAlike(cs, part, m, s, size, at, n - 1);
      FrameAlike(cs, part, m, s, size, at, n - 1);
      RunSnoc(cs, s, Arrivals(part, at, n - 1), Arrive(Frames(part)[n - 1], at[n - 1]), size);
      RunSnoc(cs, s, Arrivals(m, at, n - 1), Arrive(Frames(m)[n - 1], at[n - 1]), size);
    }
  }

  /** A message of 65536 bytes or more is announced with a length cut to sixteen bits. With the fragment that holds the
      last announced byte the user gets the `n` announced bytes as the whole message. The check does not notice, because
      the sender has computed its word over just these bytes. */
  lemma {:induction false} CutPasses(cs: seq<Context>, g: S.ExConfig, m: Message, n: nat, s: ExSetup, size: nat,
        at: seq<uint32>)
    requires AllValid(cs, size) && AllFree(cs) && cs != [] && m.stream in s.subscribed && g.useCrc == s.useCrc
    requires m == S.MessageOf(g, m.bytes, m.stream, m.priority)
    requires n == |m.bytes| % 0x1_0000 && 1 <= n <= size && n <= 1275 && 1 + FragmentCount(n) <= |at|
    ensures n <= |m.bytes| && 1 + FragmentCount(n) <= |Frames(m)|
    ensures Run(cs, s, Arrivals(m, at, 1 + FragmentCount(n)), size).1 == [Call(m.bytes[..n], m.stream, Complete)]
  {
    hide Run, AllValid, AllFree, Frames, Legal, EventsOf, Outcome, Crc, Sent, Announced, FragmentCount;
    LowSixteenAnnounced(m, n);
    var part, k := m.(bytes := m.bytes[..n]), 1 + FragmentCount(n);
    FramesEnough(part, m);
    RunsAlike(cs, part, m, s, size, at, k);
    AloneLegal(part, s, size, |cs|, at, k);
    AloneSends(part, at, k);
    OnlyOutcome(cs, part, s, size, Alone(at, k));
    CompletesExactlyWhen(part, s, size);
  }
}
