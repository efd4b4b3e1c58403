/** What goes wrong among interleaved messages in the extended receiver, and what the user is told: pauses that
    are too long, and missing fragments. Only the messages concerned are affected. */
module ExFailures {
  import opened Can
  import opened LongMessageWire
  import opened ExReceiver
  import opened ExDemux

  /** How far a run of legal traffic has come. */
  datatype Progress = Progress(cs: seq<Context>, ms: seq<Message>, pos: seq<nat>, last: seq<uint32>, owner: seq<nat>,
                               home: seq<nat>)

  predicate Tracked(p: Progress, size: nat) {
    AllValid(p.cs, size) && |p.pos| == |p.ms| && Tracks(p.cs, p.ms, size, p.pos, p.last, p.owner, p.home)
  }

  lemma ProgressOf(cs: seq<Context>, ms: seq<Message>, s: ExSetup, size: nat, ts: seq<Traffic>) returns (p: Progress)
    requires AllValid(cs, size) && AllFree(cs) && Sendable(ms, s) && Legal(ms, s, size, |cs|, ts)
    ensures p.ms == ms && p.pos == Sent(ms, ts) && p.last == LastSeen(ms, ts) && Tracked(p, size)
    ensures Run(cs, s, EventsOf(ms, s, size, |cs|, ts), size) == (p.cs, Reports(ms, s, size, ts))
  {
    hide Run, Tracks, EventsOf, Legal, Sent, LastSeen, Reports;
    var owner, home := RunTracked(cs, ms, s, size, ts);
    var ds := Run(cs, s, EventsOf(ms, s, size, |cs|, ts), size).0;
    p := Progress(ds, ms, Sent(ms, ts), LastSeen(ms, ts), owner, home);
  }

  /** What the user gets of a message of which the header and `sent - 1` fragments have come. */
  function Part(m: Message, sent: nat, status: Status): Call {
    Call(m.bytes[..Min(|m.bytes|, if sent > 0 then 5 * (sent - 1) else 0)], m.stream, status)
  }

  // ---- Pauses ----

  /** The message is being received, and its last frame came the timeout ago, or longer. */
  predicate Overdue(m: Message, sent: nat, last: uint32, s: ExSetup, size: nat, now: uint32) {
    Live(m, sent, size) && Since(now, last) >= s.timeout
  }

  predicate LateAt(p: Progress, s: ExSetup, size: nat, now: uint32, i: nat)
    requires |p.pos| == |p.last| == |p.ms| && i < |p.ms|
  {
    Overdue(p.ms[i], p.pos[i], p.last[i], s, size, now)
  }

  /** One timeout for each of the first `k` messages that is in `late`. */
  function Timeouts(ms: seq<Message>, pos: seq<nat>, late: set<nat>, k: nat): multiset<Call>
    requires |pos| == |ms| && k <= |ms|
  {
    if k == 0 then multiset{} else
    Timeouts(ms, pos, late, k - 1)
    + if k - 1 in late then multiset{Part(ms[k - 1], pos[k - 1], TimeoutError)} else multiset{}
  }

  lemma {:induction false} OneMoreLate(ms: seq<Message>, pos: seq<nat>, late: set<nat>, x: nat, k: nat)
    requires |pos| == |ms| && k <= |ms| && x < |ms| && x !in late
    ensures Timeouts(ms, pos, late + {x}, k)
            == Timeouts(ms, pos, late, k) + if x < k then multiset{Part(ms[x], pos[x], TimeoutError)} else multiset{}
  {
    hide Part;
    if k > 0 {
      OneMoreLate(ms, pos, late, x, k - 1);
      if k - 1 != x { assert k - 1 in late + {x} <==> k - 1 in late; }
    }
  }

  /** The messages whose contexts, of the first `n`, have expired. */
  function ExpiredOwners(p: Progress, s: ExSetup, now: uint32, n: nat): set<nat>
    requires |p.owner| == |p.cs| && n <= |p.cs|
  {
    if n == 0 then {} else
    ExpiredOwners(p, s, now, n - 1) + if Expired(p.cs[n - 1], s, now) then {p.owner[n - 1]} else {}
  }

  /** Message `i` is overdue exactly when its context has expired. */
  lemma LateIsHome(p: Progress, s: ExSetup, size: nat, now: uint32, i: nat)
    requires Tracked(p, size) && i < |p.ms|
    ensures |p.owner| == |p.cs| && |p.home| == |p.ms|
    ensures LateAt(p, s, size, now, i) ==>
              p.home[i] < |p.cs| && p.owner[p.home[i]] == i && Expired(p.cs[p.home[i]], s, now)
  {
    hide Holds, Live, Since, AllValid;
  }

  lemma ExpiredIsLate(p: Progress, s: ExSetup, size: nat, now: uint32, c: nat)
    requires Tracked(p, size) && c < |p.cs| && Expired(p.cs[c], s, now)
    ensures |p.owner| == |p.cs| && |p.home| == |p.ms|
    ensures p.owner[c] < |p.ms| && LateAt(p, s, size, now, p.owner[c]) && p.home[p.owner[c]] == c
  {
    hide Holds, Live, Since, AllValid;
  }

  lemma {:induction false} OwnersExpired(p: Progress, s: ExSetup, size: nat, now: uint32, n: nat)
    requires Tracked(p, size) && n <= |p.cs|
    ensures |p.owner| == |p.cs| && |p.home| == |p.ms|
    ensures forall i: nat :: i in ExpiredOwners(p, s, now, n) <==>
                               i < |p.ms| && LateAt(p, s, size, now, i) && p.home[i] < n
  {
    assert |p.owner| == |p.cs| && |p.home| == |p.ms|;
    hide Tracked, LateAt, Expired;
    if n > 0 {
      OwnersExpired(p, s, size, now, n - 1);
      if Expired(p.cs[n - 1], s, now) { ExpiredIsLate(p, s, size, now, n - 1); }
      forall i: nat | i < |p.ms| && LateAt(p, s, size, now, i) && p.home[i] == n - 1
        ensures p.owner[n - 1] == i && Expired(p.cs[n - 1], s, now)
      {
        LateIsHome(p, s, size, now, i);
      }
    }
  }

  /** What the timeouts do to the contexts. */
  lemma {:induction false} TickContexts(cs: seq<Context>, s: ExSetup, size: nat, now: uint32, n: nat)
    requires AllValid(cs, size) && n <= |cs|
    ensures var ds := OnTick(cs, s, now, size, n).0;
            forall c :: 0 <= c < |ds| ==> ds[c] == if c < n && Expired(cs[c], s, now) then Closed(cs[c]) else cs[c]
  {
    hide Expired, Closed;
    if n > 0 {
      TickContexts(cs, s, size, now, n - 1);
      assert OnTick(cs, s, now, size, n - 1).0[n - 1] == cs[n - 1];
    }
  }

  /** What they report. */
  lemma {:induction false} TickReports(p: Progress, s: ExSetup, size: nat, now: uint32, n: nat)
    requires Tracked(p, size) && n <= |p.cs|
    ensures |p.owner| == |p.cs| && AllValid(p.cs, size) && |p.pos| == |p.ms|
    ensures multiset(OnTick(p.cs, s, now, size, n).1)
            == Timeouts(p.ms, p.pos, ExpiredOwners(p, s, now, n), |p.ms|)
  {
    assert |p.owner| == |p.cs| && |p.home| == |p.ms| == |p.pos| && AllValid(p.cs, size);
    hide Tracked, LateAt, Expired, Closed, Timeouts, Part, AllValid;
    if n == 0 {
      NoneLate(p.ms, p.pos, |p.ms|);
    } else {
      TickReports(p, s, size, now, n - 1);
      if Expired(p.cs[n - 1], s, now) {
        ExpiredIsLate(p, s, size, now, n - 1);
        OwnersExpired(p, s, size, now, n - 1);
        OneMoreLate(p.ms, p.pos, ExpiredOwners(p, s, now, n - 1), p.owner[n - 1], |p.ms|);
        assert p.cs[n - 1].inUse by { ExpiredInUse(p.cs[n - 1], s, now); }
        HeldPart(p, size, n - 1);
        assert Call(p.cs[n - 1].Gathered(), p.cs[n - 1].stream, TimeoutError)
            == Part(p.ms[p.owner[n - 1]], p.pos[p.owner[n - 1]], TimeoutError);
      } else {
        assert ExpiredOwners(p, s, now, n) == ExpiredOwners(p, s, now, n - 1);
      }
    }
  }

  lemma ExpiredInUse(c: Context, s: ExSetup, now: uint32)
    requires Expired(c, s, now)
    ensures c.inUse
  {}

  lemma {:induction false} NoneLate(ms: seq<Message>, pos: seq<nat>, k: nat)
    requires |pos| == |ms| && k <= |ms|
    ensures Timeouts(ms, pos, {}, k) == multiset{}
  {
    if k > 0 { NoneLate(ms, pos, k - 1); }
  }

  /** A context in use has gathered the first part of its message. */
  lemma HeldPart(p: Progress, size: nat, c: nat)
    requires Tracked(p, size) && c < |p.cs| && p.cs[c].inUse
    ensures |p.owner| == |p.cs| && p.owner[c] < |p.ms| && p.cs[c].index <= |p.cs[c].buffer|
    ensures var m, n := p.ms[p.owner[c]], p.pos[p.owner[c]];
            && Holds(p.cs[c], m, n, size)
            && forall status :: Call(p.cs[c].Gathered(), p.cs[c].stream, status) == Part(m, n, status)
  {}

  /** The messages that are overdue. */
  function LateSet(ms: seq<Message>, s: ExSetup, size: nat, ts: seq<Traffic>, now: uint32): set<nat> {
    set i | 0 <= i < |ms| && Overdue(ms[i], Sent(ms, ts)[i], LastSeen(ms, ts)[i], s, size, now)
  }

  /** The context holds what has come of one of the messages in `which`. */
  ghost predicate HeldFor(c: Context, ms: seq<Message>, pos: seq<nat>, size: nat, which: set<nat>)
    requires |pos| == |ms|
  {
    exists i :: 0 <= i < |ms| && i in which && Holds(c, ms[i], pos[i], size)
  }

  function AllBut(n: nat, which: set<nat>): set<nat> { set i | 0 <= i < n && i !in which }

  lemma LateIsExpired(p: Progress, s: ExSetup, size: nat, ts: seq<Traffic>, now: uint32)
    requires Tracked(p, size) && p.pos == Sent(p.ms, ts) && p.last == LastSeen(p.ms, ts)
    ensures |p.owner| == |p.cs| && ExpiredOwners(p, s, now, |p.cs|) == LateSet(p.ms, s, size, ts, now)
  {
    hide Sent, LastSeen, ExpiredOwners, Overdue, Tracked, Expired;
    OwnersExpired(p, s, size, now, |p.cs|);
    forall i: nat | i < |p.ms| && LateAt(p, s, size, now, i)
      ensures p.home[i] < |p.cs|
    {
      LateIsHome(p, s, size, now, i);
    }
  }

  lemma NotLate(p: Progress, s: ExSetup, size: nat, now: uint32, c: nat)
    requires Tracked(p, size) && c < |p.cs| && p.cs[c].inUse
    ensures |p.owner| == |p.cs| && p.owner[c] < |p.ms| && |p.pos| == |p.last| == |p.ms|
    ensures LateAt(p, s, size, now, p.owner[c]) ==> Expired(p.cs[c], s, now)
  {
    hide Holds, Live, Since, AllValid;
  }

  lemma ContextsAfter(p: Progress, s: ExSetup, size: nat, now: uint32, late: set<nat>, c: nat)
    requires Tracked(p, size) && c < |p.cs| && |p.owner| == |p.cs| && late == ExpiredOwners(p, s, now, |p.cs|)
    requires p.cs[c].inUse
    ensures if Expired(p.cs[c], s, now) then HeldFor(p.cs[c], p.ms, p.pos, size, late)
            else HeldFor(p.cs[c], p.ms, p.pos, size, AllBut(|p.ms|, late))
  {
    hide Holds, Tracked, Expired, LateAt, ExpiredOwners;
    HeldPart(p, size, c);
    OwnersExpired(p, s, size, now, |p.cs|);
    var i := p.owner[c];
    if Expired(p.cs[c], s, now) { ExpiredIsLate(p, s, size, now, c); }
    NotLate(p, s, size, now, c);
  }

  /** After any legal interleaving a call of `process`, at any time, reports a timeout for each message that is
      overdue, once and with the bytes that came of it, and nothing else. The contexts of these are freed, and
      those of the other messages are as they were. */
  lemma {:induction false} PausesReported(cs: seq<Context>, ms: seq<Message>, s: ExSetup, size: nat, ts: seq<Traffic>,
        now: uint32) returns (calls: seq<Call>)
    requires AllValid(cs, size) && AllFree(cs) && Sendable(ms, s) && Legal(ms, s, size, |cs|, ts)
    ensures var evs := EventsOf(ms, s, size, |cs|, ts);
            var (before, after) := (Run(cs, s, evs, size), Run(cs, s, evs + [Tick(now)], size));
            var late := LateSet(ms, s, size, ts, now);
            && after.1 == Reports(ms, s, size, ts) + calls
            && multiset(calls) == Timeouts(ms, Sent(ms, ts), late, |ms|)
            && forall c :: 0 <= c < |cs| && before.0[c].inUse ==>
                 if after.0[c].inUse
                 then after.0[c] == before.0[c] && HeldFor(before.0[c], ms, Sent(ms, ts), size, AllBut(|ms|, late))
                 else HeldFor(before.0[c], ms, Sent(ms, ts), size, late)
  {
    hide Run, Legal, EventsOf, Sent, LastSeen, Reports, Timeouts, LateSet, HeldFor, Tracked, ExpiredOwners, Expired;
    var p := ProgressOf(cs, ms, s, size, ts);
    var evs := EventsOf(ms, s, size, |cs|, ts);
    RunSnoc(cs, s, evs, Tick(now), size);
    calls := OnTick(p.cs, s, now, size, |p.cs|).1;
    TickReports(p, s, size, now, |p.cs|);
    TickContexts(p.cs, s, size, now, |p.cs|);
    LateIsExpired(p, s, size, ts, now);
    forall c | 0 <= c < |cs| && p.cs[c].inUse
      ensures if Expired(p.cs[c], s, now) then HeldFor(p.cs[c], ms, p.pos, size, LateSet(ms, s, size, ts, now))
              else HeldFor(p.cs[c], ms, p.pos, size, AllBut(|ms|, LateSet(ms, s, size, ts, now)))
    {
      ContextsAfter(p, s, size, now, LateSet(ms, s, size, ts, now), c);
    }
  }

  // ---- Gaps ----

  /** After any legal interleaving another fragment of a message than the one that is due ends that message: the
      user gets the bytes that came, as a sequence error, and every other context is as it was. */
  lemma {:induction false} GapReported(cs: seq<Context>, ms: seq<Message>, s: ExSetup, size: nat, ts: seq<Traffic>,
        i: nat, f: Frame, now: uint32) returns (c: nat)
    requires AllValid(cs, size) && AllFree(cs) && Sendable(ms, s) && Legal(ms, s, size, |cs|, ts)
    requires i < |ms| && Live(ms[i], Sent(ms, ts)[i], size)
    requires f.data[1] == ms[i].stream && f.id % 0x80 == ms[i].canId % 0x80
    requires f.data[2] != 0 && f.data[2] != Sent(ms, ts)[i]
    ensures var evs := EventsOf(ms, s, size, |cs|, ts);
            var (before, after) := (Run(cs, s, evs, size), Run(cs, s, evs + [Arrive(f, now)], size));
            && after.1 == Reports(ms, s, size, ts) + [Part(ms[i], Sent(ms, ts)[i], SequenceError)]
            && c < |cs| && Holds(before.0[c], ms[i], Sent(ms, ts)[i], size) && !after.0[c].inUse
            && forall d :: 0 <= d < |cs| && d != c ==> after.0[d] == before.0[d]
  {
    hide Run, Legal, EventsOf, Sent, LastSeen, Reports, Live, AllValid;
    var p := ProgressOf(cs, ms, s, size, ts);
    var evs := EventsOf(ms, s, size, |cs|, ts);
    RunSnoc(cs, s, evs, Arrive(f, now), size);
    LiveIsOpen(ms[i], p.pos[i], size);
    OnlyMatch(p.cs, ms, size, p.pos, p.last, p.owner, p.home, i);
    HomeHolds(p.cs, ms, size, p.pos, p.last, p.owner, p.home, i);
    c := p.home[i];
    hide Tracks, FindMatch;
    PartIs(p.cs[c], ms[i], p.pos[i], size);
  }

  lemma PartIs(c: Context, m: Message, p: nat, size: nat)
    requires Holds(c, m, p, size)
    ensures c.index <= |c.buffer| && forall status :: Call(c.Gathered(), c.stream, status) == Part(m, p, status)
  {}
}
