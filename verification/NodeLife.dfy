/** What a node comes to over a run: the button really leads into setup and back, a node number is really taken, and
    number, CAN id and node variables are those of the last accepted command. */
module NodeLife {
  import opened Can
  import opened FlashCache
  import opened EventTable
  import opened EventStore
  import opened EventRuns
  import opened NodeMachine
  import opened NodeRuns

  predicate Pressing(e: Event) { e.Button? && e.look.pressed }

  /** No look from behind event `a` up to moment `c` finds the button released. */
  predicate NoRelease(es: seq<Event>, a: nat, c: nat) {
    c <= |es| && forall i :: a < i < c ==> !Released(es[i])
  }

  /** Some look in between finds it held for more than four seconds. */
  predicate HeldWithin(es: seq<Event>, a: nat, c: nat) {
    c <= |es| && exists i :: a < i < c && Held(es[i])
  }

  predicate SameNumber(n: Node, n': Node) {
    n'.store.flim == n.store.flim && n'.store.nodeNum == n.store.nodeNum
  }

  predicate Settled(m: Mode) { m == Slim || m == Flim }

  // ---- One step ----

  lemma SlimReached(n: Node)
    requires Sized(n.store.mem)
    ensures var n' := SetSlim(n);
            n'.mode == Slim && n'.prev == n.prev && !n'.store.flim && n'.store.nodeNum == 0 && n'.store.canId == 1
  {
    hide Write, Flush;
  }

  /** A frame that assigns a node number (0x42). */
  predicate Assigns(e: Event) { e.Receive? && e.frame.data[0] == 0x42 }

  /** What a frame or an enumeration does to mode, flag and number. */
  lemma OtherStep(l: Layout, n: Node, e: Event)
    requires Formed(l, n.store) && !e.Button?
    ensures var n' := NodeMachine.Step(l, n, e);
            n'.prev == n.prev
            && if Assigns(e) && n.mode == Setup
               then n'.mode == Flim && n'.store.flim && n'.store.nodeNum == NumberIn(e.frame)
               else n'.mode == n.mode && SameNumber(n, n')
  {
    hide Write, Flush, TeachSlot, ClearKeys, WriteKey, IsEvent, LearnSlot, Scan, NodeOf, NumberIn, EventOf, EventIn;
    if e.Receive? {
      ReadFromBytes(e.frame);
      NoEventIsCommand(0x42);
    }
  }

  lemma LookStep(l: Layout, n: Node, e: Event)
    requires Formed(l, n.store) && e.Button? && n.mode != Unknown
    ensures var n' := NodeMachine.Step(l, n, e);
            && (n.mode != Flashing || Pressing(e) || n.prev == Slim ==> SameNumber(n, n'))
            && (Settled(n.mode) ==> n' == if Pressing(e) then n.(mode := Pressed, prev := n.mode) else n)
            && (!Settled(n.mode) ==> n'.prev == n.prev)
            && match n.mode
               case Pressed =>
                 n'.mode == if Held(e) then Flashing else if Pressing(e) then Pressed
                            else if n.prev == Flim && e.look.last > 100 then Setup else n.prev
               case Flashing =>
                 if Pressing(e) then n' == n else
                 if n.prev == Slim then n'.mode == Setup
                 else n'.mode == Slim && !n'.store.flim && n'.store.nodeNum == 0 && n'.store.canId == 1
               case Setup => n'.mode == if Pressing(e) then PressedSetup else Setup
               case PressedSetup =>
                 n'.mode == if Pressing(e) then PressedSetup else if e.look.last > 100 then n.prev else Setup
               case _ => true
  {
    hide SetSlim;
    SlimReached(n);
  }

  // ---- A press ----

  lemma {:induction false} PressGoesOn(l: Layout, n: Node, es: seq<Event>, a: nat, c: nat)
    requires Sound(l, n.store) && AllInRange(l, es) && a < c <= |es|
    requires Settled(After(l, n, es, a).mode) && Pressing(es[a]) && NoRelease(es, a, c)
    ensures var (s, t) := (After(l, n, es, a), After(l, n, es, c));
            t.prev == s.mode && t.mode == (if HeldWithin(es, a, c) then Flashing else Pressed) && SameNumber(s, t)
  {
    hide NodeMachine.Step, Sound, Formed, Held, Released, Assigns;
    var before, e := After(l, n, es, c - 1), es[c - 1];
    NodeRuns.StepSound(l, before, e);
    if a < c - 1 {
      PressGoesOn(l, n, es, a, c - 1);
      LookIsPressOrRelease(e);
      HeldOnce(es, a, c - 1);
      if e.Button? { LookStep(l, before, e); } else { OtherStep(l, before, e); }
    } else {
      LookStep(l, before, e);
    }
  }

  lemma LookIsPressOrRelease(e: Event)
    ensures e.Button? ==> (Released(e) <==> !Pressing(e))
    ensures Held(e) ==> Pressing(e)
  {}

  lemma HeldOnce(es: seq<Event>, a: nat, k: nat)
    requires a < k < |es|
    ensures HeldWithin(es, a, k + 1) <==> HeldWithin(es, a, k) || Held(es[k])
  {
    hide Held;
    if HeldWithin(es, a, k) {
      var i :| a < i < k && Held(es[i]);
      assert a < i < k + 1;
    }
  }

  /** What one whole press does to a settled node: found pressed at event `a`, and not found released before event
      `c`. Held for more than four seconds it leads from SLiM into setup, and from FLiM back to SLiM without a
      number; a shorter one leads from FLiM into setup, if it was longer than the debounce time, and changes
      nothing else. */
  lemma {:induction false} PressOutcome(l: Layout, n: Node, es: seq<Event>, a: nat, c: nat)
    requires Sound(l, n.store) && AllInRange(l, es) && a < c < |es|
    requires Settled(After(l, n, es, a).mode) && Pressing(es[a]) && NoRelease(es, a, c) && Released(es[c])
    ensures var (s, t) := (After(l, n, es, a), After(l, n, es, c + 1));
            && t.prev == s.mode
            && if HeldWithin(es, a, c) && s.mode == Flim
               then t.mode == Slim && !t.store.flim && t.store.nodeNum == 0 && t.store.canId == 1
               else
                 SameNumber(s, t)
                 && t.mode == if HeldWithin(es, a, c) || (s.mode == Flim && es[c].look.last > 100) then Setup
                              else s.mode
  {
    hide NodeMachine.Step, Sound, Formed, HeldWithin, NoRelease;
    PressGoesOn(l, n, es, a, c);
    NodeRuns.StepSound(l, After(l, n, es, c), es[c]);
    LookStep(l, After(l, n, es, c), es[c]);
  }

  // ---- Setup ----

  /** From behind moment `a` up to moment `c` the button is not pressed and no number assigned. */
  predicate Undisturbed(es: seq<Event>, a: nat, c: nat) {
    c <= |es| && forall i :: a <= i < c ==> !Pressing(es[i]) && !Assigns(es[i])
  }

  lemma {:induction false} SetupGoesOn(l: Layout, n: Node, es: seq<Event>, a: nat, c: nat)
    requires Sound(l, n.store) && AllInRange(l, es) && a <= c <= |es|
    requires After(l, n, es, a).mode == Setup && Undisturbed(es, a, c)
    ensures var (s, t) := (After(l, n, es, a), After(l, n, es, c));
            t.mode == Setup && t.prev == s.prev && SameNumber(s, t)
  {
    hide NodeMachine.Step, Sound, Formed, Assigns, Pressing;
    if a < c {
      SetupGoesOn(l, n, es, a, c - 1);
      var before, e := After(l, n, es, c - 1), es[c - 1];
      NodeRuns.StepSound(l, before, e);
      if e.Button? { LookStep(l, before, e); } else { OtherStep(l, before, e); }
    }
  }

  /** A node in setup takes the next node number: both bytes of it, the flag, and FLiM mode. */
  lemma {:induction false} NumberTaken(l: Layout, n: Node, es: seq<Event>, a: nat, k: nat)
    requires Sound(l, n.store) && AllInRange(l, es) && a <= k < |es|
    requires After(l, n, es, a).mode == Setup && Undisturbed(es, a, k) && Assigns(es[k])
    ensures var t := After(l, n, es, k + 1);
            t.mode == Flim && t.store.flim && t.store.nodeNum == NumberIn(es[k].frame)
  {
    hide NodeMachine.Step, Sound, Formed, Undisturbed;
    SetupGoesOn(l, n, es, a, k);
    NodeRuns.StepSound(l, After(l, n, es, k), es[k]);
    OtherStep(l, After(l, n, es, k), es[k]);
  }

  lemma {:induction false} SetupPressGoesOn(l: Layout, n: Node, es: seq<Event>, a: nat, c: nat)
    requires Sound(l, n.store) && AllInRange(l, es) && a < c <= |es|
    requires After(l, n, es, a).mode == Setup && Pressing(es[a]) && NoRelease(es, a, c)
    ensures var (s, t) := (After(l, n, es, a), After(l, n, es, c));
            t.mode == PressedSetup && t.prev == s.prev && SameNumber(s, t)
  {
    hide NodeMachine.Step, Sound, Formed, Held, Released, Assigns;
    var before, e := After(l, n, es, c - 1), es[c - 1];
    NodeRuns.StepSound(l, before, e);
    if a < c - 1 {
      SetupPressGoesOn(l, n, es, a, c - 1);
      LookIsPressOrRelease(e);
      if e.Button? { LookStep(l, before, e); } else { OtherStep(l, before, e); }
    } else {
      LookStep(l, before, e);
    }
  }

  /** A press in setup that was longer than the debounce time leaves it for the mode before, and no node number that
      comes while the button is down is taken. */
  lemma {:induction false} SetupLeft(l: Layout, n: Node, es: seq<Event>, a: nat, c: nat)
    requires Sound(l, n.store) && AllInRange(l, es) && a < c < |es|
    requires After(l, n, es, a).mode == Setup && Pressing(es[a]) && NoRelease(es, a, c) && Released(es[c])
    ensures var (s, t) := (After(l, n, es, a), After(l, n, es, c + 1));
            SameNumber(s, t) && t.prev == s.prev && t.mode == if es[c].look.last > 100 then s.prev else Setup
  {
    hide NodeMachine.Step, Sound, Formed, NoRelease;
    SetupPressGoesOn(l, n, es, a, c);
    NodeRuns.StepSound(l, After(l, n, es, c), es[c]);
    LookStep(l, After(l, n, es, c), es[c]);
  }

  /** From SLiM: a press held for more than four seconds and let go, and then a node number, with no other press or
      number before it, make the node a FLiM node with that number. */
  lemma {:induction false} HoldThenNumber(l: Layout, n: Node, es: seq<Event>, a: nat, c: nat, k: nat)
    requires Sound(l, n.store) && AllInRange(l, es) && a < c < k < |es|
    requires After(l, n, es, a).mode == Slim && Pressing(es[a])
    requires NoRelease(es, a, c) && HeldWithin(es, a, c) && Released(es[c])
    requires Undisturbed(es, c + 1, k) && Assigns(es[k])
    ensures After(l, n, es, c + 1).mode == Setup && After(l, n, es, c + 1).prev == Slim
    ensures var t := After(l, n, es, k + 1);
            t.mode == Flim && t.store.flim && t.store.nodeNum == NumberIn(es[k].frame)
  {
    hide After, Sound, NoRelease, HeldWithin, Undisturbed, Assigns, NumberIn;
    PressOutcome(l, n, es, a, c);
    NumberTaken(l, n, es, c + 1, k);
  }

  // ---- Who the node is ----

  /** The number in the last frame that assigned one in setup, or the one at the start. */
  function LastNumber(l: Layout, n: Node, es: seq<Event>, k: nat): word
    requires Sound(l, n.store) && AllInRange(l, es) && k <= |es|
  {
    if k == 0 then n.store.nodeNum
    else if Assigns(es[k - 1]) && After(l, n, es, k - 1).mode == Setup then NumberIn(es[k - 1].frame)
    else LastNumber(l, n, es, k - 1)
  }

  lemma NumberStep(l: Layout, n: Node, e: Event)
    requires Formed(l, n.store) && n.mode != Unknown
    ensures var n' := NodeMachine.Step(l, n, e);
            if Assigns(e) && n.mode == Setup then n'.store.flim && n'.store.nodeNum == NumberIn(e.frame)
            else n'.store.flim ==> SameNumber(n, n')
  {
    hide NodeMachine.Step;
    if e.Button? { LookStep(l, n, e); } else { OtherStep(l, n, e); }
  }

  /** Over any run a FLiM node has the number last assigned to it in setup, or the one it started with, and a SLiM node
      has none. After a restart it is the same. */
  lemma {:induction false} NumberAfterRun(l: Layout, n: Node, es: seq<Event>, k: nat)
    requires SettledStart(l, n) && AllInRange(l, es) && k <= |es|
    ensures var st := After(l, n, es, k).store;
            && st.nodeNum == (if st.flim then LastNumber(l, n, es, k) else 0)
            && Fits(l, st.mem.flash) && Restarted(l, st.mem.flash).store.nodeNum == st.nodeNum
            && Restarted(l, st.mem.flash).mode == (if st.flim then Flim else Slim)
  {
    hide NodeMachine.Step, Sound, Formed, FlagAgrees, NumberIn, Assigns, Restarted;
    FlagAgreesAfter(l, n, es, k);
    assert FlagAgrees(n) && n.mode != Unknown by { Agreed(n); }
    Agreed(After(l, n, es, k));
    SameAfterRestart(l, After(l, n, es, k).store);
    if k > 0 {
      NumberAfterRun(l, n, es, k - 1);
      FlagAgreesAfter(l, n, es, k - 1);
      Agreed(After(l, n, es, k - 1));
      NodeRuns.StepSound(l, After(l, n, es, k - 1), es[k - 1]);
      NumberStep(l, After(l, n, es, k - 1), es[k - 1]);
    }
  }

  lemma Agreed(n: Node)
    requires FlagAgrees(n)
    ensures n.mode != Unknown && (!n.store.flim ==> n.store.nodeNum == 0)
  {}

  lemma SameAfterRestart(l: Layout, st: Store)
    requires Sound(l, st)
    ensures Fits(l, st.mem.flash) && Restarted(l, st.mem.flash).store == st
    ensures Restarted(l, st.mem.flash).mode == if st.flim then Flim else Slim
  {
    RestartRestores(l, st);
  }

  // ---- CAN id ----

  /** The CAN id that the event stores, if it is one from 1 to 99: a command (0x75) for this node, or an enumeration. */
  function NewCanId(n: Node, e: Event): Option<byte> {
    var id := if e.Enumerated? then e.id
              else if e.Receive? && e.frame.data[0] == 0x75 && NumberIn(e.frame) == n.store.nodeNum then e.frame.data[3]
              else 0;
    if 1 <= id <= 99 then Some(id) else None
  }

  /** The id last stored; going back to SLiM stores 1. */
  function LastCanId(l: Layout, n: Node, es: seq<Event>, k: nat): byte
    requires Sound(l, n.store) && AllInRange(l, es) && k <= |es|
  {
    if k == 0 then n.store.canId else
    var before := After(l, n, es, k - 1);
    if before.store.flim && !After(l, n, es, k).store.flim then 1
    else if NewCanId(before, es[k - 1]).Some? then NewCanId(before, es[k - 1]).value
    else LastCanId(l, n, es, k - 1)
  }

  lemma CanIdStep(l: Layout, n: Node, e: Event)
    requires Formed(l, n.store) && FlagAgrees(n)
    ensures var n' := NodeMachine.Step(l, n, e);
            n'.store.canId == if n.store.flim && !n'.store.flim then 1
                              else if NewCanId(n, e).Some? then NewCanId(n, e).value
                              else n.store.canId
  {
    hide Write, Flush, TeachSlot, ClearKeys, WriteKey, IsEvent, LearnSlot, Scan, NodeOf, NumberIn, EventOf, EventIn;
    if e.Receive? {
      ReadFromBytes(e.frame);
      NoEventIsCommand(0x75);
    }
  }

  /** Over any run the CAN id is the one last stored. */
  lemma {:induction false} CanIdAfterRun(l: Layout, n: Node, es: seq<Event>, k: nat)
    requires SettledStart(l, n) && AllInRange(l, es) && k <= |es|
    ensures var st := After(l, n, es, k).store;
            && st.canId == LastCanId(l, n, es, k)
            && Fits(l, st.mem.flash) && Restarted(l, st.mem.flash).store.canId == st.canId
  {
    hide NodeMachine.Step, Sound, Formed, FlagAgrees, NewCanId, Restarted;
    SameAfterRestart(l, After(l, n, es, k).store);
    if k > 0 {
      CanIdAfterRun(l, n, es, k - 1);
      FlagAgreesAfter(l, n, es, k - 1);
      NodeRuns.StepSound(l, After(l, n, es, k - 1), es[k - 1]);
      CanIdStep(l, After(l, n, es, k - 1), es[k - 1]);
    }
  }

  // ---- Node variables ----

  /** A command (0x96) for this node that sets variable `i`. */
  predicate SetsNv(n: Node, e: Event, i: nat) {
    e.Receive? && e.frame.data[0] == 0x96 && NumberIn(e.frame) == n.store.nodeNum && e.frame.data[3] == i
  }

  function NvAt(l: Layout, ram: seq<byte>, i: nat): byte
    requires Fits(l, ram) && 1 <= i <= l.numNvs
  {
    ram[l.nvsStart + i - 1]
  }

  /** The value last set, or the one at the start. */
  function LastNv(l: Layout, n: Node, es: seq<Event>, k: nat, i: nat): byte
    requires Sound(l, n.store) && AllInRange(l, es) && k <= |es| && Fits(l, n.store.mem.ram) && 1 <= i <= l.numNvs
  {
    if k == 0 then NvAt(l, n.store.mem.ram, i)
    else if SetsNv(After(l, n, es, k - 1), es[k - 1], i) then es[k - 1].frame.data[4]
    else LastNv(l, n, es, k - 1, i)
  }

  /** Two memories agree on all node variables. */
  predicate SameNvs(l: Layout, a: seq<byte>, b: seq<byte>) {
    Fits(l, a) && Fits(l, b) && forall x :: l.nvsStart <= x < l.nvsStart + l.numNvs ==> a[x] == b[x]
  }

  lemma KeyKeepsNvs(l: Layout, ram: seq<byte>, i: nat, k: Key)
    requires Fits(l, ram) && i < l.maxEvents
    ensures SameNvs(l, ram, PutKey(l, ram, i, k))
  {
    SlotFits(l, i);
    hide SlotAddr;
  }

  lemma EvKeepsNvs(l: Layout, ram: seq<byte>, i: nat, n: nat, v: byte)
    requires Fits(l, ram) && i < l.maxEvents && 1 <= n <= l.numEvs
    ensures SameNvs(l, ram, PutEv(l, ram, i, n, v))
  {
    SlotFits(l, i);
    hide SlotAddr;
  }

  /** `c` is `m` after some slots were cleared: still coherent, and with the same node variables. */
  predicate Kept(l: Layout, m: Memory, c: Memory) { Coherent(c) && SameNvs(l, m.ram, c.ram) }

  lemma KeptAtFirst(l: Layout, m: Memory)
    requires Coherent(m) && Fits(l, m.ram)
    ensures Kept(l, m, m) && Sized(m)
  {}

  lemma KeptOneMore(l: Layout, m: Memory, c: Memory, i: nat)
    requires Kept(l, m, c) && i < l.maxEvents
    ensures Sized(c) && Kept(l, m, WriteKey(l, c, i, UNUSED, false))
  {
    hide PutKey, WriteKey;
    WriteKeyInRam(l, c, i, UNUSED);
    KeyKeepsNvs(l, c.ram, i, UNUSED);
  }

  lemma {:induction false} ClearKeepsNvs(l: Layout, m: Memory, n: nat)
    requires Coherent(m) && Fits(l, m.ram) && n <= l.maxEvents
    ensures Kept(l, m, ClearKeys(l, m, n))
  {
    hide Kept, WriteKey, Coherent, Fits, Sized;
    KeptAtFirst(l, m);
    if n > 0 {
      ClearKeepsNvs(l, m, n - 1);
      KeptOneMore(l, m, ClearKeys(l, m, n - 1), n - 1);
    }
  }

  lemma CommandKeepsNvs(l: Layout, st: Store, c: Command)
    requires Sound(l, st) && Allowed(l, c)
    ensures Formed(l, st) && SameNvs(l, st.mem.ram, EventRuns.Step(l, st, c).mem.ram)
  {
    hide Sound, Learn, Unlearn, PutKey, PutEv, SameNvs, ClearKeys;
    SoundIsFormed(l, st);
    NvsStay(l, st.mem.ram);
    match c {
      case Teach(k, n, v) =>
        LearnSound(l, st, k, n, v);
        var i := LearnSlot(l, st, k);
        if i < l.maxEvents {
          var ram1 := if n < 2 then PutKey(l, st.mem.ram, i, k) else st.mem.ram;
          KeyKeepsNvs(l, st.mem.ram, i, k);
          EvKeepsNvs(l, ram1, i, n, v);
          NvsChain(l, st.mem.ram, ram1, PutEv(l, ram1, i, n, v));
        }
      case Forget(k) =>
        UnlearnSound(l, st, k);
        var i := Scan(l, st.mem.ram, k, 0);
        if i < l.maxEvents { KeyKeepsNvs(l, st.mem.ram, i, UNUSED); }
      case ClearEvents =>
        SettledStore(l, st);
        ClearKeepsNvs(l, st.mem, l.maxEvents);
        FlushSettles(ClearKeys(l, st.mem, l.maxEvents));
    }
  }

  lemma SettledStore(l: Layout, st: Store)
    requires Sound(l, st)
    ensures Coherent(st.mem)
  {
    SettledIsCoherent(st.mem);
  }

  lemma NvsStay(l: Layout, a: seq<byte>)
    requires Fits(l, a)
    ensures SameNvs(l, a, a)
  {}

  lemma NvsChain(l: Layout, a: seq<byte>, b: seq<byte>, c: seq<byte>)
    requires SameNvs(l, a, b) && SameNvs(l, b, c)
    ensures SameNvs(l, a, c)
  {}

  lemma IdentityKeepsNvs(l: Layout, st: Store, flim: bool, canId: byte, nn: word)
    requires Sound(l, st)
    ensures Sized(st.mem)
    ensures SameNvs(l, st.mem.ram, SetFlim(st, flim).mem.ram)
    ensures SameNvs(l, st.mem.ram, EventStore.SetCanId(st, canId).mem.ram)
    ensures SameNvs(l, st.mem.ram, SetNodeNum(st, nn).mem.ram)
  {
    hide Write, Flush, HighByte, LowByte, IndexOf, Collides;
    WriteSettles(st.mem, OFS_FLIM, if flim then 1 else 0);
    WriteSettles(st.mem, OFS_CANID, canId);
    SetNodeNumSettles(st, nn);
  }

  lemma NumberKeepsNvs(l: Layout, st: Store, nn: word, flim: bool, canId: byte)
    requires Sound(l, st)
    ensures Sized(st.mem)
    ensures SameNvs(l, st.mem.ram, SetFlim(SetNodeNum(st, nn), flim).mem.ram)
    ensures SameNvs(l, st.mem.ram, EventStore.SetCanId(SetFlim(SetNodeNum(st, nn), flim), canId).mem.ram)
  {
    hide Sound, SetFlim, SetNodeNum, EventStore.SetCanId, SameNvs;
    SoundIsFormed(l, st);
    IdentityKeepsNvs(l, st, flim, canId, nn);
    var st1 := SetNodeNum(st, nn);
    SetNodeNumSound(l, st, nn);
    SoundIsFormed(l, st1);
    IdentityKeepsNvs(l, st1, flim, canId, nn);
    var st2 := SetFlim(st1, flim);
    SetFlimSound(l, st1, flim);
    SoundIsFormed(l, st2);
    IdentityKeepsNvs(l, st2, flim, canId, nn);
    NvsChain(l, st.mem.ram, st1.mem.ram, st2.mem.ram);
    NvsChain(l, st.mem.ram, st2.mem.ram, EventStore.SetCanId(st2, canId).mem.ram);
  }

  /** A command that sets a node variable. */
  lemma NvWritten(l: Layout, n: Node, f: Frame)
    requires Sound(l, n.store) && InRange(l, Receive(f)) && f.data[0] == 0x96
    ensures Formed(l, n.store)
    ensures OnFrame(l, n, f).store == if NumberIn(f) == n.store.nodeNum then SetNv(l, n.store, f.data[3], f.data[4])
                                      else n.store
  {
    hide Sound, Formed, SetNv, Learn, Unlearn, ClearAll, IsEvent, NodeOf, NumberIn, EventOf, EventIn;
    SoundIsFormed(l, n.store);
    ReadFromBytes(f);
    NoEventIsCommand(0x96);
  }

  /** Any other event that carries out no command on the event table. */
  lemma OthersKeepNvs(l: Layout, n: Node, e: Event)
    requires Sound(l, n.store) && InRange(l, e) && CommandOf(n, e) == [] && !(e.Receive? && e.frame.data[0] == 0x96)
    ensures Formed(l, n.store) && SameNvs(l, n.store.mem.ram, NodeMachine.Step(l, n, e).store.mem.ram)
  {
    hide Sound, Formed, SetFlim, SetNodeNum, EventStore.SetCanId, Learn, Unlearn, ClearAll, IsEvent, NodeOf, EventOf,
         EventIn, SameNvs, InRange;
    SoundIsFormed(l, n.store);
    SoundFits(l, n.store);
    NvsStay(l, n.store.mem.ram);
    match e {
      case Button(s) => NumberKeepsNvs(l, n.store, 0, false, 1);
      case Enumerated(id) => IdentityKeepsNvs(l, n.store, false, id, 0);
      case Receive(f) =>
        ReadFromBytes(f);
        IdentityKeepsNvs(l, n.store, false, f.data[3], 0);
        NumberKeepsNvs(l, n.store, NodeOf(f), true, 1);
    }
  }

  lemma SoundFits(l: Layout, st: Store)
    requires Sound(l, st)
    ensures Fits(l, st.mem.ram)
  {}

  lemma NvStep(l: Layout, n: Node, e: Event, i: nat)
    requires Sound(l, n.store) && InRange(l, e) && 1 <= i <= l.numNvs
    ensures Formed(l, n.store) && Fits(l, n.store.mem.ram) && Fits(l, NodeMachine.Step(l, n, e).store.mem.ram)
    ensures NvAt(l, NodeMachine.Step(l, n, e).store.mem.ram, i)
            == if SetsNv(n, e, i) then e.frame.data[4] else NvAt(l, n.store.mem.ram, i)
  {
    SoundIsFormed(l, n.store);
    SoundFits(l, n.store);
    if e.Receive? && e.frame.data[0] == 0x96 {
      NvWritten(l, n, e.frame);
      WriteSettles(n.store.mem, l.nvsStart + e.frame.data[3] - 1, e.frame.data[4]);
      hide Sound, Formed, OnFrame, Write, IndexOf, Collides, NumberIn;
    } else if CommandOf(n, e) == [] {
      hide Sound, Formed, NodeMachine.Step, CommandOf;
      OthersKeepNvs(l, n, e);
    } else {
      hide Sound, Formed, NodeMachine.Step, EventRuns.Step, CommandOf;
      CommandStep(l, n, e);
      CommandKeepsNvs(l, n.store, CommandOf(n, e)[0]);
    }
  }

  /** Over any run, and after a restart, a node variable has the value of the last command that set it. */
  lemma {:induction false} NvAfterRun(l: Layout, n: Node, es: seq<Event>, k: nat, i: nat)
    requires Sound(l, n.store) && AllInRange(l, es) && k <= |es| && 1 <= i <= l.numNvs
    ensures Fits(l, n.store.mem.ram)
    ensures var st := After(l, n, es, k).store;
            && Fits(l, st.mem.ram) && NvAt(l, st.mem.ram, i) == LastNv(l, n, es, k, i)
            && Fits(l, st.mem.flash) && NvAt(l, Restarted(l, st.mem.flash).store.mem.ram, i) == LastNv(l, n, es, k, i)
  {
    hide NodeMachine.Step, Sound, Formed, SetsNv, NvAt, Restarted;
    SoundFits(l, n.store);
    SoundFits(l, After(l, n, es, k).store);
    SameAfterRestart(l, After(l, n, es, k).store);
    if k > 0 {
      NvAfterRun(l, n, es, k - 1, i);
      NodeRuns.StepSound(l, After(l, n, es, k - 1), es[k - 1]);
      NvStep(l, After(l, n, es, k - 1), es[k - 1], i);
    }
  }

  // ---- What is consumed ----

  /** Which command frames the library consumes, by their bytes: those of learn mode while it is on, those for this
      node, the query for all nodes (0x0D), and those of setup. */
  lemma {:induction false} ConsumedExactlyWhen(l: Layout, n: Node, f: Frame)
    requires Formed(l, n.store)
    ensures Consumed(l, n, f) <==>
              || (n.learn && f.data[0] in {0x53, 0x54, 0x55, 0x95, 0xB2, 0xD2, 0xF5})
              || (NumberIn(f) == n.store.nodeNum
                  && f.data[0] in {0x53, 0x56, 0x57, 0x58, 0x5D, 0x71, 0x72, 0x73, 0x75, 0x96, 0x9C})
              || f.data[0] == 0x0D || (n.mode == Setup && f.data[0] in {0x10, 0x11, 0x42})
  {
    hide Formed, Learn, Unlearn, ClearAll, NodeOf, NumberIn, EventOf, EventIn;
    ReadFromBytes(f);
  }

  // ---- A node that has not been told its mode ----

  predicate NoLook(es: seq<Event>, k: nat) { k <= |es| && forall i :: 0 <= i < k ==> !es[i].Button? }

  lemma {:induction false} StaysUntold(l: Layout, n: Node, es: seq<Event>, k: nat)
    requires Sound(l, n.store) && AllInRange(l, es) && n.mode == Unknown && NoLook(es, k)
    ensures After(l, n, es, k).mode == Unknown && SameNumber(n, After(l, n, es, k))
  {
    hide NodeMachine.Step, Sound, Formed, Assigns;
    if k > 0 {
      StaysUntold(l, n, es, k - 1);
      NodeRuns.StepSound(l, After(l, n, es, k - 1), es[k - 1]);
      OtherStep(l, After(l, n, es, k - 1), es[k - 1]);
    }
  }

  lemma UntoldLook(l: Layout, n: Node, e: Event)
    requires Formed(l, n.store) && n.mode == Unknown && e.Button?
    ensures NodeMachine.Step(l, n, e) == SetSlim(n)
  {
    hide SetSlim;
  }

  /** A node whose button is first looked at before it was told its mode keeps its number and its flag until that look,
      whatever frames come, and then loses both: it is a SLiM node again, pressed or not. */
  lemma {:induction false} FirstLookReverts(l: Layout, n: Node, es: seq<Event>, k: nat)
    requires Sound(l, n.store) && AllInRange(l, es) && n.mode == Unknown && NoLook(es, k) && k < |es| && es[k].Button?
    ensures SameNumber(n, After(l, n, es, k))
    ensures var t := After(l, n, es, k + 1);
            t.mode == Slim && !t.store.flim && t.store.nodeNum == 0 && t.store.canId == 1
  {
    hide NodeMachine.Step, Sound, SetSlim;
    StaysUntold(l, n, es, k);
    NodeRuns.StepSound(l, After(l, n, es, k), es[k]);
    UntoldLook(l, After(l, n, es, k), es[k]);
    SlimReached(After(l, n, es, k));
  }
}
