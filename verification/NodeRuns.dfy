/** What holds over every run of a node from a settled start: the FLiM flag, learn mode, the events. */
module NodeRuns {
  import opened Can
  import opened FlashCache
  import opened EventTable
  import opened EventStore
  import opened EventRuns
  import opened NodeMachine

  // ---- Every event keeps the store sound ----

  lemma SoundIsFormed(l: Layout, st: Store)
    requires Sound(l, st)
    ensures Formed(l, st)
  {}

  lemma SetSlimSound(l: Layout, n: Node)
    requires Sound(l, n.store)
    ensures Sized(n.store.mem) && Sound(l, SetSlim(n).store)
  {
    hide Sound, SetFlim, EventStore.SetCanId, SetNodeNum;
    SoundIsFormed(l, n.store);
    SetNodeNumSound(l, n.store, 0);
    var st1 := SetNodeNum(n.store, 0);
    SetFlimSound(l, st1, false);
    SoundIsFormed(l, st1);
    SetCanIdSound(l, SetFlim(st1, false), 1);
  }

  lemma FrameSound(l: Layout, n: Node, f: Frame)
    requires Sound(l, n.store) && InRange(l, Receive(f))
    ensures Formed(l, n.store) && Sound(l, OnFrame(l, n, f).store)
  {
    hide Sound, SetFlim, EventStore.SetCanId, SetNodeNum, Learn, Unlearn, ClearAll, Write, Formed, IsEvent, Word;
    SoundIsFormed(l, n.store);
    var opc := Opcode(f);
    if opc == OPC_NNCLR {
      ClearAllSound(l, n.store);
    } else if opc == OPC_EVULN {
      UnlearnSound(l, n.store, EventOf(f));
    } else if opc == OPC_EVLRN && f.data[5] != 0 {
      LearnSound(l, n.store, EventOf(f), f.data[5], f.data[6]);
    } else if opc == OPC_EVLRNI && f.data[6] != 0 {
      LearnSound(l, n.store, EventOf(f), f.data[6], f.data[7]);
    } else if opc == OPC_NVSET {
      SetNvSound(l, n.store, f.data[3], f.data[4]);
    } else if opc == OPC_CANID {
      SetCanIdSound(l, n.store, f.data[3]);
    } else if opc == OPC_SNN {
      SetNodeNumSound(l, n.store, NodeOf(f));
      SetFlimSound(l, SetNodeNum(n.store, NodeOf(f)), true);
    }
  }

  lemma {:induction false} StepSound(l: Layout, n: Node, e: Event)
    requires Sound(l, n.store) && InRange(l, e)
    ensures Formed(l, n.store) && Sound(l, NodeMachine.Step(l, n, e).store)
  {
    hide Sound, OnFrame, EventStore.SetCanId, SetSlim, Formed, InRange;
    SoundIsFormed(l, n.store);
    match e {
      case Button(s) => SetSlimSound(l, n);
      case Receive(f) => FrameSound(l, n, f);
      case Enumerated(id) => SetCanIdSound(l, n.store, id);
    }
  }

  predicate AllInRange(l: Layout, es: seq<Event>) { forall e :: e in es ==> InRange(l, e) }

  /** The node after the first `k` events. */
  function After(l: Layout, n: Node, es: seq<Event>, k: nat): (n': Node)
    requires Sound(l, n.store) && AllInRange(l, es) && k <= |es|
    ensures Sound(l, n'.store)
  {
    if k == 0 then n else
    var before := After(l, n, es, k - 1);
    StepSound(l, before, es[k - 1]);
    NodeMachine.Step(l, before, es[k - 1])
  }

  // ---- The FLiM flag ----

  /** The mode the node is in, or was in before the press that is still going on. */
  function SettledMode(n: Node): Mode { if n.mode == Slim || n.mode == Flim then n.mode else n.prev }

  predicate FlagAgrees(n: Node) {
    && n.mode != Unknown && (SettledMode(n) == Slim || SettledMode(n) == Flim)
    && n.store.flim == (SettledMode(n) == Flim) && (!n.store.flim ==> n.store.nodeNum == 0)
  }

  lemma {:induction false} FlagStep(l: Layout, n: Node, e: Event)
    requires Formed(l, n.store) && FlagAgrees(n)
    ensures FlagAgrees(NodeMachine.Step(l, n, e))
    ensures !n.store.flim && NodeMachine.Step(l, n, e).store.flim ==>
              e.Receive? && Opcode(e.frame) == OPC_SNN && n.mode == Setup && n.prev == Slim
  {
    hide Write, Flush, TeachSlot, ClearKeys, WriteKey, IsEvent, Word, LearnSlot, Scan;
  }

  lemma {:induction false} FlagAgreesAfter(l: Layout, n: Node, es: seq<Event>, k: nat)
    requires Sound(l, n.store) && AllInRange(l, es) && k <= |es| && FlagAgrees(n)
    ensures FlagAgrees(After(l, n, es, k))
  {
    hide FlagAgrees, NodeMachine.Step, Sound, Formed;
    if k > 0 {
      FlagAgreesAfter(l, n, es, k - 1);
      StepSound(l, After(l, n, es, k - 1), es[k - 1]);
      FlagStep(l, After(l, n, es, k - 1), es[k - 1]);
    }
  }

  predicate Held(e: Event) { e.Button? && e.look.pressed && e.look.current > 4000 }

  predicate Released(e: Event) { e.Button? && !e.look.pressed }

  predicate Changing(m: Mode) { m == Flashing || m == Setup || m == PressedSetup }

  /** Event `i` was the look that found the button held for more than four seconds; from there to moment
      `k` the node has been changing its mode. */
  predicate HoldBegan(l: Layout, n: Node, es: seq<Event>, i: nat, k: nat)
    requires Sound(l, n.store) && AllInRange(l, es) && k <= |es|
  {
    && i < k && Held(es[i]) && After(l, n, es, i).mode == Pressed && After(l, n, es, i).prev == Slim
    && forall m :: i < m <= k ==> Changing(After(l, n, es, m).mode)
  }

  /** ... and it was let go at event `j` since. */
  predicate HoldLed(l: Layout, n: Node, es: seq<Event>, i: nat, j: nat, k: nat)
    requires Sound(l, n.store) && AllInRange(l, es) && k <= |es|
  {
    HoldBegan(l, n, es, i, k) && i < j < k && Released(es[j])
  }

  lemma ModeStep(l: Layout, n: Node, e: Event)
    requires Formed(l, n.store) && FlagAgrees(n)
    ensures var n' := NodeMachine.Step(l, n, e);
            && (n'.mode == Flashing ==> n'.prev == n.prev && (n.mode == Flashing || (n.mode == Pressed && Held(e))))
            && (n'.mode in {Setup, PressedSetup} && n'.prev == Slim ==>
                  n.prev == Slim && (n.mode in {Setup, PressedSetup} || (n.mode == Flashing && Released(e))))
  {
    hide Learn, Unlearn, ClearAll, EventStore.SetCanId, SetFlim, SetNodeNum, NvSet, IsEvent, Word;
  }

  lemma HoldGoesOn(l: Layout, n: Node, es: seq<Event>, i: nat, k: nat)
    requires Sound(l, n.store) && AllInRange(l, es) && k < |es|
    requires HoldBegan(l, n, es, i, k) && Changing(After(l, n, es, k + 1).mode)
    ensures HoldBegan(l, n, es, i, k + 1)
  {
    hide After, Held;
  }

  /** In setup that was reached from SLiM there has been a hold of more than four seconds, and a release. */
  lemma {:induction false} SetupWasHeld(l: Layout, n: Node, es: seq<Event>, k: nat)
    requires Sound(l, n.store) && AllInRange(l, es) && k <= |es|
    requires FlagAgrees(n) && (n.mode == Slim || n.mode == Flim)
    ensures var s := After(l, n, es, k);
            && (s.mode == Flashing && s.prev == Slim ==> exists i :: HoldBegan(l, n, es, i, k))
            && (s.mode in {Setup, PressedSetup} && s.prev == Slim ==> exists i, j :: HoldLed(l, n, es, i, j, k))
  {
    hide NodeMachine.Step, Sound, Formed, Held, Released, FlagAgrees;
    if k > 0 {
      FlagAgreesAfter(l, n, es, k - 1);
      SetupWasHeld(l, n, es, k - 1);
      var before := After(l, n, es, k - 1);
      var s := After(l, n, es, k);
      var e := es[k - 1];
      StepSound(l, before, e);
      ModeStep(l, before, e);
      if s.mode == Flashing && s.prev == Slim {
        if before.mode == Flashing {
          var i :| HoldBegan(l, n, es, i, k - 1);
          HoldGoesOn(l, n, es, i, k - 1);
        } else {
          assert HoldBegan(l, n, es, k - 1, k);
        }
      } else if s.mode in {Setup, PressedSetup} && s.prev == Slim {
        if before.mode == Flashing {
          var i :| HoldBegan(l, n, es, i, k - 1);
          HoldGoesOn(l, n, es, i, k - 1);
          assert HoldLed(l, n, es, i, k - 1, k);
        } else {
          var i, j :| HoldLed(l, n, es, i, j, k - 1);
          HoldGoesOn(l, n, es, i, k - 1);
          assert HoldLed(l, n, es, i, j, k);
        }
      }
    }
  }

  /** A node starts in SLiM or FLiM, as its stored flag says. */
  predicate SettledStart(l: Layout, n: Node) {
    Sound(l, n.store) && FlagAgrees(n) && (n.mode == Slim || n.mode == Flim)
  }

  /** The node as it comes up from the flash, in the mode that the stored flag stands for. */
  function Restarted(l: Layout, flash: seq<byte>): Node
    requires Fits(l, flash)
  {
    var st := Begin(l, flash);
    var mode := if st.flim then Flim else Slim;
    Node(st, false, mode, mode)
  }

  /** Switching the node off after any run and on again finds every event, variable and the identity as
      they were, and starts it settled. */
  lemma {:induction false} RestartAfterRun(l: Layout, n: Node, es: seq<Event>)
    requires SettledStart(l, n) && AllInRange(l, es)
    ensures var st := After(l, n, es, |es|).store;
            && Fits(l, st.mem.flash) && Restarted(l, st.mem.flash).store == st
            && SettledStart(l, Restarted(l, st.mem.flash))
  {
    hide After, AllInRange, IndexOf, Collides;
    var st := After(l, n, es, |es|).store;
    RestartRestores(l, st);
    FlagAgreesAfter(l, n, es, |es|);
  }

  /** The flag turns from false to true only on a node number assigned in setup mode, and only when the
      button had been held for more than four seconds in SLiM and let go, with no mode settled in between. */
  lemma {:induction false} FlimOnlyAfterHold(l: Layout, n: Node, es: seq<Event>, k: nat)
    requires SettledStart(l, n) && AllInRange(l, es) && k < |es|
    requires !After(l, n, es, k).store.flim && After(l, n, es, k + 1).store.flim
    ensures es[k].Receive? && Opcode(es[k].frame) == OPC_SNN && After(l, n, es, k).mode == Setup
    ensures exists i, j :: HoldLed(l, n, es, i, j, k)
  {
    hide FlagAgrees, NodeMachine.Step, Sound, Formed, HoldLed, Held;
    FlagAgreesAfter(l, n, es, k);
    StepSound(l, After(l, n, es, k), es[k]);
    FlagStep(l, After(l, n, es, k), es[k]);
    SetupWasHeld(l, n, es, k);
  }

  // ---- What the bytes of a frame say ----

  /** The numbers in bytes 1 and 2, and 3 and 4, the upper byte first. */
  function NumberIn(f: Frame): word { f.data[1] as nat * 0x100 + f.data[2] }

  function EventNumberIn(f: Frame): word { f.data[3] as nat * 0x100 + f.data[4] }

  function EventIn(f: Frame): Key { Key(NumberIn(f), EventNumberIn(f)) }

  lemma ReadFromBytes(f: Frame)
    ensures Opcode(f) == f.data[0] && NodeOf(f) == NumberIn(f) && EventOf(f) == EventIn(f)
  {}

  // ---- Learn mode ----

  /** A command (0x53) that puts the node into learn mode: it is for this node, and the node is in FLiM. */
  predicate Opens(n: Node, e: Event) {
    e.Receive? && e.frame.data[0] == 0x53 && NumberIn(e.frame) == n.store.nodeNum && n.store.flim
  }

  /** A command that ends learn mode: the release (0x54), for whatever node, or learn mode for another node. */
  predicate Closes(n: Node, e: Event) {
    && e.Receive?
    && (e.frame.data[0] == 0x54 || (e.frame.data[0] == 0x53 && NumberIn(e.frame) != n.store.nodeNum))
  }

  lemma LearnStep(l: Layout, n: Node, e: Event)
    requires Formed(l, n.store)
    ensures NodeMachine.Step(l, n, e).learn == (Opens(n, e) || (n.learn && !Closes(n, e)))
  {
    hide Learn, Unlearn, ClearAll, EventStore.SetCanId, SetFlim, SetNodeNum, NvSet, NodeOf, NumberIn;
    if e.Receive? { ReadFromBytes(e.frame); }
  }

  /** Event `i` opened learn mode and nothing up to moment `k` has closed it. */
  predicate OpenSince(l: Layout, n: Node, es: seq<Event>, i: nat, k: nat)
    requires Sound(l, n.store) && AllInRange(l, es) && k <= |es|
  {
    && i < k && Opens(After(l, n, es, i), es[i])
    && forall m :: i < m < k ==> !Closes(After(l, n, es, m), es[m])
  }

  /** The node is in learn mode exactly when some command opened it and none has closed it since. */
  lemma {:induction false} LearningExactlyWhen(l: Layout, n: Node, es: seq<Event>, k: nat)
    requires Sound(l, n.store) && AllInRange(l, es) && k <= |es| && !n.learn
    ensures After(l, n, es, k).learn <==> exists i :: OpenSince(l, n, es, i, k)
  {
    hide NodeMachine.Step, Sound, Formed, Opens, Closes;
    if k > 0 {
      LearningExactlyWhen(l, n, es, k - 1);
      var before, e := After(l, n, es, k - 1), es[k - 1];
      StepSound(l, before, e);
      LearnStep(l, before, e);
      if After(l, n, es, k).learn {
        if Opens(before, e) {
          assert OpenSince(l, n, es, k - 1, k);
        } else {
          var i :| OpenSince(l, n, es, i, k - 1);
          assert OpenSince(l, n, es, i, k);
        }
      }
      forall i: nat | OpenSince(l, n, es, i, k)
        ensures After(l, n, es, k).learn
      {
        if i < k - 1 { assert OpenSince(l, n, es, i, k - 1); }
      }
    }
  }

  // ---- The events ----

  function TeachCommand(f: Frame, n: byte, v: byte): seq<Command> {
    if n == 0 then [] else [Teach(EventIn(f), n, v)]
  }

  /** The command on the event table that a frame carries out, if any: only in learn mode. */
  function CommandOf(n: Node, e: Event): (cs: seq<Command>)
    ensures |cs| <= 1
  {
    if !e.Receive? || !n.learn then [] else
    var f := e.frame;
    if f.data[0] == 0x55 then [ClearEvents]
    else if f.data[0] == 0x95 then [Forget(EventIn(f))]
    else if f.data[0] == 0xD2 then TeachCommand(f, f.data[5], f.data[6])
    else if f.data[0] == 0xF5 then TeachCommand(f, f.data[6], f.data[7])
    else []
  }

  lemma NoEventIsCommand(opc: byte)
    ensures opc in {OPC_NNCLR, OPC_EVULN, OPC_EVLRN, OPC_EVLRNI} ==> !IsEvent(opc)
    ensures opc in {OPC_NVSET, OPC_CANID, OPC_SNN, OPC_NNLRN, OPC_NNULN} ==> !IsEvent(opc)
  {}

  /** Two memories agree wherever events lie. */
  predicate SameArea(l: Layout, a: seq<byte>, b: seq<byte>) {
    Fits(l, a) && Fits(l, b) && forall x :: l.eventsStart <= x < l.EventsEnd() ==> a[x] == b[x]
  }

  lemma CommandStep(l: Layout, n: Node, e: Event)
    requires Sound(l, n.store) && InRange(l, e) && CommandOf(n, e) != []
    ensures Formed(l, n.store) && Allowed(l, CommandOf(n, e)[0])
    ensures NodeMachine.Step(l, n, e).store == EventRuns.Step(l, n.store, CommandOf(n, e)[0])
  {
    hide Sound, Formed, Learn, Unlearn, ClearAll, IsEvent, Word, NodeOf, EventOf, EventIn;
    SoundIsFormed(l, n.store);
    ReadFromBytes(e.frame);
    NoEventIsCommand(Opcode(e.frame));
  }

  lemma IdentityArea(l: Layout, st: Store, flim: bool, canId: byte, nn: word)
    requires Sound(l, st)
    ensures SameArea(l, st.mem.ram, SetFlim(st, flim).mem.ram)
    ensures SameArea(l, st.mem.ram, EventStore.SetCanId(st, canId).mem.ram)
    ensures SameArea(l, st.mem.ram, SetNodeNum(st, nn).mem.ram)
  {
    hide Write, Flush, HighByte, LowByte, IndexOf, Collides;
    WriteSettles(st.mem, OFS_FLIM, if flim then 1 else 0);
    WriteSettles(st.mem, OFS_CANID, canId);
    SetNodeNumSettles(st, nn);
  }

  lemma NvArea(l: Layout, st: Store, index: byte, v: byte)
    requires Sound(l, st) && 1 <= index <= l.numNvs
    ensures SameArea(l, st.mem.ram, SetNv(l, st, index, v).mem.ram)
  {
    hide Write, IndexOf, Collides;
    WriteSettles(st.mem, l.nvsStart + index - 1, v);
  }

  lemma NodeNumArea(l: Layout, st: Store, nn: word, flim: bool)
    requires Sound(l, st)
    ensures Sized(st.mem) && Sound(l, SetFlim(SetNodeNum(st, nn), flim))
    ensures SameArea(l, st.mem.ram, SetFlim(SetNodeNum(st, nn), flim).mem.ram)
  {
    hide Sound, SetFlim, SetNodeNum;
    SoundIsFormed(l, st);
    SetNodeNumSound(l, st, nn);
    SetFlimSound(l, SetNodeNum(st, nn), flim);
    IdentityArea(l, st, flim, 0, nn);
    IdentityArea(l, SetNodeNum(st, nn), flim, 0, nn);
  }

  lemma SlimArea(l: Layout, n: Node)
    requires Sound(l, n.store)
    ensures Sized(n.store.mem) && SameArea(l, n.store.mem.ram, SetSlim(n).store.mem.ram)
  {
    hide Sound, SetFlim, SetNodeNum, EventStore.SetCanId;
    NodeNumArea(l, n.store, 0, false);
    SoundIsFormed(l, n.store);
    SetNodeNumSound(l, n.store, 0);
    SoundIsFormed(l, SetNodeNum(n.store, 0));
    SoundIsFormed(l, SetFlim(SetNodeNum(n.store, 0), false));
    IdentityArea(l, SetFlim(SetNodeNum(n.store, 0), false), false, 1, 0);
  }

  /** Everything else leaves every event byte alone. */
  lemma QuietStep(l: Layout, n: Node, e: Event)
    requires Sound(l, n.store) && InRange(l, e) && CommandOf(n, e) == []
    ensures Formed(l, n.store) && SameArea(l, n.store.mem.ram, NodeMachine.Step(l, n, e).store.mem.ram)
  {
    hide Sound, Formed, SetSlim, SetFlim, SetNodeNum, EventStore.SetCanId, Learn, Unlearn, ClearAll, IsEvent, Word,
        SameArea, Write;
    SoundIsFormed(l, n.store);
    SoundArea(l, n.store);
    match e {
      case Button(s) => SlimArea(l, n);
      case Enumerated(id) => IdentityArea(l, n.store, false, id, 0);
      case Receive(f) =>
        IdentityArea(l, n.store, false, f.data[3], 0);
        NodeNumArea(l, n.store, NodeOf(f), true);
        if Opcode(f) == OPC_NVSET { NvArea(l, n.store, f.data[3], f.data[4]); }
    }
  }

  lemma SoundArea(l: Layout, st: Store)
    requires Sound(l, st)
    ensures SameArea(l, st.mem.ram, st.mem.ram)
  {}

  lemma AreaHolds(l: Layout, a: seq<byte>, b: seq<byte>, t: Table)
    requires SameArea(l, a, b) && Holds(l, a, t)
    ensures Holds(l, b, t)
  {
    hide KeyAt, EvAt;
    forall i | 0 <= i < l.maxEvents
      ensures KeyAt(l, a, i) == KeyAt(l, b, i)
    {
      SameEvents(l, a, b, i);
    }
    forall i, n | 0 <= i < l.maxEvents && 1 <= n <= l.numEvs
      ensures EvAt(l, b, i, n) == t.evs[i][n - 1]
    {
      SameEvents(l, a, b, i);
    }
  }

  /** The commands that the first `k` events of a run carried out. */
  function Commands(l: Layout, n: Node, es: seq<Event>, k: nat): (cs: seq<Command>)
    requires Sound(l, n.store) && AllInRange(l, es) && k <= |es|
  {
    if k == 0 then [] else Commands(l, n, es, k - 1) + CommandOf(After(l, n, es, k - 1), es[k - 1])
  }

  lemma CommandAllowed(l: Layout, n: Node, e: Event)
    requires InRange(l, e) && CommandOf(n, e) != []
    ensures Allowed(l, CommandOf(n, e)[0])
  {
    hide Word;
  }

  lemma {:induction false} CommandsAllowed(l: Layout, n: Node, es: seq<Event>, k: nat)
    requires Sound(l, n.store) && AllInRange(l, es) && k <= |es|
    ensures forall c :: c in Commands(l, n, es, k) ==> Allowed(l, c)
  {
    hide Sound, CommandOf, After, InRange, Allowed;
    if k > 0 {
      CommandsAllowed(l, n, es, k - 1);
      var s := After(l, n, es, k - 1);
      if CommandOf(s, es[k - 1]) != [] {
        CommandAllowed(l, s, es[k - 1]);
        assert CommandOf(s, es[k - 1]) == [CommandOf(s, es[k - 1])[0]];
      }
    }
  }

  /** After any run of frames, button presses and enumerations the sector holds exactly the table that the
      commands accepted in learn mode make of it. */
  lemma {:induction false} TableAfterFrames(l: Layout, n: Node, t: Table, es: seq<Event>, k: nat)
    requires Sound(l, n.store) && AllInRange(l, es) && k <= |es| && Holds(l, n.store.mem.ram, t)
    ensures forall c :: c in Commands(l, n, es, k) ==> Allowed(l, c)
    ensures Holds(l, After(l, n, es, k).store.mem.ram, RunTable(l, t, Commands(l, n, es, k)))
  {
    hide Sound, KeysHeld, EvsHeld, NodeMachine.Step, EventRuns.Step, TableStep, CommandOf, InRange, Allowed, Formed;
    CommandsAllowed(l, n, es, k);
    if k > 0 {
      TableAfterFrames(l, n, t, es, k - 1);
      var s, e, cs := After(l, n, es, k - 1), es[k - 1], Commands(l, n, es, k - 1);
      StepSound(l, s, e);
      var c := CommandOf(s, e);
      if c == [] {
        assert cs + c == cs;
        QuietStep(l, s, e);
        AreaHolds(l, s.store.mem.ram, After(l, n, es, k).store.mem.ram, RunTable(l, t, cs));
      } else {
        CommandStep(l, s, e);
        StepHeld(l, s.store, RunTable(l, t, cs), c[0]);
        assert (cs + c)[..|cs + c| - 1] == cs && (cs + c)[|cs + c| - 1] == c[0];
      }
    }
  }

  /** If any event or event variable differs before and after one frame, the frame is one of the four
      learning commands, and an earlier command opened learn mode that nothing has closed since. */
  lemma {:induction false} EventsChangeOnlyWhileLearning(l: Layout, n: Node, es: seq<Event>, k: nat, i: nat)
    requires Sound(l, n.store) && AllInRange(l, es) && k < |es| && i < l.maxEvents && !n.learn && l.Valid()
    requires var a, b := After(l, n, es, k).store.mem.ram, After(l, n, es, k + 1).store.mem.ram;
             && Fits(l, a) && Fits(l, b)
             && (KeyAt(l, a, i) != KeyAt(l, b, i)
                 || exists x :: 1 <= x <= l.numEvs && EvAt(l, a, i, x) != EvAt(l, b, i, x))
    ensures es[k].Receive? && es[k].frame.data[0] in {0x55, 0x95, 0xD2, 0xF5}
    ensures exists o :: OpenSince(l, n, es, o, k)
  {
    hide Sound, NodeMachine.Step, InRange, KeyAt, EvAt, OpenSince, Formed;
    var s := After(l, n, es, k);
    StepSound(l, s, es[k]);
    if CommandOf(s, es[k]) == [] {
      QuietStep(l, s, es[k]);
      SameEvents(l, s.store.mem.ram, After(l, n, es, k + 1).store.mem.ram, i);
      assert false;
    }
    LearningExactlyWhen(l, n, es, k);
  }

  // ---- Numbers out of range ----

  /** A byte outside `lo..hi` differs. */
  predicate Strays(a: seq<byte>, b: seq<byte>, lo: nat, hi: nat) {
    exists x :: 0 <= x < |a| == |b| && !(lo <= x < hi) && a[x] != b[x]
  }

  /** Setting a node variable changes a byte that is none exactly when the index is out of range, not
      refused, and leads to a byte of the sector that holds another value. */
  lemma {:induction false} NvStraysExactlyWhen(l: Layout, st: Store, index: byte, v: byte)
    requires Sound(l, st)
    ensures Fits(l, st.mem.ram) && Sized(st.mem)
    ensures var a := l.nvsStart + index - 1;
            Strays(st.mem.ram, NvSet(l, st, index, v).mem.ram, l.nvsStart, l.nvsStart + l.numNvs)
            <==> !(1 <= index <= l.numNvs) && !(index == 0 && l.numNvs == 0) && a < SECTOR && st.mem.ram[a] != v
  {
    hide Flush, Indexed;
    StoredFits(l, st);
    var a := l.nvsStart + index - 1;
    var ram, ram' := st.mem.ram, NvSet(l, st, index, v).mem.ram;
    assert ram' == if NvRefused(l, index) || a >= SECTOR then ram else ram[a := v];
    if a < SECTOR && !NvRefused(l, index) && ram[a] != v {
      assert ram'[a] != ram[a];
    }
  }

  lemma StoredFits(l: Layout, st: Store)
    requires Sound(l, st)
    ensures Fits(l, st.mem.ram) && Sized(st.mem)
  {}

  /** What teaching leaves in the sector: the event with its first variable, then the value's byte. */
  lemma TaughtRam(l: Layout, m: Memory, i: nat, k: Key, n: byte, v: byte)
    requires Coherent(m) && Fits(l, m.ram) && i < l.maxEvents && n >= 1
    ensures var a := SlotAddr(l, i) + 3 + n;
            var written := if n < 2 then PutKey(l, m.ram, i, k) else m.ram;
            TeachSlot(l, m, i, k, n, v).ram == if a < SECTOR then written[a := v] else written
  {
    hide Flush, SlotAddr, KeyAt, PutKey;
    WriteKeyInRam(l, m, i, k);
  }

  lemma KeyStaysInSlot(l: Layout, ram: seq<byte>, i: nat, k: Key)
    requires Fits(l, ram) && i < l.maxEvents
    ensures var a := SlotAddr(l, i);
            forall x :: 0 <= x < |ram| && !(a <= x < a + l.numEvs + 4) ==> PutKey(l, ram, i, k)[x] == ram[x]
  {
    SlotFits(l, i);
    hide SlotAddr;
  }

  /** Teaching a variable changes a byte outside its slot exactly when its number is too high and leads to a
      byte of the sector that holds another value: the next event, or whatever lies behind the last one. */
  lemma {:induction false} TeachStraysExactlyWhen(l: Layout, m: Memory, i: nat, k: Key, n: byte, v: byte)
    requires Coherent(m) && Fits(l, m.ram) && i < l.maxEvents && n >= 1
    ensures var a := SlotAddr(l, i) + 3 + n;
            Strays(m.ram, TeachSlot(l, m, i, k, n, v).ram, SlotAddr(l, i), SlotAddr(l, i) + l.numEvs + 4)
            <==> n > l.numEvs && a < SECTOR && m.ram[a] != v
  {
    hide TeachSlot, PutKey, SlotAddr;
    KeyStaysInSlot(l, m.ram, i, k);
    TaughtRam(l, m, i, k, n, v);
    var a := SlotAddr(l, i) + 3 + n;
    var ram' := TeachSlot(l, m, i, k, n, v).ram;
    if n > l.numEvs && a < SECTOR && m.ram[a] != v {
      assert m.ram[a] != ram'[a];
    }
  }

  /** A command that sets a node variable of the node numbered `nn`. */
  function NvSetFrame(nn: word, index: byte, v: byte): Frame {
    CANFrame(0, false, false, 5, [OPC_NVSET, HighByte(nn), LowByte(nn), index, v, 0, 0, 0])
  }

  lemma NvSetFrameFields(nn: word, index: byte, v: byte)
    ensures var f := NvSetFrame(nn, index, v);
            Opcode(f) == OPC_NVSET && NodeOf(f) == nn && f.data[3] == index && f.data[4] == v
  {
    hide Word;
    WordParts(nn);
  }

  lemma NvSetIsOwn(n: Node, f: Frame)
    requires Opcode(f) == OPC_NVSET && NodeOf(f) == n.store.nodeNum
    ensures !IsEvent(Opcode(f)) && ThisNode(n, f) && OwnCommand(Opcode(f))
  {}

  lemma NvSetFrameRead(l: Layout, n: Node, index: byte, v: byte)
    requires Formed(l, n.store)
    ensures var f := NvSetFrame(n.store.nodeNum, index, v);
            !IsEvent(Opcode(f)) && OnFrame(l, n, f) == n.(store := NvSet(l, n.store, index, v))
  {
    hide NvSetFrame, NodeOf, EventOf, IsEvent, ThisNode, OwnCommand, NvSet, Learn, Unlearn, ClearAll, Formed;
    var f := NvSetFrame(n.store.nodeNum, index, v);
    NvSetFrameFields(n.store.nodeNum, index, v);
    NvSetIsOwn(n, f);
  }

  /** For example: with the variables right behind the identity, a value of 0xFF for variable zero marks the
      sector as never initialised, and at the next start the node is in SLiM and has lost its number. */
  lemma {:induction false} NvZeroForgetsIdentity(l: Layout, n: Node)
    requires Sound(l, n.store) && l.nvsStart == 6 && l.numNvs >= 1
    ensures Formed(l, n.store)
    ensures var n' := OnFrame(l, n, NvSetFrame(n.store.nodeNum, 0, 0xFF));
            && n'.store.flim == n.store.flim && n'.store.nodeNum == n.store.nodeNum && Fits(l, n'.store.mem.flash)
            && !Restarted(l, n'.store.mem.flash).store.flim && Restarted(l, n'.store.mem.flash).store.nodeNum == 0
  {
    hide Write, IndexOf, Collides, OnFrame, NvSetFrame, IsEvent;
    SoundIsFormed(l, n.store);
    NvSetFrameRead(l, n, 0, 0xFF);
    WriteSettles(n.store.mem, OFS_RESET, 0xFF);
  }

  /** For example: teaching one variable too many of an event that is stored in front of another slot changes
      the event in that slot. */
  lemma {:induction false} TeachBreaksNextEvent(l: Layout, st: Store, k: Key, v: byte)
    requires Sound(l, st) && l.numEvs >= 1
    requires var i := Scan(l, st.mem.ram, k, 0);
             i + 1 < l.maxEvents && v != HighByte(KeyAt(l, st.mem.ram, i + 1).nn)
    ensures var i := Scan(l, st.mem.ram, k, 0);
            var ram' := Learn(l, st, k, l.numEvs + 1, v).mem.ram;
            && Fits(l, ram') && KeyAt(l, ram', i + 1) != KeyAt(l, st.mem.ram, i + 1)
  {
    hide Scan, Write, Sound, KeyAt, FirstFree, Entry, Collides, SlotAddr;
    SoundIsFormed(l, st);
    NextSlotWritten(l, st, Scan(l, st.mem.ram, k, 0), v);
  }

  /** The byte behind the last variable of a slot is the first one of the next. */
  lemma NextSlotWritten(l: Layout, st: Store, i: nat, v: byte)
    requires Sound(l, st) && i + 1 < l.maxEvents && v != HighByte(KeyAt(l, st.mem.ram, i + 1).nn)
    ensures var ram' := Write(st.mem, SlotAddr(l, i) + 3 + (l.numEvs + 1), v, true).ram;
            Fits(l, ram') && KeyAt(l, ram', i + 1) != KeyAt(l, st.mem.ram, i + 1)
  {
    hide Write, Indexed, IndexOf, IdentityStored;
    StoredFits(l, st);
    SlotFits(l, i + 1);
    NextSlot(l, i);
    var a := SlotAddr(l, i + 1);
    WriteSettles(st.mem, a, v);
    WordOfBytes(v, st.mem.ram[a + 1]);
    WordOfBytes(st.mem.ram[a], st.mem.ram[a + 1]);
  }

  lemma NextSlot(l: Layout, i: nat)
    ensures SlotAddr(l, i + 1) == SlotAddr(l, i) + 3 + (l.numEvs + 1)
  {}

  lemma WordOfBytes(hi: byte, lo: byte)
    ensures HighByte(Word(hi, lo)) == hi
  {}
}
