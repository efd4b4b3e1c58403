/** Event frames byte by byte: which event they are about, and which call of the user's handler they lead to after
    any run of a node. */
module EventFrames {
  import opened Can
  import opened EventTable
  import opened EventStore
  import opened EventRuns
  import opened NodeMachine
  import opened NodeRuns

  /** ACON, ACOF and their forms with one to three more data bytes. */
  const LONG_EVENTS: set<byte> := {0x90, 0x91, 0xB0, 0xB1, 0xD0, 0xD1, 0xF0, 0xF1}

  /** ASON, ASOF and theirs. */
  const SHORT_EVENTS: set<byte> := {0x98, 0x99, 0xB8, 0xB9, 0xD8, 0xD9, 0xF8, 0xF9}

  const ON_EVENTS: set<byte> := {0x90, 0xB0, 0xD0, 0xF0, 0x98, 0xB8, 0xD8, 0xF8}

  /** These sixteen opcodes are the events; everything else is a command. */
  lemma {:induction false} EventOpcodes(opc: byte)
    ensures IsEvent(opc) <==> opc in LONG_EVENTS + SHORT_EVENTS
  {
    EventBits(opc / 0x10, opc % 0x10);
    assert opc == opc / 0x10 * 0x10 + opc % 0x10;
  }

  lemma EventBits(h: nat, x: nat)
    requires h < 0x10 && x < 0x10
    ensures IsEvent(h * 0x10 + x) <==> h in {0x9, 0xB, 0xD, 0xF} && x in {0x0, 0x1, 0x8, 0x9}
  {
    HighBits(h, x);
    LowBits(h, x);
  }

  lemma HighBits(h: nat, x: nat)
    requires h < 0x10 && x < 0x10
    ensures (h * 0x10 + x) / 0x80 == h / 8 && (h * 0x10 + x) / 0x10 % 2 == h % 2
  {}

  lemma LowBits(h: nat, x: nat)
    requires h < 0x10 && x < 0x10
    ensures (h * 0x10 + x) / 4 % 2 == x / 4 % 2 && (h * 0x10 + x) / 2 % 2 == x / 2 % 2
    ensures (h * 0x10 + x) / 8 % 2 == x / 8 % 2 && (h * 0x10 + x) % 2 == x % 2
  {
    Shifted(h, x);
    EvenAdded(h, x / 8);
    EvenAdded(h * 2, x / 4);
    EvenAdded(h * 4, x / 2);
    EvenAdded(h * 8, x);
  }

  lemma Shifted(h: nat, x: nat)
    ensures (h * 0x10 + x) / 2 == 2 * (h * 4) + x / 2 && (h * 0x10 + x) / 4 == 2 * (h * 2) + x / 4
    ensures (h * 0x10 + x) / 8 == 2 * h + x / 8
  {}

  lemma EvenAdded(a: nat, x: nat)
    ensures (2 * a + x) % 2 == x % 2
  {}

  /** The event a frame is about: the node number counts only in a long one. */
  function KeyIn(f: Frame): Key {
    Key(if f.data[0] in LONG_EVENTS then NumberIn(f) else 0, EventNumberIn(f))
  }

  predicate IsEventFrame(f: Frame) { f.data[0] in LONG_EVENTS + SHORT_EVENTS }

  lemma {:induction false} KeyFromBytes(f: Frame)
    requires IsEventFrame(f)
    ensures EventKey(f) == KeyIn(f) && IsEvent(Opcode(f))
    ensures Opcode(f) % 2 == 0 <==> f.data[0] in ON_EVENTS
  {
    EventOpcodes(f.data[0]);
    ReadFromBytes(f);
    LowBits(f.data[0] / 0x10, f.data[0] % 0x10);
  }

  /** The call that the table stands for: none for an event that is not in it or without a handler, else the
      plain handler's with the event's slot, or the extended one's with the state and its first variable as well. */
  function TableCall(l: Layout, t: Table, plain: bool, extended: bool, f: Frame): seq<EventCall>
    requires Shaped(l, t)
  {
    if KeyIn(f) !in t.slots then [] else
    var i := t.slots[KeyIn(f)];
    if plain then [Plain(i, f)] else
    if extended then [Extended(i, f, f.data[0] in ON_EVENTS, if l.numEvs > 0 then t.evs[i][0] else 0)] else []
  }

  lemma CallFromTable(l: Layout, ram: seq<byte>, t: Table, plain: bool, extended: bool, f: Frame)
    requires Holds(l, ram, t) && IsEventFrame(f)
    ensures CallFor(l, ram, plain, extended, f) == TableCall(l, t, plain, extended, f)
  {
    hide Scan, EventKey, EvAt, KeyAt, KeyIn, IsEventFrame, NumberIn;
    KeyFromBytes(f);
    ScanFinds(l, ram, t.slots, EventKey(f));
  }

  /** After any run an event frame reaches the user's handler, whichever there is, exactly when the accepted
      commands have left its event in the table, and with the slot and the variable that the table gives it. */
  lemma {:induction false} EventHandledExactlyWhen(l: Layout, n: Node, t: Table, es: seq<Event>, k: nat, f: Frame,
        plain: bool, extended: bool)
    requires Sound(l, n.store) && AllInRange(l, es) && k <= |es| && Holds(l, n.store.mem.ram, t) && IsEventFrame(f)
    ensures IsEvent(Opcode(f))
    ensures (forall c :: c in Commands(l, n, es, k) ==> Allowed(l, c)) && Fits(l, After(l, n, es, k).store.mem.ram)
    ensures var t' := RunTable(l, t, Commands(l, n, es, k));
            && Shaped(l, t')
            && CallFor(l, After(l, n, es, k).store.mem.ram, plain, extended, f) == TableCall(l, t', plain, extended, f)
  {
    hide Sound, After, Commands, RunTable, AllInRange, Allowed, KeysHeld, EvsHeld, CallFor, TableCall, IsEventFrame;
    KeyFromBytes(f);
    TableAfterFrames(l, n, t, es, k);
    CallFromTable(l, After(l, n, es, k).store.mem.ram, RunTable(l, t, Commands(l, n, es, k)), plain, extended, f);
  }

  // ---- An event that was taught ----

  /** The frame teaches (0xD2) its event's first variable. */
  predicate TeachesFirst(e: Event) { e.Receive? && e.frame.data[0] == 0xD2 && e.frame.data[5] == 1 }

  /** The frame removes the event: it is to be forgotten (0x95), or all are (0x55). */
  predicate Removes(n: Node, e: Event, k: Key) {
    e.Receive? && n.learn && (e.frame.data[0] == 0x55 || (e.frame.data[0] == 0x95 && EventIn(e.frame) == k))
  }

  /** At moment `i` the event was taught, and nothing up to moment `k` has removed it. */
  predicate TaughtSince(l: Layout, n: Node, es: seq<Event>, i: nat, k: nat)
    requires Sound(l, n.store) && AllInRange(l, es) && k <= |es|
  {
    && i < k && After(l, n, es, i).learn && TeachesFirst(es[i])
    && forall m :: i < m < k ==> !Removes(After(l, n, es, m), es[m], EventIn(es[i].frame))
  }

  function TableAt(l: Layout, n: Node, t: Table, es: seq<Event>, k: nat): (t': Table)
    requires Sound(l, n.store) && AllInRange(l, es) && k <= |es| && Shaped(l, t)
    ensures Shaped(l, t')
  {
    CommandsAllowed(l, n, es, k);
    RunTable(l, t, Commands(l, n, es, k))
  }

  lemma TableStepAt(l: Layout, n: Node, t: Table, es: seq<Event>, k: nat)
    requires Sound(l, n.store) && AllInRange(l, es) && k < |es| && Shaped(l, t)
    ensures var c := CommandOf(After(l, n, es, k), es[k]);
            && (c == [] ==> TableAt(l, n, t, es, k + 1) == TableAt(l, n, t, es, k))
            && (c != [] ==>
                  Allowed(l, c[0]) && TableAt(l, n, t, es, k + 1) == TableStep(l, TableAt(l, n, t, es, k), c[0]))
  {
    hide TableStep, CommandOf, After, Sound, InRange, Allowed;
    var cs, c := Commands(l, n, es, k), CommandOf(After(l, n, es, k), es[k]);
    CommandsAllowed(l, n, es, k);
    CommandsAllowed(l, n, es, k + 1);
    if c == [] {
      assert cs + c == cs;
    } else {
      assert (cs + c)[..|cs + c| - 1] == cs && (cs + c)[|cs + c| - 1] == c[0];
      assert c[0] in cs + c;
    }
  }

  /** There is room for the event: it is stored already, or some slot is free. */
  predicate Room(l: Layout, t: Table, k: Key) {
    k != UNUSED && (k in t.slots || LeastFree(t.slots, l.maxEvents, 0) < l.maxEvents)
  }

  lemma TeachStores(l: Layout, n: Node, t: Table, es: seq<Event>, i: nat)
    requires Sound(l, n.store) && AllInRange(l, es) && i < |es| && Shaped(l, t)
    requires After(l, n, es, i).learn && TeachesFirst(es[i]) && Room(l, TableAt(l, n, t, es, i), EventIn(es[i].frame))
    ensures EventIn(es[i].frame) in TableAt(l, n, t, es, i + 1).slots
  {
    hide After, Sound, EventIn, TableAt, LeastFree;
    TableStepAt(l, n, t, es, i);
  }

  lemma StaysStored(l: Layout, n: Node, t: Table, es: seq<Event>, m: nat, k: Key)
    requires Sound(l, n.store) && AllInRange(l, es) && m < |es| && Shaped(l, t)
    requires k in TableAt(l, n, t, es, m).slots && !Removes(After(l, n, es, m), es[m], k)
    ensures k in TableAt(l, n, t, es, m + 1).slots
  {
    hide After, Sound, EventIn, TableAt, LeastFree;
    TableStepAt(l, n, t, es, m);
  }

  lemma {:induction false} TaughtIsStored(l: Layout, n: Node, t: Table, es: seq<Event>, i: nat, k: nat)
    requires Sound(l, n.store) && AllInRange(l, es) && k <= |es| && Shaped(l, t)
    requires TaughtSince(l, n, es, i, k) && Room(l, TableAt(l, n, t, es, i), EventIn(es[i].frame))
    ensures EventIn(es[i].frame) in TableAt(l, n, t, es, k).slots
  {
    hide After, Sound, EventIn, TableAt, Removes, Room;
    if k == i + 1 {
      TeachStores(l, n, t, es, i);
    } else {
      TaughtIsStored(l, n, t, es, i, k - 1);
      StaysStored(l, n, t, es, k - 1, EventIn(es[i].frame));
    }
  }

  /** When a frame in learn mode taught an event for which there was room, and nothing has removed it since, every
      long event frame with the same bytes 1 to 4 calls the handler with the event's slot. A short one with the
      same event number calls it exactly when the event with that number and node number zero is stored. */
  lemma {:induction false} TaughtEventCalls(l: Layout, n: Node, t: Table, es: seq<Event>, i: nat, k: nat, f: Frame,
        plain: bool, extended: bool)
    requires Sound(l, n.store) && AllInRange(l, es) && k <= |es| && Holds(l, n.store.mem.ram, t)
    requires TaughtSince(l, n, es, i, k) && Room(l, TableAt(l, n, t, es, i), EventIn(es[i].frame))
    requires IsEventFrame(f) && f.data[1..5] == es[i].frame.data[1..5] && (plain || extended)
    ensures Fits(l, After(l, n, es, k).store.mem.ram) && IsEvent(Opcode(f))
    ensures var ram := After(l, n, es, k).store.mem.ram;
            var calls := CallFor(l, ram, plain, extended, f);
            if f.data[0] in LONG_EVENTS
            then exists x :: Stored(l, ram, x, EventIn(es[i].frame)) && |calls| == 1 && calls[0].index == x
            else calls != [] <==> exists x :: Stored(l, ram, x, Key(0, EventNumberIn(es[i].frame)))
  {
    EventHandledExactlyWhen(l, n, t, es, k, f, plain, extended);
    TableAfterFrames(l, n, t, es, k);
    TaughtIsStored(l, n, t, es, i, k);
    hide Sound, After, Commands, AllInRange, Allowed, EvsHeld, CallFor, TaughtSince, Room;
    SameBytes(f, es[i].frame);
    var ram, t' := After(l, n, es, k).store.mem.ram, TableAt(l, n, t, es, k);
    StoredInTable(l, ram, t', KeyIn(f));
  }

  predicate Stored(l: Layout, ram: seq<byte>, x: nat, k: Key)
    requires Fits(l, ram)
  {
    x < l.maxEvents && Used(l, ram, x) && KeyAt(l, ram, x) == k
  }

  lemma SameBytes(f: Frame, g: Frame)
    requires f.data[1..5] == g.data[1..5]
    ensures NumberIn(f) == NumberIn(g) && EventNumberIn(f) == EventNumberIn(g)
  {
    assert forall j :: 0 <= j < 4 ==> f.data[1..5][j] == f.data[1 + j] && g.data[1..5][j] == g.data[1 + j];
    assert f.data[1..5][0] == g.data[1..5][0] && f.data[1..5][1] == g.data[1..5][1];
    assert f.data[1..5][2] == g.data[1..5][2] && f.data[1..5][3] == g.data[1..5][3];
  }

  lemma StoredInTable(l: Layout, ram: seq<byte>, t: Table, k: Key)
    requires Holds(l, ram, t)
    ensures k in t.slots <==> exists x :: Stored(l, ram, x, k)
    ensures k in t.slots ==> Stored(l, ram, t.slots[k], k)
  {
    hide KeyAt, Used;
    if k in t.slots {
      assert Stored(l, ram, t.slots[k], k);
    }
    forall x: nat | Stored(l, ram, x, k)
      ensures k in t.slots
    {
      assert Used(l, ram, x) && KeyAt(l, ram, x) == k;
    }
  }
}
