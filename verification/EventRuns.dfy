/** Runs of teach, forget and clear commands against a reference table that maps each event to its slot. */
module EventRuns {
  import opened Can
  import opened FlashCache
  import opened EventTable
  import opened EventStore

  datatype Command = Teach(key: Key, n: nat, v: byte) | Forget(key: Key) | ClearEvents

  predicate Allowed(l: Layout, c: Command) { c.Teach? ==> 1 <= c.n <= l.numEvs }

  function Step(l: Layout, st: Store, c: Command): Store
    requires Fits(l, st.mem.ram) && Sized(st.mem) && |st.index| == l.maxEvents && Allowed(l, c)
  {
    match c
    case Teach(k, n, v) => Learn(l, st, k, n, v)
    case Forget(k) => Unlearn(l, st, k)
    case ClearEvents => ClearAll(l, st)
  }

  // ---- The reference table ----

  /** Which events are stored and where, and the variables of every slot, stored or not. */
  datatype Table = Table(slots: map<Key, nat>, evs: seq<seq<byte>>)

  /** The lowest slot that no event occupies. */
  function LeastFree(slots: map<Key, nat>, max: nat, i: nat): (r: nat)
    requires i <= max
    ensures i <= r <= max && (forall j :: i <= j < r ==> j in slots.Values) && (r < max ==> r !in slots.Values)
    decreases max - i
  {
    if i == max || i !in slots.Values then i else LeastFree(slots, max, i + 1)
  }

  function WithEv(evs: seq<seq<byte>>, i: nat, n: nat, v: byte): (r: seq<seq<byte>>)
    requires i < |evs| && 1 <= n <= |evs[i]|
    ensures |r| == |evs| && forall j :: 0 <= j < |r| ==> |r[j]| == |evs[j]|
  {
    var row: seq<byte> := evs[i][n - 1 := v];
    evs[i := row]
  }

  predicate Shaped(l: Layout, t: Table) {
    && |t.evs| == l.maxEvents && (forall i :: 0 <= i < l.maxEvents ==> |t.evs[i]| == l.numEvs)
    && (forall k :: k in t.slots ==> t.slots[k] < l.maxEvents)
  }

  /** A stored event gets the variable in its own slot. A new one takes the lowest free slot, but only with
      its first variable, and not when it is the unused pattern; a full table stays as it is. */
  function TableStep(l: Layout, t: Table, c: Command): (t': Table)
    requires Shaped(l, t) && Allowed(l, c)
    ensures Shaped(l, t')
  {
    match c
    case Teach(k, n, v) =>
      if k in t.slots then t.(evs := WithEv(t.evs, t.slots[k], n, v)) else
      var i := LeastFree(t.slots, l.maxEvents, 0);
      if i == l.maxEvents then t else
      Table(if n < 2 && k != UNUSED then t.slots[k := i] else t.slots, WithEv(t.evs, i, n, v))
    case Forget(k) => t.(slots := t.slots - {k})
    case ClearEvents => t.(slots := map[])
  }

  /** The sector holds exactly the table: one slot for each event, one event for each used slot. */
  predicate Holds(l: Layout, ram: seq<byte>, t: Table) {
    Fits(l, ram) && Shaped(l, t) && KeysHeld(l, ram, t.slots) && EvsHeld(l, ram, t.evs)
  }

  predicate KeysHeld(l: Layout, ram: seq<byte>, slots: map<Key, nat>)
    requires Fits(l, ram)
  {
    && (forall k :: k in slots ==> slots[k] < l.maxEvents && Used(l, ram, slots[k]) && KeyAt(l, ram, slots[k]) == k)
    && (forall i :: 0 <= i < l.maxEvents && Used(l, ram, i) ==>
          KeyAt(l, ram, i) in slots && slots[KeyAt(l, ram, i)] == i)
  }

  predicate EvsHeld(l: Layout, ram: seq<byte>, evs: seq<seq<byte>>)
    requires Fits(l, ram) && |evs| == l.maxEvents && forall i :: 0 <= i < l.maxEvents ==> |evs[i]| == l.numEvs
  {
    forall i, n :: 0 <= i < l.maxEvents && 1 <= n <= l.numEvs ==> EvAt(l, ram, i, n) == evs[i][n - 1]
  }

  /** The events in the table are told apart by their slots. */
  lemma SlotsInjective(l: Layout, ram: seq<byte>, t: Table, a: Key, b: Key)
    requires Holds(l, ram, t) && a in t.slots && b in t.slots && t.slots[a] == t.slots[b]
    ensures a == b
  {}

  // ---- Looking up ----

  lemma {:induction false} ScanFinds(l: Layout, ram: seq<byte>, slots: map<Key, nat>, k: Key)
    requires Fits(l, ram) && KeysHeld(l, ram, slots)
    ensures Scan(l, ram, k, 0) == if k in slots then slots[k] else l.maxEvents
  {
    hide KeyAt, Used;
  }

  lemma UsedIsTaken(l: Layout, ram: seq<byte>, slots: map<Key, nat>, i: nat)
    requires Fits(l, ram) && KeysHeld(l, ram, slots) && i < l.maxEvents
    ensures Used(l, ram, i) <==> i in slots.Values
  {
    hide KeyAt, Used;
    if i in slots.Values {
      var k :| k in slots && slots[k] == i;
    }
    if Used(l, ram, i) {
      assert slots[KeyAt(l, ram, i)] == i;
    }
  }

  lemma {:induction false} FreeAgrees(l: Layout, ram: seq<byte>, slots: map<Key, nat>)
    requires Fits(l, ram) && KeysHeld(l, ram, slots)
    ensures FirstFree(l, ram, 0) == LeastFree(slots, l.maxEvents, 0)
  {
    hide KeyAt, Used, KeysHeld;
    var r := FirstFree(l, ram, 0);
    var s := LeastFree(slots, l.maxEvents, 0);
    if r < l.maxEvents { UsedIsTaken(l, ram, slots, r); }
    if s < l.maxEvents { UsedIsTaken(l, ram, slots, s); }
  }

  // ---- Each command does to the sector what the reference step does to the table ----

  lemma KeyPutHeld(l: Layout, ram: seq<byte>, slots: map<Key, nat>, i: nat, k: Key)
    requires Fits(l, ram) && KeysHeld(l, ram, slots) && i < l.maxEvents && k != UNUSED
    requires if k in slots then slots[k] == i else !Used(l, ram, i)
    ensures KeysHeld(l, PutKey(l, ram, i, k), slots[k := i])
  {
    hide KeyAt, PutKey;
    KeysPut(l, ram, i, k);
    var ram' := PutKey(l, ram, i, k);
    var slots' := slots[k := i];
    forall j | 0 <= j < l.maxEvents && Used(l, ram', j)
      ensures KeyAt(l, ram', j) in slots' && slots'[KeyAt(l, ram', j)] == j
    {
      assert j != i ==> Used(l, ram, j);
    }
  }

  lemma KeyFreedHeld(l: Layout, ram: seq<byte>, slots: map<Key, nat>, i: nat)
    requires Fits(l, ram) && KeysHeld(l, ram, slots) && i < l.maxEvents
    ensures KeysHeld(l, PutKey(l, ram, i, UNUSED), slots - {KeyAt(l, ram, i)})
  {
    hide KeyAt, PutKey;
    KeysPut(l, ram, i, UNUSED);
    var ram' := PutKey(l, ram, i, UNUSED);
    var slots' := slots - {KeyAt(l, ram, i)};
    forall j | 0 <= j < l.maxEvents && Used(l, ram', j)
      ensures KeyAt(l, ram', j) in slots' && slots'[KeyAt(l, ram', j)] == j
    {
      assert j != i && Used(l, ram, j);
    }
  }

  lemma KeyPutEvsHeld(l: Layout, ram: seq<byte>, evs: seq<seq<byte>>, i: nat, k: Key)
    requires Fits(l, ram) && i < l.maxEvents && |evs| == l.maxEvents
    requires forall j :: 0 <= j < l.maxEvents ==> |evs[j]| == l.numEvs
    requires EvsHeld(l, ram, evs)
    ensures EvsHeld(l, PutKey(l, ram, i, k), evs)
  {
    hide PutKey, EvAt;
    forall j, n | 0 <= j < l.maxEvents && 1 <= n <= l.numEvs
      ensures EvAt(l, PutKey(l, ram, i, k), j, n) == evs[j][n - 1]
    {
      EvsKept(l, ram, i, k, j, n);
    }
  }

  lemma EvPutHeld(l: Layout, ram: seq<byte>, t: Table, i: nat, n: nat, v: byte)
    requires Holds(l, ram, t) && i < l.maxEvents && 1 <= n <= l.numEvs
    ensures Holds(l, PutEv(l, ram, i, n, v), t.(evs := WithEv(t.evs, i, n, v)))
  {
    hide PutEv, EvAt, KeyAt;
    var ram' := PutEv(l, ram, i, n, v);
    KeysKeptByEv(l, ram, i, n, v);
    forall j, n' | 0 <= j < l.maxEvents && 1 <= n' <= l.numEvs
      ensures EvAt(l, ram', j, n') == WithEv(t.evs, i, n, v)[j][n' - 1]
    {
      EvPut(l, ram, i, n, v, j);
    }
  }

  lemma SlotTaughtHeld(l: Layout, ram: seq<byte>, t: Table, i: nat, k: Key, n: nat, v: byte)
    requires Holds(l, ram, t) && i < l.maxEvents && 1 <= n <= l.numEvs && k != UNUSED
    requires if k in t.slots then t.slots[k] == i else !Used(l, ram, i)
    ensures Holds(l, Taught(l, ram, i, k, n, v),
                  Table(if n < 2 then t.slots[k := i] else t.slots, WithEv(t.evs, i, n, v)))
  {
    hide PutKey, KeysHeld, EvsHeld, Used, KeyAt;
    if n < 2 {
      KeyPutHeld(l, ram, t.slots, i, k);
      KeyPutEvsHeld(l, ram, t.evs, i, k);
      EvPutHeld(l, PutKey(l, ram, i, k), t.(slots := t.slots[k := i]), i, n, v);
    } else {
      EvPutHeld(l, ram, t, i, n, v);
    }
  }

  /** Teaching the unused pattern writes it over a slot that already holds it. */
  lemma UnusedTaughtHeld(l: Layout, ram: seq<byte>, t: Table, i: nat, n: nat, v: byte)
    requires Holds(l, ram, t) && i < l.maxEvents && 1 <= n <= l.numEvs && !Used(l, ram, i)
    ensures Holds(l, Taught(l, ram, i, UNUSED, n, v), t.(evs := WithEv(t.evs, i, n, v)))
  {
    assert UNUSED !in t.slots && KeyAt(l, ram, i) == UNUSED;
    hide PutKey, KeysHeld, EvsHeld, KeyAt;
    if n < 2 {
      KeyFreedHeld(l, ram, t.slots, i);
      assert t.slots - {UNUSED} == t.slots;
      KeyPutEvsHeld(l, ram, t.evs, i, UNUSED);
      EvPutHeld(l, PutKey(l, ram, i, UNUSED), t, i, n, v);
    } else {
      EvPutHeld(l, ram, t, i, n, v);
    }
  }

  lemma StoredKey(l: Layout, ram: seq<byte>, slots: map<Key, nat>, k: Key)
    requires Fits(l, ram) && KeysHeld(l, ram, slots) && k in slots
    ensures k != UNUSED && slots[k := slots[k]] == slots
  {}

  lemma {:induction false} TeachHeld(l: Layout, st: Store, t: Table, k: Key, n: nat, v: byte)
    requires Sound(l, st) && Holds(l, st.mem.ram, t) && 1 <= n <= l.numEvs
    ensures Sound(l, Learn(l, st, k, n, v))
    ensures Holds(l, Learn(l, st, k, n, v).mem.ram, TableStep(l, t, Teach(k, n, v)))
  {
    hide Learn, Taught, WithEv, KeysHeld, EvsHeld, Sound, PutKey, PutEv, Used, KeyAt, IndexOf;
    var ram := st.mem.ram;
    LearnSound(l, st, k, n, v);
    ScanFinds(l, ram, t.slots, k);
    FreeAgrees(l, ram, t.slots);
    if k in t.slots { StoredKey(l, ram, t.slots, k); }
    var i := LearnSlot(l, st, k);
    if i < l.maxEvents {
      if k == UNUSED {
        UnusedTaughtHeld(l, ram, t, i, n, v);
      } else {
        SlotTaughtHeld(l, ram, t, i, k, n, v);
      }
    }
  }

  lemma {:induction false} ForgetHeld(l: Layout, st: Store, t: Table, k: Key)
    requires Sound(l, st) && Holds(l, st.mem.ram, t)
    ensures Sound(l, Unlearn(l, st, k)) && Holds(l, Unlearn(l, st, k).mem.ram, TableStep(l, t, Forget(k)))
  {
    hide KeysHeld, EvsHeld, Sound, PutKey, Unlearn, Used, KeyAt, IndexOf;
    var ram := st.mem.ram;
    UnlearnSound(l, st, k);
    ScanFinds(l, ram, t.slots, k);
    if k in t.slots {
      KeyFreedHeld(l, ram, t.slots, t.slots[k]);
      KeyPutEvsHeld(l, ram, t.evs, t.slots[k], UNUSED);
    } else {
      assert t.slots - {k} == t.slots;
    }
  }

  lemma {:induction false} ClearedEvsHeld(l: Layout, m: Memory, evs: seq<seq<byte>>, n: nat)
    requires Coherent(m) && Fits(l, m.ram) && n <= l.maxEvents
    requires |evs| == l.maxEvents && (forall j :: 0 <= j < l.maxEvents ==> |evs[j]| == l.numEvs)
    requires EvsHeld(l, m.ram, evs)
    ensures Coherent(ClearKeys(l, m, n)) && Fits(l, ClearKeys(l, m, n).ram) && EvsHeld(l, ClearKeys(l, m, n).ram, evs)
  {
    hide EvsHeld, WriteKey, Coherent, PutKey;
    CoherentIsSized(m);
    if n > 0 {
      ClearedEvsHeld(l, m, evs, n - 1);
      var c := ClearKeys(l, m, n - 1);
      WriteKeyInRam(l, c, n - 1, UNUSED);
      KeyPutEvsHeld(l, c.ram, evs, n - 1, UNUSED);
    }
  }

  lemma CoherentIsSized(m: Memory)
    requires Coherent(m)
    ensures Sized(m)
  {}

  lemma {:induction false} ClearHeld(l: Layout, st: Store, t: Table)
    requires Sound(l, st) && Holds(l, st.mem.ram, t)
    ensures Sound(l, ClearAll(l, st)) && Holds(l, ClearAll(l, st).mem.ram, TableStep(l, t, ClearEvents))
  {
    hide EvsHeld, Coherent, KeyAt, IndexOf, Collides, ClearKeys;
    ClearAllSound(l, st);
    SettledIsCoherent(st.mem);
    ClearedEvsHeld(l, st.mem, t.evs, l.maxEvents);
  }

  // ---- Runs ----

  function RunCommands(l: Layout, st: Store, commands: seq<Command>): (st': Store)
    requires Sound(l, st) && forall c :: c in commands ==> Allowed(l, c)
    ensures Sound(l, st')
  {
    if commands == [] then st else
    var st1 := RunCommands(l, st, commands[..|commands| - 1]);
    StepSound(l, st1, commands[|commands| - 1]);
    Step(l, st1, commands[|commands| - 1])
  }

  lemma StepSound(l: Layout, st: Store, c: Command)
    requires Sound(l, st) && Allowed(l, c)
    ensures Sized(st.mem) && |st.index| == l.maxEvents && Sound(l, Step(l, st, c))
  {
    hide Learn, Unlearn, ClearAll, IndexOf, KeyAt, Collides;
    match c
    case Teach(k, n, v) => LearnSound(l, st, k, n, v);
    case Forget(k) => UnlearnSound(l, st, k);
    case ClearEvents => ClearAllSound(l, st);
  }

  function RunTable(l: Layout, t: Table, commands: seq<Command>): (t': Table)
    requires Shaped(l, t) && forall c :: c in commands ==> Allowed(l, c)
    ensures Shaped(l, t')
  {
    if commands == [] then t else TableStep(l, RunTable(l, t, commands[..|commands| - 1]), commands[|commands| - 1])
  }

  lemma StepHeld(l: Layout, st: Store, t: Table, c: Command)
    requires Sound(l, st) && Holds(l, st.mem.ram, t) && Allowed(l, c)
    ensures Sized(st.mem) && |st.index| == l.maxEvents && Holds(l, Step(l, st, c).mem.ram, TableStep(l, t, c))
  {
    hide Learn, Unlearn, ClearAll, IndexOf, KeyAt, Collides, KeysHeld, EvsHeld, TableStep;
    match c
    case Teach(k, n, v) => TeachHeld(l, st, t, k, n, v);
    case Forget(k) => ForgetHeld(l, st, t, k);
    case ClearEvents => ClearHeld(l, st, t);
  }

  /** After any run of commands the sector holds exactly the table of the same run of map operations. */
  lemma {:induction false} TableRefined(l: Layout, st: Store, t: Table, commands: seq<Command>)
    requires Sound(l, st) && Holds(l, st.mem.ram, t) && forall c :: c in commands ==> Allowed(l, c)
    ensures Holds(l, RunCommands(l, st, commands).mem.ram, RunTable(l, t, commands))
  {
    hide Step, TableStep, Sound, KeysHeld, EvsHeld;
    if commands != [] {
      var prior := commands[..|commands| - 1];
      TableRefined(l, st, t, prior);
      StepHeld(l, RunCommands(l, st, prior), RunTable(l, t, prior), commands[|commands| - 1]);
    }
  }

  /** The table of a sector with no event in it. */
  function EmptyTable(l: Layout, ram: seq<byte>): (t: Table)
    requires Fits(l, ram)
    ensures Shaped(l, t) && t.slots == map[]
  {
    Table(map[], seq(l.maxEvents, i requires 0 <= i < l.maxEvents =>
      seq(l.numEvs, n requires 0 <= n < l.numEvs => EvAt(l, ram, i, n + 1))))
  }

  /** From an empty table on: the search finds an event in its slot of the reference table, or reports that
      there is none, and the index that was kept step by step is the one a rebuild would give. */
  lemma {:induction false} SearchAfterRun(l: Layout, st: Store, commands: seq<Command>, k: Key)
    requires Sound(l, st) && forall c :: c in commands ==> Allowed(l, c)
    requires forall i :: 0 <= i < l.maxEvents ==> !Used(l, st.mem.ram, i)
    ensures var st' := RunCommands(l, st, commands);
            var slots := RunTable(l, EmptyTable(l, st.mem.ram), commands).slots;
            && Scan(l, st'.mem.ram, k, 0) == (if k in slots then slots[k] else l.maxEvents)
            && Indexed(l, st'.mem.ram, st'.index, st'.collisions)
            && (forall a, b :: a in slots && b in slots && slots[a] == slots[b] ==> a == b)
  {
    hide RunCommands, RunTable, IndexOf, KeyAt, EvAt;
    var t := EmptyTable(l, st.mem.ram);
    TableRefined(l, st, t, commands);
    var ram, t' := RunCommands(l, st, commands).mem.ram, RunTable(l, t, commands);
    ScanFinds(l, ram, t'.slots, k);
    forall a, b | a in t'.slots && b in t'.slots && t'.slots[a] == t'.slots[b]
      ensures a == b
    {
      SlotsInjective(l, ram, t', a, b);
    }
  }

  // ---- Counting ----

  function StoredUpTo(index: seq<byte>, n: nat): (c: nat)
    requires n <= |index|
  {
    if n == 0 then 0 else StoredUpTo(index, n - 1) + if index[n - 1] != 0 then 1 else 0
  }

  function FreeUpTo(index: seq<byte>, n: nat): (c: nat)
    requires n <= |index|
  {
    if n == 0 then 0 else FreeUpTo(index, n - 1) + if index[n - 1] == 0 then 1 else 0
  }

  function Below(slots: map<Key, nat>, n: nat): set<Key> {
    set k | k in slots && slots[k] < n
  }

  lemma NoneBelow(slots: map<Key, nat>)
    ensures Below(slots, 0) == {}
  {}

  lemma OneMoreBelow(l: Layout, ram: seq<byte>, slots: map<Key, nat>, n: nat)
    requires Fits(l, ram) && KeysHeld(l, ram, slots) && 1 <= n <= l.maxEvents
    ensures |Below(slots, n)| == |Below(slots, n - 1)| + if Used(l, ram, n - 1) then 1 else 0
  {
    hide KeyAt;
    var k := KeyAt(l, ram, n - 1);
    if Used(l, ram, n - 1) {
      assert Below(slots, n) == Below(slots, n - 1) + {k};
    } else {
      assert Below(slots, n) == Below(slots, n - 1);
    }
  }

  /** The non-zero index entries count the stored events, and the zero ones the rest of the slots. */
  lemma {:induction false} CountsAgree(l: Layout, ram: seq<byte>, slots: map<Key, nat>, index: seq<byte>, n: nat)
    requires Fits(l, ram) && KeysHeld(l, ram, slots) && index == IndexOf(l, ram, l.maxEvents) && n <= l.maxEvents
    ensures StoredUpTo(index, n) == |Below(slots, n)| && StoredUpTo(index, n) + FreeUpTo(index, n) == n
  {
    hide KeyAt, KeysHeld, Below, IndexOf;
    NoneBelow(slots);
    if n > 0 {
      CountsAgree(l, ram, slots, index, n - 1);
      OneMoreBelow(l, ram, slots, n);
    }
  }

  /** Stored and free together always fill the table, and the stored count is the number of events taught
      and not forgotten. */
  lemma StoredPlusFree(l: Layout, st: Store, t: Table)
    requires Sound(l, st) && Holds(l, st.mem.ram, t)
    ensures |st.index| == l.maxEvents && StoredUpTo(st.index, l.maxEvents) == |t.slots|
    ensures StoredUpTo(st.index, l.maxEvents) + FreeUpTo(st.index, l.maxEvents) == l.maxEvents
  {
    CountsAgree(l, st.mem.ram, t.slots, st.index, l.maxEvents);
    hide KeysHeld, EvsHeld, IndexOf;
    assert Below(t.slots, l.maxEvents) == t.slots.Keys;
  }
}
