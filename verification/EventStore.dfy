/** The stored configuration on values: events with their index, node variables and identity, in the
    cache and in the flash behind it, and the commands that change them. */
module EventStore {
  import opened Can
  import opened FlashCache
  import opened EventTable

  const OFS_FLIM: nat := 0
  const OFS_CANID: nat := 1
  const OFS_NN_HIGH: nat := 2
  const OFS_NN_LOW: nat := 3
  const OFS_RESET: nat := 5

  datatype Store = Store(mem: Memory, index: seq<byte>, collisions: bool, canId: byte, flim: bool, nodeNum: word)

  // ---- Single writes ----

  function Write(m: Memory, addr: nat, v: byte, flush: bool): (m': Memory)
    requires Sized(m)
    ensures Sized(m')
  {
    if flush then Flush(Put(m, addr, v)) else Put(m, addr, v)
  }

  function WriteKey(l: Layout, m: Memory, i: nat, k: Key, flush: bool): (m': Memory)
    requires Sized(m)
    ensures Sized(m')
  {
    var a := SlotAddr(l, i);
    var m1 := Write(m, a, HighByte(k.nn), false);
    var m2 := Write(m1, a + 1, LowByte(k.nn), false);
    var m3 := Write(m2, a + 2, HighByte(k.en), false);
    var m4 := Write(m3, a + 3, LowByte(k.en), false);
    if flush then Flush(m4) else m4
  }

  /** The first `n` slots cleared in the cache. */
  function ClearKeys(l: Layout, m: Memory, n: nat): (m': Memory)
    requires Sized(m)
    ensures Sized(m')
  {
    if n == 0 then m else WriteKey(l, ClearKeys(l, m, n - 1), n - 1, UNUSED, false)
  }

  // ---- Commands ----

  function SetFlim(st: Store, flim: bool): Store
    requires Sized(st.mem)
  {
    st.(flim := flim, mem := Write(st.mem, OFS_FLIM, if flim then 1 else 0, true))
  }

  function SetCanId(st: Store, id: byte): Store
    requires Sized(st.mem)
  {
    if 1 <= id <= 99 then st.(canId := id, mem := Write(st.mem, OFS_CANID, id, true)) else st
  }

  function SetNodeNum(st: Store, nn: word): Store
    requires Sized(st.mem)
  {
    st.(nodeNum := nn,
        mem := Flush(Write(Write(st.mem, OFS_NN_HIGH, HighByte(nn), false), OFS_NN_LOW, LowByte(nn), false)))
  }

  function SetNv(l: Layout, st: Store, n: nat, v: byte): Store
    requires Sized(st.mem) && l.Valid()
  {
    st.(mem := Write(st.mem, l.nvsStart + n - 1, v, true))
  }

  /** The index entry of one slot brought up to date, and the collision flag with it. */
  function Reindexed(l: Layout, st: Store, i: nat): Store
    requires Fits(l, st.mem.ram) && i < l.maxEvents == |st.index|
  {
    var t := st.index[i := Entry(KeyAt(l, st.mem.ram, i))];
    st.(index := t, collisions := Collides(t))
  }

  /** Teach an event: the slot found for it, or else the first whose index entry is free; the event itself
      is written only with its first variable. */
  function Learn(l: Layout, st: Store, k: Key, n: nat, v: byte): Store
    requires Fits(l, st.mem.ram) && Sized(st.mem) && |st.index| == l.maxEvents
  {
    var i := LearnSlot(l, st, k);
    if i == l.maxEvents then st else
    Reindexed(l, st.(mem := TeachSlot(l, st.mem, i, k, n, v)), i)
  }

  function LearnSlot(l: Layout, st: Store, k: Key): (i: nat)
    requires Fits(l, st.mem.ram)
    ensures i <= l.maxEvents
  {
    var i := Scan(l, st.mem.ram, k, 0);
    if i < l.maxEvents then i else FirstFree(l, st.mem.ram, 0)
  }

  function Unlearn(l: Layout, st: Store, k: Key): Store
    requires Fits(l, st.mem.ram) && Sized(st.mem) && |st.index| == l.maxEvents
  {
    var i := Scan(l, st.mem.ram, k, 0);
    if i == l.maxEvents then st else
    Reindexed(l, st.(mem := WriteKey(l, st.mem, i, UNUSED, true)), i)
  }

  function ClearAll(l: Layout, st: Store): Store
    requires Sized(st.mem)
  {
    st.(mem := Flush(ClearKeys(l, st.mem, l.maxEvents)), index := Zeros(l.maxEvents), collisions := false)
  }

  /** The identity as the sector holds it. A sector that was never initialised gets the defaults. */
  function Loaded(st: Store): Store
    requires Sized(st.mem)
  {
    var ram := st.mem.ram;
    if ram[OFS_RESET] == 0xFF then Initialised(st)
    else st.(flim := ram[OFS_FLIM] != 0, canId := ram[OFS_CANID], nodeNum := Word(ram[OFS_NN_HIGH], ram[OFS_NN_LOW]))
  }

  function Initialised(st: Store): Store
    requires Sized(st.mem)
  {
    var st1 := SetNodeNum(SetCanId(SetFlim(st, false), 1), 0);
    st1.(mem := Write(st1.mem, OFS_RESET, 0, true))
  }

  /** Starting up from the flash alone. */
  function Begin(l: Layout, flash: seq<byte>): Store
    requires Fits(l, flash)
  {
    var t := IndexOf(l, flash, l.maxEvents);
    Loaded(Store(Memory(flash, flash, false, false), t, Collides(t), 0, false, 0))
  }

  /** Nothing of the identity that was in memory before survives. */
  lemma LoadedAnew(st: Store, canId: byte, flim: bool, nodeNum: word)
    requires Sized(st.mem)
    ensures Loaded(st.(canId := canId, flim := flim, nodeNum := nodeNum)) == Loaded(st)
  {
    hide Write, Flush;
  }

  // ---- What every completed command keeps ----

  /** The identity held in memory is the one stored, and the sector counts as initialised. */
  predicate IdentityStored(st: Store)
    requires |st.mem.ram| == SECTOR
  {
    var ram := st.mem.ram;
    && ram[OFS_RESET] != 0xFF && st.flim == (ram[OFS_FLIM] != 0)
    && st.canId == ram[OFS_CANID] && st.nodeNum == Word(ram[OFS_NN_HIGH], ram[OFS_NN_LOW])
  }

  /** Nothing is waiting to be flushed, the index is what a rebuild would give, and the identity is stored. */
  predicate Sound(l: Layout, st: Store) {
    && Settled(st.mem) && Indexed(l, st.mem.ram, st.index, st.collisions) && IdentityStored(st)
  }

  lemma WriteSettles(m: Memory, addr: nat, v: byte)
    requires Settled(m) && addr < SECTOR
    ensures Settled(Write(m, addr, v, true)) && Write(m, addr, v, true).ram == m.ram[addr := v]
  {
    SettledIsCoherent(m);
    PutKeepsCoherent(m, addr, v);
    FlushSettles(Put(m, addr, v));
  }

  lemma WriteKeyInRam(l: Layout, m: Memory, i: nat, k: Key)
    requires Coherent(m) && Fits(l, m.ram) && i < l.maxEvents
    ensures Coherent(WriteKey(l, m, i, k, false)) && WriteKey(l, m, i, k, false).ram == PutKey(l, m.ram, i, k)
  {
    SlotFits(l, i);
    var a := SlotAddr(l, i);
    var m1 := Put(m, a, HighByte(k.nn));
    var m2 := Put(m1, a + 1, LowByte(k.nn));
    var m3 := Put(m2, a + 2, HighByte(k.en));
    PutKeepsCoherent(m, a, HighByte(k.nn));
    PutKeepsCoherent(m1, a + 1, LowByte(k.nn));
    PutKeepsCoherent(m2, a + 2, HighByte(k.en));
    PutKeepsCoherent(m3, a + 3, LowByte(k.en));
  }

  lemma WriteKeySettles(l: Layout, m: Memory, i: nat, k: Key)
    requires Settled(m) && Fits(l, m.ram) && i < l.maxEvents
    ensures Settled(WriteKey(l, m, i, k, true)) && WriteKey(l, m, i, k, true).ram == PutKey(l, m.ram, i, k)
  {
    SettledIsCoherent(m);
    WriteKeyInRam(l, m, i, k);
    FlushSettles(WriteKey(l, m, i, k, false));
  }

  /** Starting again from the flash restores the whole state: events, variables, index and identity. */
  lemma {:induction false} RestartRestores(l: Layout, st: Store)
    requires Sound(l, st)
    ensures Begin(l, st.mem.flash) == st
  {}

  // ---- Every command keeps the store sound ----

  /** The index entries of all slots but `i` are up to date. */
  predicate IndexedExcept(l: Layout, ram: seq<byte>, t: seq<byte>, i: nat) {
    Fits(l, ram) && |t| == l.maxEvents && forall j :: 0 <= j < l.maxEvents && j != i ==> t[j] == Entry(KeyAt(l, ram, j))
  }

  lemma ReindexedIsIndexed(l: Layout, st: Store, i: nat)
    requires IndexedExcept(l, st.mem.ram, st.index, i) && i < l.maxEvents
    ensures Indexed(l, st.mem.ram, Reindexed(l, st, i).index, Reindexed(l, st, i).collisions)
  {
    hide Entry, KeyAt;
    assert st.index[i := Entry(KeyAt(l, st.mem.ram, i))] == IndexOf(l, st.mem.ram, l.maxEvents);
  }

  lemma {:induction false} SameIndex(l: Layout, a: seq<byte>, b: seq<byte>, n: nat)
    requires Fits(l, a) && Fits(l, b) && n <= l.maxEvents
    requires forall x :: l.eventsStart <= x < l.EventsEnd() ==> a[x] == b[x]
    ensures IndexOf(l, a, n) == IndexOf(l, b, n)
  {
    if n > 0 {
      SameIndex(l, a, b, n - 1);
      SameEvents(l, a, b, n - 1);
    }
  }

  /** A flushed write outside the event area. */
  lemma OutsideWriteKeepsIndex(l: Layout, st: Store, m: Memory)
    requires Sound(l, st) && Settled(m)
    requires forall x :: l.eventsStart <= x < l.EventsEnd() ==> m.ram[x] == st.mem.ram[x]
    ensures Indexed(l, m.ram, st.index, st.collisions)
  {
    SameIndex(l, m.ram, st.mem.ram, l.maxEvents);
  }

  lemma {:induction false} SetFlimSound(l: Layout, st: Store, flim: bool)
    requires Sound(l, st)
    ensures Sound(l, SetFlim(st, flim))
  {
    WriteSettles(st.mem, OFS_FLIM, if flim then 1 else 0);
    OutsideWriteKeepsIndex(l, st, SetFlim(st, flim).mem);
  }

  lemma {:induction false} SetCanIdSound(l: Layout, st: Store, id: byte)
    requires Sound(l, st)
    ensures Sound(l, SetCanId(st, id))
  {
    if 1 <= id <= 99 {
      WriteSettles(st.mem, OFS_CANID, id);
      OutsideWriteKeepsIndex(l, st, SetCanId(st, id).mem);
    }
  }

  lemma SetNodeNumSettles(st: Store, nn: word)
    requires Settled(st.mem)
    ensures var m := SetNodeNum(st, nn).mem;
            Settled(m) && m.ram == st.mem.ram[OFS_NN_HIGH := HighByte(nn)][OFS_NN_LOW := LowByte(nn)]
  {
    SettledIsCoherent(st.mem);
    var m1 := Put(st.mem, OFS_NN_HIGH, HighByte(nn));
    PutKeepsCoherent(st.mem, OFS_NN_HIGH, HighByte(nn));
    PutKeepsCoherent(m1, OFS_NN_LOW, LowByte(nn));
    FlushSettles(Put(m1, OFS_NN_LOW, LowByte(nn)));
  }

  lemma {:induction false} SetNodeNumSound(l: Layout, st: Store, nn: word)
    requires Sound(l, st)
    ensures Sound(l, SetNodeNum(st, nn))
  {
    SetNodeNumSettles(st, nn);
    WordParts(nn);
    OutsideWriteKeepsIndex(l, st, SetNodeNum(st, nn).mem);
  }

  lemma {:induction false} SetNvSound(l: Layout, st: Store, n: nat, v: byte)
    requires Sound(l, st) && 1 <= n <= l.numNvs
    ensures Sound(l, SetNv(l, st, n, v))
  {
    WriteSettles(st.mem, l.nvsStart + n - 1, v);
    OutsideWriteKeepsIndex(l, st, SetNv(l, st, n, v).mem);
  }

  /** The memory after a slot was written differs there and nowhere in the identity. */
  predicate SlotWritten(l: Layout, st: Store, m: Memory, i: nat) {
    && Settled(m) && Fits(l, m.ram) && |st.mem.ram| == SECTOR && i < l.maxEvents
    && (forall x :: 0 <= x < 6 ==> m.ram[x] == st.mem.ram[x])
    && IndexedExcept(l, m.ram, st.index, i)
  }

  lemma SlotWrittenSound(l: Layout, st: Store, m: Memory, i: nat)
    requires Sound(l, st) && SlotWritten(l, st, m, i)
    ensures Sound(l, Reindexed(l, st.(mem := m), i))
  {
    ReindexedIsIndexed(l, st.(mem := m), i);
    hide IndexOf, Entry, KeyAt;
  }

  lemma KeyWriteIsSlotWrite(l: Layout, st: Store, i: nat, k: Key)
    requires Sound(l, st) && i < l.maxEvents
    ensures SlotWritten(l, st, WriteKey(l, st.mem, i, k, true), i)
    ensures WriteKey(l, st.mem, i, k, true).ram == PutKey(l, st.mem.ram, i, k)
  {
    hide Entry, WriteKey, KeyAt, PutKey, SlotAddr;
    WriteKeySettles(l, st.mem, i, k);
    KeysPut(l, st.mem.ram, i, k);
  }

  lemma EvWriteIsSlotWrite(l: Layout, st: Store, m: Memory, i: nat, n: nat, v: byte)
    requires Sound(l, st) && SlotWritten(l, st, m, i) && 1 <= n <= l.numEvs
    ensures SlotAddr(l, i) + 3 + n < SECTOR
    ensures SlotWritten(l, st, Write(m, SlotAddr(l, i) + 3 + n, v, true), i)
    ensures Write(m, SlotAddr(l, i) + 3 + n, v, true).ram == PutEv(l, m.ram, i, n, v)
  {
    SlotFits(l, i);
    hide Entry, Write, KeyAt, SlotAddr;
    WriteSettles(m, SlotAddr(l, i) + 3 + n, v);
    KeysKeptByEv(l, m.ram, i, n, v);
  }

  lemma NoSlotWrite(l: Layout, st: Store, i: nat)
    requires Sound(l, st) && i < l.maxEvents
    ensures SlotWritten(l, st, st.mem, i)
  {}

  /** The sector after an event was taught into slot `i`. */
  function Taught(l: Layout, ram: seq<byte>, i: nat, k: Key, n: nat, v: byte): seq<byte>
    requires Fits(l, ram) && i < l.maxEvents && 1 <= n <= l.numEvs
  {
    PutEv(l, if n < 2 then PutKey(l, ram, i, k) else ram, i, n, v)
  }

  /** The memory after teaching slot `i`. */
  function TeachSlot(l: Layout, m: Memory, i: nat, k: Key, n: nat, v: byte): (m': Memory)
    requires Sized(m)
    ensures Sized(m')
  {
    Write(if n < 2 then WriteKey(l, m, i, k, true) else m, SlotAddr(l, i) + 3 + n, v, true)
  }

  lemma TeachIsSlotWrite(l: Layout, st: Store, i: nat, k: Key, n: nat, v: byte)
    requires Sound(l, st) && i < l.maxEvents && 1 <= n <= l.numEvs
    ensures SlotWritten(l, st, TeachSlot(l, st.mem, i, k, n, v), i)
    ensures TeachSlot(l, st.mem, i, k, n, v).ram == Taught(l, st.mem.ram, i, k, n, v)
  {
    assert Sized(st.mem);
    hide SlotWritten, Sound, KeyAt, PutKey, PutEv, SlotAddr, Write, WriteKey;
    if n < 2 {
      KeyWriteIsSlotWrite(l, st, i, k);
      EvWriteIsSlotWrite(l, st, WriteKey(l, st.mem, i, k, true), i, n, v);
    } else {
      NoSlotWrite(l, st, i);
      EvWriteIsSlotWrite(l, st, st.mem, i, n, v);
    }
  }

  lemma {:induction false} LearnSound(l: Layout, st: Store, k: Key, n: nat, v: byte)
    requires Sound(l, st) && 1 <= n <= l.numEvs
    ensures Sound(l, Learn(l, st, k, n, v))
    ensures var i := LearnSlot(l, st, k);
            Learn(l, st, k, n, v).mem.ram == if i < l.maxEvents then Taught(l, st.mem.ram, i, k, n, v) else st.mem.ram
  {
    hide SlotWritten, LearnSlot, TeachSlot, Taught, KeyAt;
    var i := LearnSlot(l, st, k);
    if i < l.maxEvents {
      TeachIsSlotWrite(l, st, i, k, n, v);
      SlotWrittenSound(l, st, TeachSlot(l, st.mem, i, k, n, v), i);
    }
  }

  lemma {:induction false} UnlearnSound(l: Layout, st: Store, k: Key)
    requires Sound(l, st)
    ensures Sound(l, Unlearn(l, st, k))
    ensures var i := Scan(l, st.mem.ram, k, 0);
            Unlearn(l, st, k).mem.ram == if i < l.maxEvents then PutKey(l, st.mem.ram, i, UNUSED) else st.mem.ram
  {
    var i := Scan(l, st.mem.ram, k, 0);
    if i < l.maxEvents {
      KeyWriteIsSlotWrite(l, st, i, UNUSED);
      SlotWrittenSound(l, st, WriteKey(l, st.mem, i, UNUSED, true), i);
    }
  }

  /** `c` is `m` with the first `n` slots free and the identity untouched. */
  predicate FreedUpTo(l: Layout, m: Memory, c: Memory, n: nat) {
    && Coherent(c) && Fits(l, m.ram) && Fits(l, c.ram) && n <= l.maxEvents
    && (forall x :: 0 <= x < 6 ==> c.ram[x] == m.ram[x])
    && (forall j :: 0 <= j < n ==> KeyAt(l, c.ram, j) == UNUSED)
  }

  lemma NoneFreed(l: Layout, m: Memory)
    requires Coherent(m) && Fits(l, m.ram)
    ensures Sized(m) && FreedUpTo(l, m, m, 0)
  {}

  lemma FreeOneMore(l: Layout, m: Memory, c: Memory, n: nat)
    requires FreedUpTo(l, m, c, n) && n < l.maxEvents
    ensures FreedUpTo(l, m, WriteKey(l, c, n, UNUSED, false), n + 1)
  {
    hide KeyAt, WriteKey, PutKey, Coherent;
    assert Coherent(c);
    WriteKeyInRam(l, c, n, UNUSED);
    KeysPut(l, c.ram, n, UNUSED);
  }

  lemma {:induction false} KeysCleared(l: Layout, m: Memory, n: nat)
    requires Coherent(m) && Fits(l, m.ram) && n <= l.maxEvents
    ensures FreedUpTo(l, m, ClearKeys(l, m, n), n)
  {
    hide FreedUpTo, WriteKey, Coherent, Fits, Sized;
    NoneFreed(l, m);
    if n > 0 {
      KeysCleared(l, m, n - 1);
      FreeOneMore(l, m, ClearKeys(l, m, n - 1), n - 1);
    }
  }

  lemma {:induction false} IndexOfCleared(l: Layout, ram: seq<byte>, n: nat)
    requires Fits(l, ram) && n <= l.maxEvents && forall j :: 0 <= j < n ==> KeyAt(l, ram, j) == UNUSED
    ensures IndexOf(l, ram, n) == Zeros(n)
  {
    if n > 0 {
      IndexOfCleared(l, ram, n - 1);
    }
  }

  lemma {:induction false} ClearAllSound(l: Layout, st: Store)
    requires Sound(l, st)
    ensures Sound(l, ClearAll(l, st))
    ensures forall j :: 0 <= j < l.maxEvents ==> KeyAt(l, ClearAll(l, st).mem.ram, j) == UNUSED
  {
    SettledIsCoherent(st.mem);
    KeysCleared(l, st.mem, l.maxEvents);
    FlushSettles(ClearKeys(l, st.mem, l.maxEvents));
    IndexOfCleared(l, ClearAll(l, st).mem.ram, l.maxEvents);
  }

  /** A sector that was never initialised becomes one with the default identity. */
  lemma InitialisedSettles(st: Store)
    requires Settled(st.mem)
    ensures var st' := Initialised(st);
            && Settled(st'.mem) && st' == st.(mem := st'.mem, flim := false, canId := 1, nodeNum := 0)
            && st'.mem.ram ==
                 st.mem.ram[OFS_FLIM := 0][OFS_CANID := 1][OFS_NN_HIGH := 0][OFS_NN_LOW := 0][OFS_RESET := 0]
  {
    hide Write;
    WriteSettles(st.mem, OFS_FLIM, 0);
    var st1 := SetFlim(st, false);
    WriteSettles(st1.mem, OFS_CANID, 1);
    var st2 := SetCanId(st1, 1);
    SetNodeNumSettles(st2, 0);
    var st3 := SetNodeNum(st2, 0);
    WriteSettles(st3.mem, OFS_RESET, 0);
  }

  /** Whatever the flash holds, start-up leaves the store sound. */
  lemma {:induction false} BeginSound(l: Layout, flash: seq<byte>)
    requires Fits(l, flash)
    ensures Sound(l, Begin(l, flash))
    ensures flash[OFS_RESET] != 0xFF ==> Begin(l, flash).mem.ram == flash
  {
    if flash[OFS_RESET] == 0xFF {
      var t := IndexOf(l, flash, l.maxEvents);
      DefaultsSound(l, Store(Memory(flash, flash, false, false), t, Collides(t), 0, false, 0));
    }
  }

  /** The identity byte by byte in the flash: the mode, the CAN id, the node number with the upper byte first. */
  lemma {:induction false} IdentityBytes(l: Layout, st: Store)
    requires Sound(l, st)
    ensures var flash := st.mem.flash;
            && |flash| == SECTOR && st.flim == (flash[0] != 0) && st.canId == flash[1]
            && st.nodeNum == flash[2] as nat * 0x100 + flash[3] && flash[5] != 0xFF
  {
    hide IndexOf, Collides;
  }

  /** A sector that was never initialised, with 0xFF in byte 5, comes up in SLiM with CAN id 1 and no number; these
      are stored and the mark is cleared, and no other byte changes. */
  lemma {:induction false} VirginStart(l: Layout, flash: seq<byte>)
    requires Fits(l, flash) && flash[5] == 0xFF
    ensures var st := Begin(l, flash);
            && !st.flim && st.canId == 1 && st.nodeNum == 0
            && st.mem.ram == st.mem.flash == flash[0 := 0][1 := 1][2 := 0][3 := 0][5 := 0]
  {
    hide Initialised, IndexOf, Collides;
    var t := IndexOf(l, flash, l.maxEvents);
    InitialisedSettles(Store(Memory(flash, flash, false, false), t, Collides(t), 0, false, 0));
  }

  lemma DefaultsSound(l: Layout, st: Store)
    requires Settled(st.mem) && Indexed(l, st.mem.ram, st.index, st.collisions)
    ensures Sound(l, Initialised(st))
  {
    hide Initialised, Collides, IndexOf;
    InitialisedSettles(st);
    SameIndex(l, Initialised(st).mem.ram, st.mem.ram, l.maxEvents);
  }
}
