/** CBUSConfig: the flash sector, its cache, the hash table over the events, and the identity. */
module ModuleConfigs {
  import opened Can
  import opened Nor
  import opened FlashCache
  import opened EventTable
  import opened EventStore
  import opened EventRuns

  class ModuleConfig {
    const l: Layout
    const buf: array<byte>   // the cache
    const chip: array<byte>  // the flash sector
    var table: array<byte>   // one hash for each event slot
    var hashCollisions: bool
    var flashModified: bool
    var flashZeroToOne: bool
    var canId: byte
    var flim: bool
    var nodeNum: word

    predicate Valid()
      reads this`table
    {
      && l.Valid() && buf.Length == SECTOR && chip.Length == SECTOR
      && buf != chip && table != buf && table != chip
    }

    ghost function Mem(): (m: Memory)
      reads this`flashModified, this`flashZeroToOne, buf, chip
    {
      Memory(buf[..], chip[..], flashModified, flashZeroToOne)
    }

    ghost function State(): (st: Store)
      reads this, buf, chip, table
    {
      Store(Mem(), table[..], hashCollisions, canId, flim, nodeNum)
    }

    ghost predicate Ready()
      reads this, buf, chip, table
    {
      Valid() && Sound(l, State())
    }

    /** The application's layout, and a chip of one sector. */
    constructor (l: Layout, chip: array<byte>)
      requires l.Valid() && chip.Length == SECTOR
      ensures Valid() && this.l == l && this.chip == chip && fresh(buf) && fresh(table)
      ensures chip[..] == old(chip[..]) && !flashModified && !flashZeroToOne
      ensures !hashCollisions && canId == 0 && !flim && nodeNum == 0
    {
      this.l, this.chip := l, chip;
      buf := new byte[SECTOR](i => 0);
      table := new byte[0];
      hashCollisions, flashModified, flashZeroToOne := false, false, false;
      canId, flim, nodeNum := 0, false, 0;
    }

    // ---- The cache ----

    method SetChipVal(addr: nat, v: byte)
      requires Valid()
      modifies buf, this`flashModified, this`flashZeroToOne
      ensures Mem() == Put(old(Mem()), addr, v)
    {
      if addr < buf.Length {
        var cur := buf[addr];
        if v != cur {
          flashModified := true;
        }
        if !Within(v, cur) {
          flashZeroToOne := true;
        }
        buf[addr] := v;
      }
    }

    method GetChipVal(addr: nat) returns (v: byte)
      requires Valid()
      ensures v == if addr < SECTOR then buf[addr] else 0xFF
    {
      v := if addr < buf.Length then buf[addr] else 0xFF;
    }

    method EraseRange()
      requires Valid()
      modifies chip
      ensures chip[..] == Erased()
    {
      for i := 0 to SECTOR
        invariant forall j :: 0 <= j < i ==> chip[j] == 0xFF
      {
        chip[i] := 0xFF;
      }
    }

    method ProgramRange()
      requires Valid()
      modifies chip
      ensures chip[..] == Programmed(old(chip[..]), buf[..])
    {
      for i := 0 to SECTOR
        invariant forall j :: 0 <= j < i ==> chip[j] == And(old(chip[j]), buf[j])
        invariant forall j :: i <= j < SECTOR ==> chip[j] == old(chip[j])
      {
        chip[i] := And(chip[i], buf[i]);
      }
    }

    method FlushToFlash()
      requires Valid()
      modifies chip, this`flashModified, this`flashZeroToOne
      ensures Sized(old(Mem())) && Mem() == Flush(old(Mem()))
    {
      hide And, Programmed, Erased;
      if flashModified {
        if flashZeroToOne {
          EraseRange();
        }
        ProgramRange();
      }
      flashModified := false;
      flashZeroToOne := false;
    }

    method WriteEeprom(addr: nat, v: byte, flush: bool)
      requires Valid()
      modifies buf, chip, this`flashModified, this`flashZeroToOne
      ensures Sized(old(Mem())) && Mem() == Write(old(Mem()), addr, v, flush)
    {
      hide Put, Flush;
      SetChipVal(addr, v);
      if flush {
        FlushToFlash();
      }
    }
  
    // ---- Events ----

    method ReadEvent(i: nat) returns (k: Key)
      requires Valid() && i < l.maxEvents
      ensures k == KeyAt(l, buf[..], i)
    {
      SlotFits(l, i);
      var a := l.eventsStart + i * (l.numEvs + 4);
      var b0 := GetChipVal(a);
      var b1 := GetChipVal(a + 1);
      var b2 := GetChipVal(a + 2);
      var b3 := GetChipVal(a + 3);
      k := Key(Word(b0, b1), Word(b2, b3));
    }

    method GetEventEv(i: nat, n: nat) returns (v: byte)
      requires Valid() && i < l.maxEvents && 1 <= n <= l.numEvs
      ensures v == EvAt(l, buf[..], i, n)
    {
      SlotFits(l, i);
      v := GetChipVal(l.eventsStart + i * (l.numEvs + 4) + 3 + n);
    }

    method WriteEventEv(i: nat, n: nat, v: byte)
      requires Valid()
      modifies buf, chip, this`flashModified, this`flashZeroToOne
      ensures Sized(old(Mem())) && Mem() == Write(old(Mem()), SlotAddr(l, i) + 3 + n, v, true)
    {
      hide Write;
      WriteEeprom(l.eventsStart + i * (l.numEvs + 4) + 3 + n, v, true);
    }

    method WriteEvent(i: nat, k: Key, flush: bool)
      requires Valid()
      modifies buf, chip, this`flashModified, this`flashZeroToOne
      ensures Sized(old(Mem())) && Mem() == WriteKey(l, old(Mem()), i, k, flush)
    {
      hide Write, Flush, HighByte, LowByte;
      var a := l.eventsStart + i * (l.numEvs + 4);
      WriteEeprom(a, HighByte(k.nn), false);
      WriteEeprom(a + 1, LowByte(k.nn), false);
      WriteEeprom(a + 2, HighByte(k.en), false);
      WriteEeprom(a + 3, LowByte(k.en), false);
      if flush {
        FlushToFlash();
      }
    }

    method ClearEventsEeprom()
      requires Valid()
      modifies buf, chip, this`flashModified, this`flashZeroToOne
      ensures Sized(old(Mem())) && Mem() == Flush(ClearKeys(l, old(Mem()), l.maxEvents))
    {
      hide WriteKey, Flush;
      assert Sized(Mem());
      for e := 0 to l.maxEvents
        invariant Mem() == ClearKeys(l, old(Mem()), e)
      {
        WriteEvent(e, UNUSED, false);
      }
      FlushToFlash();
    }

    // ---- The hash table ----

    method MakeHash(k: Key) returns (h: byte)
      ensures h == Hash(k)
    {
      h := LowByte(Xor(k.en, k.en / 0x100));
      h := LowByte(7 * h + Xor(k.nn, k.nn / 0x100));
      h := h % 128;
      h := if h == 0 then 255 else h;
    }

    method EntryFor(i: nat) returns (h: byte)
      requires Valid() && i < l.maxEvents
      ensures h == Entry(KeyAt(l, buf[..], i))
    {
      hide KeyAt, Hash;
      var k := ReadEvent(i);
      if k == UNUSED {
        h := 0;
      } else {
        h := MakeHash(k);
      }
    }

    method CheckHashCollisions() returns (found: bool)
      ensures found == Collides(table[..])
    {
      if table.Length == 0 { return false; }
      for i := 0 to table.Length - 1
        invariant forall i', j' :: 0 <= i' < i && i' < j' < table.Length ==> !(table[i'] == table[j'] && table[i'] != 0)
      {
        for j := i + 1 to table.Length
          invariant forall j' :: i < j' < j ==> !(table[i] == table[j'] && table[i] != 0)
        {
          if table[i] == table[j] && table[i] != 0 {
            assert table[..][i] == table[..][j];
            return true;
          }
        }
      }
      found := false;
    }

    method MakeEvHashTable()
      requires Valid()
      modifies this`table, this`hashCollisions
      ensures Valid() && fresh(table)
      ensures table[..] == IndexOf(l, buf[..], l.maxEvents) && hashCollisions == Collides(table[..])
    {
      hide Entry, Collides;
      table := new byte[l.maxEvents];
      for i := 0 to l.maxEvents
        modifies table
        invariant table[..i] == IndexOf(l, buf[..], i)
      {
        var h := EntryFor(i);
        table[i] := h;
      }
      assert table[..] == table[..l.maxEvents];
      hashCollisions := CheckHashCollisions();
    }

    method UpdateEvHashEntry(i: nat)
      requires Valid() && i < l.maxEvents == table.Length
      modifies table, this`hashCollisions
      ensures State() == Reindexed(l, old(State()), i)
    {
      hide Entry, Collides;
      var h := EntryFor(i);
      table[i] := h;
      hashCollisions := CheckHashCollisions();
    }

    method ClearEvHashTable()
      requires Valid() && table.Length == l.maxEvents
      modifies table, this`hashCollisions
      ensures table[..] == Zeros(l.maxEvents) && !hashCollisions
    {
      for i := 0 to l.maxEvents
        invariant forall j :: 0 <= j < i ==> table[j] == 0
      {
        table[i] := 0;
      }
      hashCollisions := false;
    }

    method NumEvents() returns (n: nat)
      ensures n == StoredUpTo(table[..], table.Length)
    {
      n := 0;
      for i := 0 to table.Length
        invariant n == StoredUpTo(table[..], i)
      {
        if table[i] != 0 {
          n := n + 1;
        }
      }
    }

    method FindEventSpace() returns (i: nat)
      requires Valid() && Indexed(l, buf[..], table[..], hashCollisions)
      ensures i == FirstFree(l, buf[..], 0)
    {
      hide KeyAt, Hash;
      i := 0;
      while i < l.maxEvents && table[i] != 0
        invariant i <= l.maxEvents && FirstFree(l, buf[..], i) == FirstFree(l, buf[..], 0)
      {
        i := i + 1;
      }
    }
  
    // ---- The search ----

    method CountHash(h: byte) returns (matches: nat)
      ensures matches == Matches(table[..], h, table.Length)
    {
      matches := 0;
      for j := 0 to table.Length
        invariant matches == Matches(table[..], h, j)
      {
        if table[j] == h {
          matches := matches + 1;
        }
      }
    }

    /** The very slow way: every candidate is compared with the event it stores. */
    method SearchCandidates(k: Key, h: byte) returns (i: nat, confirmed: bool)
      requires Valid() && Indexed(l, buf[..], table[..], hashCollisions) && h == Hash(k)
      ensures i == Scan(l, buf[..], k, 0) && confirmed == (i < l.maxEvents)
    {
      hide KeyAt, Hash, Collides;
      i := 0;
      while i < l.maxEvents
        invariant i <= l.maxEvents
        invariant forall j :: 0 <= j < i ==> !(table[..][j] == h && KeyAt(l, buf[..], j) == k)
      {
        if table[i] == h {
          var stored := ReadEvent(i);
          if stored == k {
            NoHashNoMatch(l, buf[..], k, table[..], i);
            return i, true;
          }
        }
        i := i + 1;
      }
      NoHashNoMatch(l, buf[..], k, table[..], i);
      confirmed := false;
    }

    /** One candidate is left; the event it stores decides. */
    method ConfirmCandidate(k: Key, candidate: nat) returns (i: nat)
      requires Valid() && Indexed(l, buf[..], table[..], hashCollisions) && Only(table[..], Hash(k), candidate)
      ensures i == Scan(l, buf[..], k, 0)
    {
      hide KeyAt, Hash, Collides;
      OnlyCandidate(l, buf[..], k, table[..], candidate);
      var stored := ReadEvent(candidate);
      i := if stored == k then candidate else l.maxEvents;
    }

    /** The hashed search finds exactly what comparing every used slot from the first on would find. */
    method FindExistingEvent(nn: word, en: word) returns (i: nat)
      requires Valid() && Indexed(l, buf[..], table[..], hashCollisions)
      ensures i == Scan(l, buf[..], Key(nn, en), 0)
    {
      hide KeyAt, Hash, Collides, Scan, IndexOf;
      var k := Key(nn, en);
      var h := MakeHash(k);
      var confirmed := false;
      i := 0;
      while i < l.maxEvents && table[i] != h
        invariant i <= l.maxEvents && forall j :: 0 <= j < i ==> table[..][j] != h
      {
        i := i + 1;
      }
      if i == l.maxEvents {
        NoHashNoMatch(l, buf[..], k, table[..], i);
      } else {
        if hashCollisions {
          var matches := CountHash(h);
          if matches > 1 {
            i, confirmed := SearchCandidates(k, h);
          } else {
            CandidateIsOnly(table[..], h, i);
          }
        } else {
          CandidateIsOnly(table[..], h, i);
        }
      }
      if i < l.maxEvents && !confirmed {
        i := ConfirmCandidate(k, i);
      }
    }
  
    // ---- Identity and node variables ----

    method SetFlim(f: bool)
      requires Valid()
      modifies buf, chip, this`flashModified, this`flashZeroToOne, this`flim
      ensures Sized(old(Mem())) && State() == EventStore.SetFlim(old(State()), f)
    {
      hide Write;
      flim := f;
      WriteEeprom(OFS_FLIM, if f then 1 else 0, true);
    }

    method SetCanId(id: byte) returns (ok: bool)
      requires Valid()
      modifies buf, chip, this`flashModified, this`flashZeroToOne, this`canId
      ensures ok == (1 <= id <= 99)
      ensures Sized(old(Mem())) && State() == EventStore.SetCanId(old(State()), id)
    {
      hide Write;
      if 1 <= id <= 99 {
        canId := id;
        WriteEeprom(OFS_CANID, id, true);
        return true;
      }
      ok := false;
    }

    method SetNodeNum(nn: word)
      requires Valid()
      modifies buf, chip, this`flashModified, this`flashZeroToOne, this`nodeNum
      ensures Sized(old(Mem())) && State() == EventStore.SetNodeNum(old(State()), nn)
    {
      hide Write, Flush;
      nodeNum := nn;
      WriteEeprom(OFS_NN_HIGH, HighByte(nn), false);
      WriteEeprom(OFS_NN_LOW, LowByte(nn), false);
      FlushToFlash();
    }

    method ReadNv(n: nat) returns (v: byte)
      requires Valid() && 1 <= n <= l.numNvs
      ensures v == buf[l.nvsStart + n - 1]
    {
      v := GetChipVal(l.nvsStart + n - 1);
    }

    method WriteNv(n: nat, v: byte)
      requires Valid()
      modifies buf, chip, this`flashModified, this`flashZeroToOne
      ensures Sized(old(Mem())) && State() == SetNv(l, old(State()), n, v)
    {
      hide Write;
      WriteEeprom(l.nvsStart + n - 1, v, true);
    }

    /** Read the identity, or store the defaults in a sector that was never initialised. */
    method LoadNvs()
      requires Valid()
      modifies buf, chip, this`flashModified, this`flashZeroToOne, this`flim, this`canId, this`nodeNum
      ensures Sized(old(Mem())) && State() == Loaded(old(State()))
    {
      hide Write, Flush, EventStore.SetFlim, EventStore.SetCanId, EventStore.SetNodeNum;
      var resetFlag := GetChipVal(OFS_RESET);
      if resetFlag == 0xFF {
        SetFlim(false);
        var _ := SetCanId(1);
        SetNodeNum(0);
        WriteEeprom(OFS_RESET, 0, true);
      } else {
        var f := GetChipVal(OFS_FLIM);
        flim := f != 0;
        canId := GetChipVal(OFS_CANID);
        var hb := GetChipVal(OFS_NN_HIGH);
        var lb := GetChipVal(OFS_NN_LOW);
        nodeNum := Word(hb, lb);
      }
    }

    method LoadCache()
      requires Valid()
      modifies buf
      ensures buf[..] == chip[..]
    {
      for i := 0 to SECTOR
        invariant forall j :: 0 <= j < i ==> buf[j] == chip[j]
      {
        buf[i] := chip[i];
      }
    }

    /** Start up from what the flash holds. */
    method Begin()
      requires Valid() && !flashModified && !flashZeroToOne
      modifies this, buf, chip
      ensures Valid() && fresh(table)
      ensures State() == EventStore.Begin(l, old(chip[..]))
    {
      hide Loaded, IndexOf, Collides;
      LoadCache();
      MakeEvHashTable();
      LoadedAnew(State(), 0, false, 0);
      LoadNvs();
    }
  }
}
