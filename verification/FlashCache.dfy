/** The RAM cache of one flash sector and its write-back. */
module FlashCache {
  import opened Can
  import opened Nor

  const SECTOR: nat := 4096

  datatype Memory = Memory(ram: seq<byte>, flash: seq<byte>, modified: bool, zeroToOne: bool)

  /** Write one byte to the cache; an address beyond the sector is ignored. */
  function Put(m: Memory, addr: nat, value: byte): (m': Memory)
    ensures |m'.ram| == |m.ram| && m'.flash == m.flash
  {
    if addr >= |m.ram| then m else
    m.(ram := m.ram[addr := value],
       modified := m.modified || value != m.ram[addr],
       zeroToOne := m.zeroToOne || !Within(value, m.ram[addr]))
  }

  function Erased(): (s: seq<byte>)
    ensures |s| == SECTOR
  {
    seq(SECTOR, i => 0xFF)
  }

  /** Programming a sector: every cell keeps only the bits of the new value that it already has. */
  function Programmed(flash: seq<byte>, data: seq<byte>): (s: seq<byte>)
    requires |flash| == |data|
    ensures |s| == |flash|
    ensures forall i :: 0 <= i < |s| ==> s[i] == And(flash[i], data[i])
  {
    if flash == [] then [] else
    Programmed(flash[..|flash| - 1], data[..|data| - 1]) + [And(flash[|flash| - 1], data[|data| - 1])]
  }

  predicate Sized(m: Memory) { |m.ram| == |m.flash| == SECTOR }

  /** Write the cache back. */
  function Flush(m: Memory): (m': Memory)
    requires Sized(m)
    ensures Sized(m') && m'.ram == m.ram
  {
    var flash := if !m.modified then m.flash
                 else Programmed(if m.zeroToOne then Erased() else m.flash, m.ram);
    Memory(m.ram, flash, false, false)
  }

  predicate OnlyClears(m: Memory)
    requires Sized(m)
  {
    forall i :: 0 <= i < SECTOR ==> Within(m.ram[i], m.flash[i])
  }

  /** What the two flags promise: unmodified means equal, and no zero-to-one means that no cell of the
      flash would have to gain a bit. */
  predicate Coherent(m: Memory) {
    Sized(m) && (!m.modified ==> m.ram == m.flash) && (!m.zeroToOne ==> OnlyClears(m))
  }

  predicate Settled(m: Memory) {
    Sized(m) && m.ram == m.flash && !m.modified && !m.zeroToOne
  }

  lemma SettledIsCoherent(m: Memory)
    requires Settled(m)
    ensures Coherent(m)
  {
    forall i | 0 <= i < SECTOR ensures Within(m.ram[i], m.flash[i]) { WithinReflexive(m.ram[i]); }
  }

  lemma PutKeepsCoherent(m: Memory, addr: nat, value: byte)
    requires Coherent(m)
    ensures Coherent(Put(m, addr, value))
  {
    var m' := Put(m, addr, value);
    if addr < SECTOR {
      if !m'.modified {
        assert m'.ram == m.ram;
      }
      if !m'.zeroToOne {
        WithinTransitive(value, m.ram[addr], m.flash[addr]);
      }
    }
  }

  lemma FlushSettles(m: Memory)
    requires Coherent(m)
    ensures Settled(Flush(m))
  {
    var m' := Flush(m);
    if m.modified {
      forall i | 0 <= i < SECTOR
        ensures m'.flash[i] == m.ram[i]
      {
        ErasedTakesAll(m.ram[i]);
        ProgramExactlyWhen(m.flash[i], m.ram[i]);
      }
      assert m'.flash == m.ram;
    }
  }

  datatype Access = CachedWrite(addr: nat, value: byte) | Commit

  function Perform(m: Memory, a: Access): (m': Memory)
    requires Sized(m)
    ensures Sized(m')
  {
    match a case CachedWrite(addr, value) => Put(m, addr, value) case Commit => Flush(m)
  }

  function Run(m: Memory, accesses: seq<Access>): (m': Memory)
    requires Sized(m)
    ensures Sized(m')
  {
    if accesses == [] then m else Perform(Run(m, accesses[..|accesses| - 1]), accesses[|accesses| - 1])
  }

  /** After any sequence of cached writes and flushes, one more flush leaves the flash byte for byte
      equal to the cache. */
  lemma {:induction false} WriteBack(m: Memory, accesses: seq<Access>)
    requires Coherent(m)
    ensures Coherent(Run(m, accesses))
    ensures Flush(Run(m, accesses)).flash == Run(m, accesses).ram
  {
    assert Sized(m);
    hide Put, Flush, Coherent;
    if accesses != [] {
      var before := Run(m, accesses[..|accesses| - 1]);
      WriteBack(m, accesses[..|accesses| - 1]);
      match accesses[|accesses| - 1] {
        case CachedWrite(addr, value) => PutKeepsCoherent(before, addr, value);
        case Commit => FlushSettles(before); SettledIsCoherent(Flush(before));
      }
    }
    FlushSettles(Run(m, accesses));
  }

  /** Programming a sector that holds `m.flash` without erasing it first works exactly when no bit would
      have to be set. */
  lemma EraseNeededExactlyWhen(m: Memory)
    requires Sized(m)
    ensures Programmed(m.flash, m.ram) == m.ram <==> OnlyClears(m)
  {
    var p := Programmed(m.flash, m.ram);
    forall i | 0 <= i < SECTOR
      ensures p[i] == m.ram[i] <==> Within(m.ram[i], m.flash[i])
    {
      ProgramExactlyWhen(m.flash[i], m.ram[i]);
    }
    if OnlyClears(m) {
      assert p == m.ram;
    }
  }

  // ---- What the flags say of the writes since the last flush ----

  /** The sector after these accesses, as the program sees it. */
  function Contents(ram: seq<byte>, accesses: seq<Access>): (c: seq<byte>)
    ensures |c| == |ram|
  {
    if accesses == [] then ram else
    var c, a := Contents(ram, accesses[..|accesses| - 1]), accesses[|accesses| - 1];
    if a.CachedWrite? && a.addr < |c| then c[a.addr := a.value] else c
  }

  /** Since the last flush some write changed a byte. */
  predicate Changed(ram: seq<byte>, accesses: seq<Access>) {
    accesses != [] &&
    var front := accesses[..|accesses| - 1];
    match accesses[|accesses| - 1]
    case CachedWrite(addr, value) => Changed(ram, front) || (addr < |ram| && value != Contents(ram, front)[addr])
    case Commit => false
  }

  /** Since the last flush some write set a bit that was clear. */
  predicate BitSet(ram: seq<byte>, accesses: seq<Access>) {
    accesses != [] &&
    var front := accesses[..|accesses| - 1];
    match accesses[|accesses| - 1]
    case CachedWrite(addr, value) => BitSet(ram, front) || (addr < |ram| && !Within(value, Contents(ram, front)[addr]))
    case Commit => false
  }

  /** After any sequence of cached writes and flushes the next flush programs the sector exactly when a byte has changed
      since the last one, and erases it first exactly when a bit was set. */
  lemma {:induction false} FlagsExactlyWhen(m: Memory, accesses: seq<Access>)
    requires Settled(m)
    ensures var m' := Run(m, accesses);
            && m'.ram == Contents(m.ram, accesses)
            && (m'.modified <==> Changed(m.ram, accesses)) && (m'.zeroToOne <==> BitSet(m.ram, accesses))
  {
    hide Within;
    if accesses != [] { FlagsExactlyWhen(m, accesses[..|accesses| - 1]); }
  }
}
