/** How events lie in the sector, and the 8-bit hash index over them. */
module EventTable {
  import opened Can
  import opened Nor
  import opened FlashCache

  datatype Key = Key(nn: word, en: word)

  const UNUSED: Key := Key(0xFFFF, 0xFFFF)

  /** Where the application puts its events and node variables. */
  datatype Layout = Layout(eventsStart: nat, maxEvents: nat, numEvs: nat, nvsStart: nat, numNvs: nat) {
    /** Both areas lie in the sector, behind the six identity bytes, and do not overlap. */
    predicate Valid() {
      && maxEvents <= 127 && numEvs + 4 < 0x100 && numNvs < 0x100
      && 6 <= eventsStart && EventsEnd() <= SECTOR && 6 <= nvsStart && nvsStart + numNvs <= SECTOR
      && (nvsStart + numNvs <= eventsStart || EventsEnd() <= nvsStart)
    }

    function EventsEnd(): nat { eventsStart + maxEvents * (numEvs + 4) }
  }

  function SlotAddr(l: Layout, i: nat): nat { l.eventsStart + i * (l.numEvs + 4) }

  lemma SlotsInOrder(l: Layout, i: nat, j: nat)
    requires i < j
    ensures SlotAddr(l, i) + l.numEvs + 4 <= SlotAddr(l, j)
  {
    assert j * (l.numEvs + 4) == (i + 1) * (l.numEvs + 4) + (j - i - 1) * (l.numEvs + 4);
  }

  lemma SlotFits(l: Layout, i: nat)
    requires i < l.maxEvents
    ensures l.eventsStart <= SlotAddr(l, i) && SlotAddr(l, i) + l.numEvs + 4 <= l.EventsEnd()
  {
    SlotsInOrder(l, i, l.maxEvents);
  }

  predicate Fits(l: Layout, ram: seq<byte>) { l.Valid() && |ram| == SECTOR }

  function KeyAt(l: Layout, ram: seq<byte>, i: nat): Key
    requires Fits(l, ram) && i < l.maxEvents
  {
    SlotFits(l, i);
    var a := SlotAddr(l, i);
    Key(Word(ram[a], ram[a + 1]), Word(ram[a + 2], ram[a + 3]))
  }

  function EvAt(l: Layout, ram: seq<byte>, i: nat, n: nat): byte
    requires Fits(l, ram) && i < l.maxEvents && 1 <= n <= l.numEvs
  {
    SlotFits(l, i);
    ram[SlotAddr(l, i) + 3 + n]
  }

  /** A slot byte by byte: node number and event number with the upper byte first, then the variables. A slot is free
      when the four bytes are those of an erased sector. */
  lemma {:induction false} SlotBytes(l: Layout, ram: seq<byte>, i: nat)
    requires Fits(l, ram) && i < l.maxEvents
    ensures var a := l.eventsStart + i * (l.numEvs + 4);
            && a + l.numEvs + 4 <= SECTOR
            && KeyAt(l, ram, i).nn == ram[a] as nat * 0x100 + ram[a + 1]
            && KeyAt(l, ram, i).en == ram[a + 2] as nat * 0x100 + ram[a + 3]
            && (Used(l, ram, i) <==> ram[a..a + 4] != [0xFF, 0xFF, 0xFF, 0xFF])
            && forall n :: 1 <= n <= l.numEvs ==> EvAt(l, ram, i, n) == ram[a + 3 + n]
  {
    SlotFits(l, i);
    hide SlotAddr;
    assert SlotAddr(l, i) == l.eventsStart + i * (l.numEvs + 4) by { SlotStart(l, i); }
    FourBytes(ram, SlotAddr(l, i));
  }

  lemma FourBytes(ram: seq<byte>, a: nat)
    requires a + 4 <= |ram|
    ensures Key(Word(ram[a], ram[a + 1]), Word(ram[a + 2], ram[a + 3])) == UNUSED
            <==> ram[a..a + 4] == [0xFF, 0xFF, 0xFF, 0xFF]
  {
    assert ram[a..a + 4] == [ram[a], ram[a + 1], ram[a + 2], ram[a + 3]];
  }

  lemma SlotStart(l: Layout, i: nat)
    ensures SlotAddr(l, i) == l.eventsStart + i * (l.numEvs + 4)
  {}

  function Used(l: Layout, ram: seq<byte>, i: nat): bool
    requires Fits(l, ram) && i < l.maxEvents
  {
    KeyAt(l, ram, i) != UNUSED
  }

  // ---- The hash index ----

  /** Eight bits of node number and event number, never zero. */
  function Hash(k: Key): (h: byte)
    ensures h != 0
  {
    var e := LowByte(Xor(k.en, k.en / 0x100));
    var h := LowByte(7 * e + Xor(k.nn, k.nn / 0x100)) % 128;
    if h == 0 then 255 else h
  }

  /** The low seven bits of the exclusive or of the two bytes. */
  function Folded(w: word): nat { Xor(w % 128, w / 0x100 % 128) }

  function Mixed(en: nat, nn: nat): nat { (7 * en + nn) % 128 }

  /** Seven has an inverse modulo 128. */
  lemma SevenTimes(a: nat, b: nat, c: nat)
    requires Mixed(a, c) == Mixed(b, c) && a < 128 && b < 128
    ensures a == b
  {
    SevenDivides(a - b, (7 * a + c) / 128 - (7 * b + c) / 128);
  }

  lemma SevenDivides(d: int, t: int)
    requires 7 * d == 128 * t && -128 < d < 128
    ensures d == 0
  {
    var u := d - 18 * t;
    assert 7 * u == 2 * t && -7 < t < 7;
  }

  lemma HalfOfByte(x: nat)
    ensures LowByte(x) % 128 == x % 128
  {
    assert x == x / 0x100 * 0x100 + LowByte(x);
    assert x == x / 0x100 * 2 * 128 + LowByte(x);
  }

  lemma FoldedIs(w: word)
    ensures Xor(w, w / 0x100) % 128 == Folded(w) < 128
  {
    hide Low, Xor;
    XorOfLow(w, w / 0x100, 7);
    LowIsRest(w);
    LowIsRest(w / 0x100);
    LowIsRest(Xor(w, w / 0x100));
  }

  lemma MixedParts(e: nat, a: nat, x: nat, b: nat)
    requires e % 128 == a && x % 128 == b
    ensures (7 * e + x) % 128 == Mixed(a, b)
  {
    var n := 7 * a + b;
    RestOf(7 * e + x, n % 128, n / 128 + 7 * (e / 128) + x / 128);
  }

  lemma HashIsMixed(k: Key)
    ensures Folded(k.en) < 128 && Folded(k.nn) < 128
    ensures var h := Mixed(Folded(k.en), Folded(k.nn));
            h < 128 && Hash(k) == if h == 0 then 255 else h
  {
    hide Xor, Folded;
    var x, y := Xor(k.en, k.en / 0x100), Xor(k.nn, k.nn / 0x100);
    FoldedIs(k.en);
    FoldedIs(k.nn);
    HalfOfByte(x);
    HalfOfByte(7 * LowByte(x) + y);
    MixedParts(LowByte(x), Folded(k.en), y, Folded(k.nn));
  }

  /** One of the two bytes is the same, and the low seven bits of the other are not. */
  predicate OneByteApart(v: word, w: word) {
    || (HighByte(v) == HighByte(w) && LowByte(v) % 128 != LowByte(w) % 128)
    || (LowByte(v) == LowByte(w) && HighByte(v) % 128 != HighByte(w) % 128)
  }

  lemma FoldedApart(v: word, w: word)
    requires OneByteApart(v, w)
    ensures Folded(v) != Folded(w)
  {
    hide Xor, LowByte;
    HalfOfByte(v);
    HalfOfByte(w);
    assert HighByte(v) == v / 0x100 && HighByte(w) == w / 0x100;
    XorApart(v % 128, v / 0x100 % 128, w % 128, w / 0x100 % 128);
  }

  /** Every byte of an event counts: a change in the low seven bits of one of the four changes the hash. */
  lemma {:induction false} HashTellsApart(k: Key, k': Key)
    requires (k.nn == k'.nn && OneByteApart(k.en, k'.en)) || (k.en == k'.en && OneByteApart(k.nn, k'.nn))
    ensures Hash(k) != Hash(k')
  {
    hide Hash, Mixed, Folded, OneByteApart;
    HashIsMixed(k);
    HashIsMixed(k');
    if k.nn == k'.nn && OneByteApart(k.en, k'.en) {
      FoldedApart(k.en, k'.en);
      if Hash(k) == Hash(k') { SevenTimes(Folded(k.en), Folded(k'.en), Folded(k.nn)); }
    } else {
      FoldedApart(k.nn, k'.nn);
      MixedNumbers(Folded(k.en), Folded(k.nn), Folded(k'.nn));
    }
  }

  lemma MixedNumbers(a: nat, c: nat, c': nat)
    requires c < 128 && c' < 128 && c != c'
    ensures Mixed(a, c) != Mixed(a, c')
  {}

  /** The index entry of a slot: zero for a free one. */
  function Entry(k: Key): byte { if k == UNUSED then 0 else Hash(k) }

  /** The index rebuilt from the stored events. */
  function IndexOf(l: Layout, ram: seq<byte>, n: nat): (t: seq<byte>)
    requires Fits(l, ram) && n <= l.maxEvents
    ensures |t| == n && forall i :: 0 <= i < n ==> t[i] == Entry(KeyAt(l, ram, i))
  {
    if n == 0 then [] else IndexOf(l, ram, n - 1) + [Entry(KeyAt(l, ram, n - 1))]
  }

  /** Two used slots have the same entry. */
  predicate Collides(t: seq<byte>) {
    exists i, j :: 0 <= i < j < |t| && t[i] == t[j] && t[i] != 0
  }

  /** The first used slot from `i` on that holds `k`, by comparing the stored events themselves. */
  function Scan(l: Layout, ram: seq<byte>, k: Key, i: nat): (r: nat)
    requires Fits(l, ram) && i <= l.maxEvents
    ensures i <= r <= l.maxEvents
    ensures forall j :: i <= j < r ==> !(Used(l, ram, j) && KeyAt(l, ram, j) == k)
    ensures r < l.maxEvents ==> Used(l, ram, r) && KeyAt(l, ram, r) == k
    decreases l.maxEvents - i
  {
    if i == l.maxEvents || (Used(l, ram, i) && KeyAt(l, ram, i) == k) then i else Scan(l, ram, k, i + 1)
  }

  function FirstFree(l: Layout, ram: seq<byte>, i: nat): (r: nat)
    requires Fits(l, ram) && i <= l.maxEvents
    ensures i <= r <= l.maxEvents && (forall j :: i <= j < r ==> Used(l, ram, j))
    ensures r < l.maxEvents ==> !Used(l, ram, r)
    decreases l.maxEvents - i
  {
    if i == l.maxEvents || !Used(l, ram, i) then i else FirstFree(l, ram, i + 1)
  }

  // ---- Writes and what they leave alone ----

  function PutKey(l: Layout, ram: seq<byte>, i: nat, k: Key): (r: seq<byte>)
    requires Fits(l, ram) && i < l.maxEvents
    ensures |r| == SECTOR
  {
    SlotFits(l, i);
    var a := SlotAddr(l, i);
    ram[a := HighByte(k.nn)][a + 1 := LowByte(k.nn)][a + 2 := HighByte(k.en)][a + 3 := LowByte(k.en)]
  }

  function PutEv(l: Layout, ram: seq<byte>, i: nat, n: nat, v: byte): (r: seq<byte>)
    requires Fits(l, ram) && i < l.maxEvents && 1 <= n <= l.numEvs
    ensures |r| == SECTOR
  {
    SlotFits(l, i);
    ram[SlotAddr(l, i) + 3 + n := v]
  }

  lemma WordParts(w: word)
    ensures Word(HighByte(w), LowByte(w)) == w
  {}

  lemma KeyPut(l: Layout, ram: seq<byte>, i: nat, k: Key, j: nat)
    requires Fits(l, ram) && i < l.maxEvents && j < l.maxEvents
    ensures KeyAt(l, PutKey(l, ram, i, k), j) == if i == j then k else KeyAt(l, ram, j)
  {
    WordParts(k.nn);
    WordParts(k.en);
    SlotFits(l, i);
    SlotFits(l, j);
    if i < j { SlotsInOrder(l, i, j); } else if j < i { SlotsInOrder(l, j, i); }
    hide SlotAddr, Word, HighByte, LowByte;
  }

  lemma {:induction false} KeysPut(l: Layout, ram: seq<byte>, i: nat, k: Key)
    requires Fits(l, ram) && i < l.maxEvents
    ensures forall j :: 0 <= j < l.maxEvents ==>
              KeyAt(l, PutKey(l, ram, i, k), j) == if i == j then k else KeyAt(l, ram, j)
    ensures forall x :: 0 <= x < 6 ==> PutKey(l, ram, i, k)[x] == ram[x]
  {
    forall j | 0 <= j < l.maxEvents
      ensures KeyAt(l, PutKey(l, ram, i, k), j) == if i == j then k else KeyAt(l, ram, j)
    {
      hide PutKey, KeyAt;
      KeyPut(l, ram, i, k, j);
    }
    SlotFits(l, i);
  }

  lemma EvsKept(l: Layout, ram: seq<byte>, i: nat, k: Key, j: nat, n: nat)
    requires Fits(l, ram) && i < l.maxEvents && j < l.maxEvents && 1 <= n <= l.numEvs
    ensures EvAt(l, PutKey(l, ram, i, k), j, n) == EvAt(l, ram, j, n)
  {
    SlotFits(l, i);
    SlotFits(l, j);
    if i < j { SlotsInOrder(l, i, j); } else if j < i { SlotsInOrder(l, j, i); }
    hide SlotAddr, HighByte, LowByte;
  }

  lemma {:induction false} EvPut(l: Layout, ram: seq<byte>, i: nat, n: nat, v: byte, j: nat)
    requires Fits(l, ram) && i < l.maxEvents && 1 <= n <= l.numEvs && j < l.maxEvents
    ensures KeyAt(l, PutEv(l, ram, i, n, v), j) == KeyAt(l, ram, j)
    ensures forall n' :: 1 <= n' <= l.numEvs ==>
              EvAt(l, PutEv(l, ram, i, n, v), j, n') == if j == i && n' == n then v else EvAt(l, ram, j, n')
  {
    SlotFits(l, i);
    SlotFits(l, j);
    if i < j { SlotsInOrder(l, i, j); } else if j < i { SlotsInOrder(l, j, i); }
    hide SlotAddr;
  }

  lemma KeysKeptByEv(l: Layout, ram: seq<byte>, i: nat, n: nat, v: byte)
    requires Fits(l, ram) && i < l.maxEvents && 1 <= n <= l.numEvs
    ensures forall j :: 0 <= j < l.maxEvents ==> KeyAt(l, PutEv(l, ram, i, n, v), j) == KeyAt(l, ram, j)
    ensures forall x :: 0 <= x < 6 ==> PutEv(l, ram, i, n, v)[x] == ram[x]
  {
    forall j | 0 <= j < l.maxEvents
      ensures KeyAt(l, PutEv(l, ram, i, n, v), j) == KeyAt(l, ram, j)
    {
      hide PutEv, KeyAt;
      EvPut(l, ram, i, n, v, j);
    }
    SlotFits(l, i);
  }

  /** Memories that agree on the event area hold the same events. */
  lemma SameEvents(l: Layout, a: seq<byte>, b: seq<byte>, i: nat)
    requires Fits(l, a) && Fits(l, b) && i < l.maxEvents
    requires forall x :: l.eventsStart <= x < l.EventsEnd() ==> a[x] == b[x]
    ensures KeyAt(l, a, i) == KeyAt(l, b, i)
    ensures forall n :: 1 <= n <= l.numEvs ==> EvAt(l, a, i, n) == EvAt(l, b, i, n)
  {
    SlotFits(l, i);
    hide SlotAddr;
  }

  // ---- The index finds what a scan finds ----

  /** The index and its collision flag are what a rebuild would give. */
  predicate Indexed(l: Layout, ram: seq<byte>, t: seq<byte>, collisions: bool) {
    Fits(l, ram) && t == IndexOf(l, ram, l.maxEvents) && collisions == Collides(t)
  }

  /** A slot that holds `k` has its hash in the index, and no free slot has. */
  lemma MatchHasHash(l: Layout, ram: seq<byte>, k: Key, i: nat)
    requires Fits(l, ram) && i < l.maxEvents
    ensures Used(l, ram, i) && KeyAt(l, ram, i) == k ==> Entry(KeyAt(l, ram, i)) == Hash(k)
    ensures Entry(KeyAt(l, ram, i)) == Hash(k) ==> Used(l, ram, i)
  {}

  /** How often a hash occurs among the first `n` entries. */
  function Matches(t: seq<byte>, h: byte, n: nat): (c: nat)
    requires n <= |t|
    ensures c <= n
  {
    if n == 0 then 0 else Matches(t, h, n - 1) + if t[n - 1] == h then 1 else 0
  }

  lemma {:induction false} SomeMatch(t: seq<byte>, h: byte, n: nat, i: nat)
    requires i < n <= |t| && t[i] == h
    ensures Matches(t, h, n) >= 1
  {
    if i < n - 1 { SomeMatch(t, h, n - 1, i); }
  }

  lemma {:induction false} TwoMatches(t: seq<byte>, h: byte, n: nat, i: nat, j: nat)
    requires i < j < n <= |t| && t[i] == t[j] == h
    ensures Matches(t, h, n) >= 2
  {
    if j < n - 1 { TwoMatches(t, h, n - 1, i, j); } else { SomeMatch(t, h, n - 1, i); }
  }

  /** Slot `i` is the only one whose index entry is `h`. */
  predicate Only(t: seq<byte>, h: byte, i: nat) {
    i < |t| && t[i] == h && forall j :: 0 <= j < |t| && t[j] == h ==> j == i
  }

  /** Either test of the search that spares it the slow scan leaves one candidate. */
  lemma CandidateIsOnly(t: seq<byte>, h: byte, i: nat)
    requires i < |t| && t[i] == h != 0
    requires !Collides(t) || Matches(t, h, |t|) <= 1
    ensures Only(t, h, i)
  {
    forall j | 0 <= j < |t| && t[j] == h
      ensures j == i
    {
      if j < i && Matches(t, h, |t|) <= 1 { TwoMatches(t, h, |t|, j, i); }
      if i < j && Matches(t, h, |t|) <= 1 { TwoMatches(t, h, |t|, i, j); }
    }
  }

  /** A key whose hash is in no entry before `i` is in no slot before `i`. */
  lemma {:induction false} NoHashNoMatch(l: Layout, ram: seq<byte>, k: Key, t: seq<byte>, i: nat)
    requires Fits(l, ram) && t == IndexOf(l, ram, l.maxEvents) && i <= l.maxEvents
    requires forall j :: 0 <= j < i ==> !(t[j] == Hash(k) && KeyAt(l, ram, j) == k)
    ensures Scan(l, ram, k, 0) >= i
    ensures i < l.maxEvents && t[i] == Hash(k) && KeyAt(l, ram, i) == k ==> Scan(l, ram, k, 0) == i
  {
    hide KeyAt, Entry, Hash, Used;
    var r := Scan(l, ram, k, 0);
    if r < l.maxEvents { MatchHasHash(l, ram, k, r); }
    if i < l.maxEvents { MatchHasHash(l, ram, k, i); }
  }

  /** With one candidate, reading it settles the search. */
  lemma {:induction false} OnlyCandidate(l: Layout, ram: seq<byte>, k: Key, t: seq<byte>, i: nat)
    requires Fits(l, ram) && t == IndexOf(l, ram, l.maxEvents) && Only(t, Hash(k), i)
    ensures Scan(l, ram, k, 0) == if KeyAt(l, ram, i) == k then i else l.maxEvents
  {
    hide KeyAt, Entry, Hash, Used;
    NoHashNoMatch(l, ram, k, t, i);
    if KeyAt(l, ram, i) != k { NoHashNoMatch(l, ram, k, t, l.maxEvents); }
  }
}
