/** The 16-bit frame check sequence of RFC 1662, appendix C.2, in bitwise form, as the
    long message code computes it: the final register is complemented and byte-swapped. */
module Crc16 {
  import opened Can

  const POLY: bv16 := 0x8408

  /** One turn of the inner loop: shift one message bit through the register. */
  function BitStep(crc: bv16, data: bv16): bv16 {
    if (crc & 1) ^ (data & 1) != 0 then (crc >> 1) ^ POLY else crc >> 1
  }

  function Half(x: bv16): bv16 { x >> 1 }

  function BitSteps(crc: bv16, data: bv16, n: nat): bv16
    decreases n
  {
    if n == 0 then crc else BitSteps(BitStep(crc, data), Half(data), n - 1)
  }

  /** The low `n` binary digits of `b`, least significant first. */
  function BinaryDigits(b: nat, n: nat): (d: seq<bool>)
    ensures |d| == n
    decreases n
  {
    if n == 0 then [] else [b % 2 == 1] + BinaryDigits(b / 2, n - 1)
  }

  function Bit(d: bool): bv16 { if d then 1 else 0 }

  function Under(d: bool, w: bv16): bv16 { Bit(d) | (w << 1) }

  /** Bits as a word, the first one lowest. */
  function WordOf(bits: seq<bool>): bv16 {
    if bits == [] then 0 else Under(bits[0], WordOf(bits[1..]))
  }

  /** A message byte as register bits. */
  function Octet(b: byte): bv16 { WordOf(BinaryDigits(b, 8)) }

  function ByteStep(crc: bv16, b: byte): bv16 { BitSteps(crc, Octet(b), 8) }

  /** The register after all of `bytes`, starting from all ones. */
  function Register(bytes: seq<byte>): bv16 {
    if bytes == [] then 0xFFFF else ByteStep(Register(bytes[..|bytes| - 1]), bytes[|bytes| - 1])
  }

  function Lowest(x: bv16): bool { x & 1 == 1 }

  /** The low `n` bits of a word, the lowest first. */
  function BitsOf(x: bv16, n: nat): (bits: seq<bool>)
    ensures |bits| == n
    decreases n
  {
    if n == 0 then [] else [Lowest(x)] + BitsOf(Half(x), n - 1)
  }

  /** The number that bits stand for, the lowest first. */
  function Value(bits: seq<bool>): nat {
    if bits == [] then 0 else (if bits[0] then 1 else 0) + 2 * Value(bits[1..])
  }

  function Pow2(n: nat): nat { if n == 0 then 1 else 2 * Pow2(n - 1) }

  lemma {:induction false} ValueBelow(bits: seq<bool>)
    ensures Value(bits) < Pow2(|bits|)
  {
    if bits != [] { ValueBelow(bits[1..]); }
  }

  /** The value of the low eight register bits. */
  function OctetValue(r: bv16): byte {
    ValueBelow(BitsOf(r, 8));
    assert Pow2(8) == 256;
    Value(BitsOf(r, 8))
  }

  function Inverse(x: bv16): bv16 { !x }

  function Upper(x: bv16): bv16 { x >> 8 }

  /** Complement, then swap the two bytes. */
  function Finish(r: bv16): word { Word(OctetValue(Inverse(r)), OctetValue(Upper(Inverse(r)))) }

  function Crc(bytes: seq<byte>): word { Finish(Register(bytes)) }

  method Compute(data: seq<byte>) returns (crc: word)
    requires |data| < 0x1_0000
    ensures crc == Crc(data)
  {
    hide Octet;
    var register: bv16 := 0xFFFF;
    var length := |data|;
    if length == 0 {
      return Finish(register);
    }
    var p := 0;
    while length != 0
      invariant 0 <= p && 0 <= length && p + length == |data|
      invariant register == Register(data[..p])
    {
      ghost var before := register;
      var bits := Octet(data[p]);
      p := p + 1;
      var i := 0;
      while i < 8
        invariant 0 <= i <= 8
        invariant BitSteps(register, bits, 8 - i) == ByteStep(before, data[p - 1])
      {
        if (register & 1) ^ (bits & 1) != 0 {
          register := (register >> 1) ^ POLY;
        } else {
          register := register >> 1;
        }
        bits := bits >> 1;
        i := i + 1;
      }
      assert data[..p][..p - 1] == data[..p - 1];
      length := length - 1;
    }
    assert data[..p] == data;
    crc := Finish(register);
  }

  // ---- The register step is a bijection, and linear in the message bits ----

  /** Addition of bit strings. */
  function Add(a: bv16, b: bv16): bv16 { a ^ b }

  /** Shift the register with a zero message bit. */
  function Clock(x: bv16): bv16 { BitStep(x, 0) }

  function Clocks(x: bv16, n: nat): bv16
    decreases n
  {
    if n == 0 then x else Clocks(Clock(x), n - 1)
  }

  lemma ClockInjective(a: bv16, b: bv16)
    ensures Clock(a) == Clock(b) ==> a == b
  {}

  lemma {:induction false} ClocksInjective(a: bv16, b: bv16, n: nat)
    ensures Clocks(a, n) == Clocks(b, n) ==> a == b
    decreases n
  {
    hide Clock;
    if n > 0 {
      ClocksInjective(Clock(a), Clock(b), n - 1);
      ClockInjective(a, b);
    }
  }

  lemma ShiftDistributes(a: bv16, b: bv16)
    ensures (a ^ b) >> 1 == (a >> 1) ^ (b >> 1)
  {}

  lemma BitDistributes(a: bv16, b: bv16)
    ensures (a ^ b) & 1 == (a & 1) ^ (b & 1)
  {}

  lemma AddLast(a: bv16, b: bv16)
    ensures (a ^ POLY) ^ b == (a ^ b) ^ POLY
  {}

  lemma BitOfZero(a: bv16)
    ensures (a & 1) ^ (0 & 1) == a & 1
  {}

  lemma ShiftsDistribute(crc: bv16, data: bv16)
    ensures BitStep(crc, data) ^ (data >> 1) == Clock(crc ^ data)
  {
    ShiftDistributes(crc, data);
    BitDistributes(crc, data);
    BitOfZero(crc ^ data);
    AddLast(crc >> 1, data >> 1);
  }

  lemma BitStepIsClock(crc: bv16, data: bv16)
    ensures Add(BitStep(crc, data), Half(data)) == Clock(Add(crc, data))
  {
    hide BitStep, Clock;
    ShiftsDistribute(crc, data);
  }

  /** Only the low `n` bits of `data` can be set. */
  predicate Fits(data: bv16, n: nat)
    decreases n
  {
    if n == 0 then data == 0 else Fits(data >> 1, n - 1)
  }

  lemma AddZero(crc: bv16)
    ensures Add(crc, 0) == crc
  {}

  /** Feeding all the bits of `data` is the same as adding them into the register first
      and then clocking. */
  lemma {:induction false} BitStepsAreClocks(crc: bv16, data: bv16, n: nat)
    requires Fits(data, n)
    ensures BitSteps(crc, data, n) == Clocks(Add(crc, data), n)
    decreases n
  {
    hide Add, BitStep, Clock;
    if n == 0 {
      AddZero(crc);
    } else {
      BitStepIsClock(crc, data);
      BitStepsAreClocks(BitStep(crc, data), Half(data), n - 1);
    }
  }

  lemma CancelLeft(r: bv16, a: bv16, b: bv16)
    ensures Add(r, a) == Add(r, b) ==> a == b
  {}

  lemma StepInjective(r: bv16, s: bv16, d: bv16)
    ensures BitStep(r, d) == BitStep(s, d) ==> r == s
  {}

  lemma LowBitCounts(r: bv16, data: bv16)
    ensures BitStep(r, data) == BitStep(r, Bit(data & 1 == 1))
  {}

  // ---- The message as a sequence of bits ----

  function Feed(r: bv16, bits: seq<bool>): bv16
    decreases |bits|
  {
    if bits == [] then r else Feed(BitStep(r, Bit(bits[0])), bits[1..])
  }

  /** The bits of the message in the order in which they enter the register. */
  function Bits(bytes: seq<byte>): (bits: seq<bool>)
    ensures |bits| == 8 * |bytes|
  {
    if bytes == [] then [] else Bits(bytes[..|bytes| - 1]) + BinaryDigits(bytes[|bytes| - 1], 8)
  }

  lemma FitsHalf(x: bv16, n: nat)
    ensures Fits(x, n) == if n == 0 then x == 0 else Fits(Half(x), n - 1)
  {}

  lemma HalfOfZero()
    ensures Half(0) == 0
  {}

  lemma {:induction false} FitsMore(data: bv16, n: nat, m: nat)
    requires Fits(data, n) && n <= m
    ensures Fits(data, m)
    decreases m
  {
    hide Half, Fits;
    HalfOfZero();
    FitsHalf(data, n);
    FitsHalf(data, m);
    if m > 0 { FitsMore(Half(data), if n > 0 then n - 1 else 0, m - 1); }
  }

  lemma FitsBelow(d: bv16)
    requires Fits(d, 15)
    ensures d < 0x8000
  {
    assert Fits(d, 15) == Fits(d >> 1 >> 1 >> 1 >> 1 >> 1, 10)
        == Fits(d >> 1 >> 1 >> 1 >> 1 >> 1 >> 1 >> 1 >> 1 >> 1 >> 1, 5)
        == Fits(d >> 1 >> 1 >> 1 >> 1 >> 1 >> 1 >> 1 >> 1 >> 1 >> 1 >> 1 >> 1 >> 1 >> 1 >> 1, 0);
  }

  lemma FirstBitOfWord(d: bv16, w: bv16)
    requires w < 0x8000 && d <= 1
    ensures (d | (w << 1)) & 1 == d && (d | (w << 1)) >> 1 == w
  {}

  lemma FirstBit(d: bool, w: bv16)
    requires w < 0x8000
    ensures Lowest(Under(d, w)) == d && Half(Under(d, w)) == w
  {
    FirstBitOfWord(Bit(d), w);
  }

  /** A word of at most sixteen bits gives them back one by one. */
  lemma {:induction false} WordReads(bits: seq<bool>)
    requires |bits| <= 16
    ensures Fits(WordOf(bits), |bits|)
    ensures bits != [] ==> Lowest(WordOf(bits)) == bits[0] && Half(WordOf(bits)) == WordOf(bits[1..])
  {
    hide Half, Lowest, Under, Fits;
    FitsHalf(WordOf(bits), |bits|);
    if bits != [] {
      var w := WordOf(bits[1..]);
      WordReads(bits[1..]);
      FitsMore(w, |bits| - 1, 15);
      FitsBelow(w);
      FirstBit(bits[0], w);
    }
  }

  lemma {:induction false} WordInjective(v: seq<bool>, w: seq<bool>)
    requires |v| == |w| <= 16 && WordOf(v) == WordOf(w)
    ensures v == w
  {
    hide Lowest, Half, WordOf;
    if v != [] {
      WordReads(v);
      WordReads(w);
      WordInjective(v[1..], w[1..]);
      assert v == [v[0]] + v[1..] && w == [w[0]] + w[1..];
    }
  }

  /** The inner loop feeds the bits of the word. */
  lemma {:induction false} StepsFeed(r: bv16, bits: seq<bool>)
    requires |bits| <= 16
    ensures BitSteps(r, WordOf(bits), |bits|) == Feed(r, bits)
    decreases |bits|
  {
    hide Bit, BitStep, WordOf, Half;
    if bits != [] {
      WordReads(bits);
      LowBitCounts(r, WordOf(bits));
      StepsFeed(BitStep(r, Bit(bits[0])), bits[1..]);
    }
  }

  lemma {:induction false} FeedJoined(r: bv16, p: seq<bool>, q: seq<bool>)
    ensures Feed(r, p + q) == Feed(Feed(r, p), q)
    decreases |p|
  {
    hide BitStep, Bit;
    if p == [] {
      assert p + q == q;
    } else {
      assert (p + q)[1..] == p[1..] + q;
      FeedJoined(BitStep(r, Bit(p[0])), p[1..], q);
    }
  }

  lemma {:induction false} RegisterFeeds(bytes: seq<byte>)
    ensures Register(bytes) == Feed(0xFFFF, Bits(bytes))
  {
    hide BitStep, Bit, WordOf, BinaryDigits, BitSteps;
    if bytes != [] {
      var prior, last := bytes[..|bytes| - 1], bytes[|bytes| - 1];
      RegisterFeeds(prior);
      StepsFeed(Register(prior), BinaryDigits(last, 8));
      FeedJoined(0xFFFF, Bits(prior), BinaryDigits(last, 8));
    }
  }

  // ---- What the register tells apart ----

  /** The same bits keep different registers apart. */
  lemma {:induction false} FeedInjective(r: bv16, s: bv16, bits: seq<bool>)
    ensures Feed(r, bits) == Feed(s, bits) ==> r == s
    decreases |bits|
  {
    hide BitStep, Bit;
    if bits != [] {
      FeedInjective(BitStep(r, Bit(bits[0])), BitStep(s, Bit(bits[0])), bits[1..]);
      StepInjective(r, s, Bit(bits[0]));
    }
  }

  /** From one register, different runs of at most sixteen bits lead to different registers. */
  lemma {:induction false} SixteenBitsDistinguished(r: bv16, v: seq<bool>, w: seq<bool>)
    requires |v| == |w| <= 16 && Feed(r, v) == Feed(r, w)
    ensures v == w
  {
    hide *;
    StepsFeed(r, v);
    StepsFeed(r, w);
    WordReads(v);
    WordReads(w);
    BitStepsAreClocks(r, WordOf(v), |v|);
    BitStepsAreClocks(r, WordOf(w), |w|);
    ClocksInjective(Add(r, WordOf(v)), Add(r, WordOf(w)), |v|);
    CancelLeft(r, WordOf(v), WordOf(w));
    WordInjective(v, w);
  }

  // ---- The bytes of the check word ----

  lemma {:induction false} DigitsOfValue(bits: seq<bool>)
    ensures BinaryDigits(Value(bits), |bits|) == bits
  {
    if bits != [] { DigitsOfValue(bits[1..]); }
  }

  lemma WholeFits(x: bv16)
    ensures Fits(x, 16)
  {
    assert Fits(x, 16) == Fits(x >> 1 >> 1 >> 1 >> 1 >> 1 >> 1, 10)
        == Fits(x >> 1 >> 1 >> 1 >> 1 >> 1 >> 1 >> 1 >> 1 >> 1 >> 1 >> 1, 5)
        == Fits(x >> 1 >> 1 >> 1 >> 1 >> 1 >> 1 >> 1 >> 1 >> 1 >> 1 >> 1 >> 1 >> 1 >> 1 >> 1 >> 1, 0);
  }

  lemma LowBitAndRest(x: bv16)
    ensures (x & 1) | ((x >> 1) << 1) == x
  {}

  lemma LowBitIs(x: bv16)
    ensures Bit(Lowest(x)) == x & 1
  {}

  lemma Together(x: bv16)
    ensures Under(Lowest(x), Half(x)) == x
  {
    hide Bit, Lowest;
    LowBitIs(x);
    LowBitAndRest(x);
  }

  lemma {:induction false} WordOfBits(x: bv16, n: nat)
    requires Fits(x, n)
    ensures WordOf(BitsOf(x, n)) == x
    decreases n
  {
    hide Lowest, Half, Under, Fits;
    FitsHalf(x, n);
    Together(x);
    if n > 0 { WordOfBits(Half(x), n - 1); }
  }

  function Halves(x: bv16, n: nat): bv16
    decreases n
  {
    if n == 0 then x else Halves(Half(x), n - 1)
  }

  lemma {:induction false} BitsGoOn(x: bv16, n: nat, m: nat)
    ensures BitsOf(x, n + m) == BitsOf(x, n) + BitsOf(Halves(x, n), m)
    decreases n
  {
    hide Half, Lowest;
    if n == 0 {
      assert BitsOf(x, m) == [] + BitsOf(x, m);
    } else {
      BitsGoOn(Half(x), n - 1, m);
      assert BitsOf(x, n + m) == [Lowest(x)] + BitsOf(Half(x), n - 1 + m);
    }
  }

  lemma FourHalves(x: bv16)
    ensures Halves(x, 4) == x >> 4
  {
    assert Halves(x, 4) == x >> 1 >> 1 >> 1 >> 1;
  }

  lemma {:induction false} HalvesGoOn(x: bv16, n: nat, m: nat)
    ensures Halves(x, n + m) == Halves(Halves(x, n), m)
    decreases n
  {
    hide Half;
    if n > 0 { HalvesGoOn(Half(x), n - 1, m); }
  }

  lemma FourAndFour(x: bv16)
    ensures x >> 4 >> 4 == Upper(x)
  {}

  lemma EightHalves(x: bv16)
    ensures Halves(x, 8) == Upper(x)
  {
    hide Half, Upper, Halves;
    HalvesGoOn(x, 4, 4);
    FourHalves(x);
    FourHalves(x >> 4);
    FourAndFour(x);
  }

  /** A word is made of the bits of its two bytes. */
  lemma HalvesMakeWord(x: bv16)
    ensures WordOf(BitsOf(x, 8) + BitsOf(Upper(x), 8)) == x
  {
    hide Upper, Half, Lowest, WordOf, BitsOf, Fits, Halves;
    BitsGoOn(x, 8, 8);
    EightHalves(x);
    WholeFits(x);
    WordOfBits(x, 16);
  }

  lemma ValueDetermines(x: bv16, y: bv16)
    requires OctetValue(x) == OctetValue(y)
    ensures BitsOf(x, 8) == BitsOf(y, 8)
  {
    hide BitsOf;
    DigitsOfValue(BitsOf(x, 8));
    DigitsOfValue(BitsOf(y, 8));
  }

  lemma InverseInjective(r: bv16, s: bv16)
    ensures Inverse(r) == Inverse(s) ==> r == s
  {}

  lemma {:induction false} FinishInjective(r: bv16, s: bv16)
    ensures Finish(r) == Finish(s) ==> r == s
  {
    hide OctetValue, BitsOf, Inverse, Upper, WordOf;
    if Finish(r) == Finish(s) {
      ValueDetermines(Inverse(r), Inverse(s));
      ValueDetermines(Upper(Inverse(r)), Upper(Inverse(s)));
      HalvesMakeWord(Inverse(r));
      HalvesMakeWord(Inverse(s));
      InverseInjective(r, s);
    }
  }

  // ---- The value of the check word ----

  /** What RFC 1662 calls the good final check sequence. */
  const GOOD_FCS: bv16 := 0xF0B8

  lemma SumWithInverse(r: bv16)
    ensures Add(r, Inverse(r)) == 0xFFFF
  {}

  /** Sixteen clocks of the register with all bits set. */
  lemma GoodClocks()
    ensures Clocks(0xFFFF, 16) == GOOD_FCS
  {
    assert Clocks(0xFFFF, 16) == Clocks(0xF870, 12) by {
      assert Clock(0xFFFF) == 0xFBF7 && Clock(0xFBF7) == 0xF9F3 && Clock(0xF9F3) == 0xF8F1 && Clock(0xF8F1) == 0xF870;
    }
    assert Clocks(0xF870, 12) == Clocks(0x0F87, 8) by {
      assert Clock(0xF870) == 0x7C38 && Clock(0x7C38) == 0x3E1C && Clock(0x3E1C) == 0x1F0E && Clock(0x1F0E) == 0x0F87;
    }
    assert Clocks(0x0F87, 8) == Clocks(0x737F, 4) by {
      assert Clock(0x0F87) == 0x83CB && Clock(0x83CB) == 0xC5ED && Clock(0xC5ED) == 0xE6FE && Clock(0xE6FE) == 0x737F;
    }
    assert Clocks(0x737F, 4) == GOOD_FCS by {
      assert Clock(0x737F) == 0xBDB7 && Clock(0xBDB7) == 0xDAD3 && Clock(0xDAD3) == 0xE961 && Clock(0xE961) == 0xF0B8;
    }
  }

  lemma BytesOfCheck(bytes: seq<byte>)
    ensures var x := Inverse(Register(bytes));
            HighByte(Crc(bytes)) == OctetValue(x) && LowByte(Crc(bytes)) == OctetValue(Upper(x))
  {
    hide OctetValue, Upper, Inverse, Register;
    var x := Inverse(Register(bytes));
    BytesOfPair(OctetValue(x), OctetValue(Upper(x)));
  }

  lemma BytesOfPair(a: byte, b: byte)
    ensures HighByte(Word(a, b)) == a && LowByte(Word(a, b)) == b
  {}

  lemma TwoBytesFeed(a: byte, b: byte)
    ensures Bits([a, b]) == BinaryDigits(a, 8) + BinaryDigits(b, 8)
  {
    hide BinaryDigits;
    assert [a, b][..1] == [a] && [a][..0] == [];
    assert Bits([a]) == [] + BinaryDigits(a, 8) == BinaryDigits(a, 8);
  }

  lemma {:induction false} BitsJoined(a: seq<byte>, b: seq<byte>)
    ensures Bits(a + b) == Bits(a) + Bits(b)
    decreases |b|
  {
    hide BinaryDigits;
    if b == [] {
      assert a + b == a && Bits(a) + [] == Bits(a);
    } else {
      assert (a + b)[..|a + b| - 1] == a + b[..|b| - 1];
      BitsJoined(a, b[..|b| - 1]);
    }
  }

  /** The message followed by its check word, the upper byte first, leaves the value of RFC 1662, appendix C.2, in
      the register, whatever the message is. */
  lemma {:induction false} GoodFcs(bytes: seq<byte>)
    ensures Register(bytes + [HighByte(Crc(bytes)), LowByte(Crc(bytes))]) == GOOD_FCS
  {
    hide *;
    var r := Register(bytes);
    var x := Inverse(r);
    var a, b := HighByte(Crc(bytes)), LowByte(Crc(bytes));
    BytesOfCheck(bytes);
    RegisterFeeds(bytes);
    RegisterFeeds(bytes + [a, b]);
    BitsJoined(bytes, [a, b]);
    TwoBytesFeed(a, b);
    OctetBits(x);
    OctetBits(Upper(x));
    var bits := BitsOf(x, 8) + BitsOf(Upper(x), 8);
    FeedJoined(0xFFFF, Bits(bytes), bits);
    StepsFeed(r, bits);
    HalvesMakeWord(x);
    WholeFits(x);
    BitStepsAreClocks(r, x, 16);
    SumWithInverse(r);
    GoodClocks();
  }

  lemma OctetBits(x: bv16)
    ensures BinaryDigits(OctetValue(x), 8) == BitsOf(x, 8)
  {
    hide BitsOf;
    DigitsOfValue(BitsOf(x, 8));
  }

  lemma {:induction false} EmptyCheck()
    ensures Crc([]) == 0
  {
    assert Inverse(0xFFFF) == 0 && Upper(0) == 0;
    assert BitsOf(0, 8) == [false, false, false, false, false, false, false, false];
  }

  // ---- Detection ----

  lemma {:induction false} DigitsDetermine(a: nat, b: nat, n: nat)
    requires a < Pow2(n) && b < Pow2(n)
    requires BinaryDigits(a, n) == BinaryDigits(b, n)
    ensures a == b
    decreases n
  {
    if n > 0 {
      assert BinaryDigits(a, n)[0] == BinaryDigits(b, n)[0];
      assert BinaryDigits(a, n)[1..] == BinaryDigits(a / 2, n - 1);
      assert BinaryDigits(b, n)[1..] == BinaryDigits(b / 2, n - 1);
      DigitsDetermine(a / 2, b / 2, n - 1);
    }
  }

  lemma {:induction false} BitsDetermine(a: seq<byte>, b: seq<byte>)
    requires |a| == |b| && Bits(a) == Bits(b)
    ensures a == b
  {
    hide BinaryDigits;
    if a != [] {
      var n := |a| - 1;
      var (p, q) := (Bits(a[..n]), Bits(b[..n]));
      assert p == Bits(a)[..8 * n] && q == Bits(b)[..8 * n];
      BitsDetermine(a[..n], b[..n]);
      assert BinaryDigits(a[n], 8) == Bits(a)[8 * n..] && BinaryDigits(b[n], 8) == Bits(b)[8 * n..];
      assert Pow2(4) == 16 && Pow2(8) == 256;
      DigitsDetermine(a[n], b[n], 8);
      assert a == a[..n] + [a[n]] && b == b[..n] + [b[n]];
    }
  }

  /** `w` is `v` with damage confined to the sixteen bits from `at` on. */
  ghost predicate FlippedWithin(v: seq<bool>, w: seq<bool>, at: nat) {
    |v| == |w| && forall i :: 0 <= i < |v| && !(at <= i < at + 16) ==> v[i] == w[i]
  }

  lemma {:induction false} FeedDetects(r: bv16, v: seq<bool>, w: seq<bool>, at: nat)
    requires FlippedWithin(v, w, at) && Feed(r, v) == Feed(r, w)
    ensures v == w
  {
    hide Feed;
    var lo, hi := Min(at, |v|), Min(at + 16, |v|);
    assert v[..lo] == w[..lo] && v[hi..] == w[hi..];
    assert v == v[..lo] + v[lo..hi] + v[hi..] && w == w[..lo] + w[lo..hi] + w[hi..];
    FeedJoined(r, v[..lo] + v[lo..hi], v[hi..]);
    FeedJoined(r, w[..lo] + w[lo..hi], w[hi..]);
    FeedInjective(Feed(r, v[..lo] + v[lo..hi]), Feed(r, w[..lo] + w[lo..hi]), v[hi..]);
    FeedJoined(r, v[..lo], v[lo..hi]);
    FeedJoined(r, w[..lo], w[lo..hi]);
    SixteenBitsDistinguished(Feed(r, v[..lo]), v[lo..hi], w[lo..hi]);
  }

  /** Damage within sixteen consecutive bits of the message, across two bytes or three, always changes the
      check word. */
  lemma {:induction false} BurstDetected(a: seq<byte>, b: seq<byte>, at: nat)
    requires |a| == |b| && FlippedWithin(Bits(a), Bits(b), at)
    ensures Crc(a) == Crc(b) <==> a == b
  {
    hide Finish, FlippedWithin;
    if Crc(a) == Crc(b) {
      FinishInjective(Register(a), Register(b));
      RegisterFeeds(a);
      RegisterFeeds(b);
      FeedDetects(0xFFFF, Bits(a), Bits(b), at);
      BitsDetermine(a, b);
    }
  }

  // ---- Parity ----

  /** Whether an odd number of bits is set. */
  function Odd(bits: seq<bool>): bool { bits != [] && bits[0] != Odd(bits[1..]) }

  /** The same for the low `n` bits of a word. */
  function Parity(x: bv16, n: nat): bool
    decreases n
  {
    n != 0 && Lowest(x) != Parity(Half(x), n - 1)
  }

  lemma SumBits(x: bv16, y: bv16)
    ensures Lowest(Add(x, y)) == (Lowest(x) != Lowest(y)) && Half(Add(x, y)) == Add(Half(x), Half(y))
  {}

  lemma {:induction false} SumParity(x: bv16, y: bv16, n: nat)
    ensures Parity(Add(x, y), n) == (Parity(x, n) != Parity(y, n))
    decreases n
  {
    hide Add, Lowest, Half;
    if n > 0 {
      SumBits(x, y);
      SumParity(Half(x), Half(y), n - 1);
    }
  }

  lemma LowestOfZero()
    ensures !Lowest(0)
  {}

  lemma {:induction false} ParityOfAll(x: bv16, n: nat, m: nat)
    requires Fits(x, n) && n <= m
    ensures Parity(x, m) == Parity(x, n)
    decreases m
  {
    hide Half, Lowest, Fits;
    HalfOfZero();
    LowestOfZero();
    FitsHalf(x, n);
    FitsHalf(x, m);
    if m > 0 { ParityOfAll(Half(x), if n > 0 then n - 1 else 0, m - 1); }
  }

  lemma ShiftedFits(r: bv16)
    ensures Fits(r >> 1, 15)
  {
    assert Fits(r >> 1, 15) == Fits(r >> 1 >> 1 >> 1 >> 1 >> 1 >> 1, 10)
        == Fits(r >> 1 >> 1 >> 1 >> 1 >> 1 >> 1 >> 1 >> 1 >> 1 >> 1 >> 1, 5)
        == Fits(r >> 1 >> 1 >> 1 >> 1 >> 1 >> 1 >> 1 >> 1 >> 1 >> 1 >> 1 >> 1 >> 1 >> 1 >> 1 >> 1, 0);
  }

  lemma StepTaken(r: bv16, d: bool)
    ensures BitStep(r, Bit(d)) == if Lowest(r) != d then Add(Half(r), POLY) else Half(r)
  {}

  /** The polynomial has three terms in the register. */
  lemma PolyParity()
    ensures Parity(POLY, 16)
  {
    assert Parity(0x8408, 16) == Parity(0x2102, 14) == Parity(0x1081, 13) != Parity(0x840, 12);
    assert Parity(0x840, 12) == Parity(0x210, 10) == Parity(0x84, 8) == Parity(0x21, 6) != Parity(0x10, 5);
    assert Parity(0x10, 5) == Parity(0x4, 3) == Parity(0x1, 1);
  }

  lemma StepParity(r: bv16, d: bool)
    ensures Parity(BitStep(r, Bit(d)), 16) == (Parity(r, 16) != d)
  {
    hide BitStep, Bit, Fits, Add, Lowest;
    StepTaken(r, d);
    assert Fits(Half(r), 15) by { ShiftedFits(r); }
    ParityOfAll(Half(r), 15, 16);
    PolyParity();
    SumParity(Half(r), POLY, 16);
  }

  /** The register keeps the parity of the message. */
  lemma {:induction false} FeedParity(r: bv16, bits: seq<bool>)
    ensures Parity(Feed(r, bits), 16) == (Parity(r, 16) != Odd(bits))
    decreases |bits|
  {
    hide Parity, BitStep, Bit;
    if bits != [] {
      StepParity(r, bits[0]);
      FeedParity(BitStep(r, Bit(bits[0])), bits[1..]);
    }
  }

  /** How many bits differ. */
  function Flips(v: seq<bool>, w: seq<bool>): nat
    requires |v| == |w|
  {
    if v == [] then 0 else (if v[0] != w[0] then 1 else 0) + Flips(v[1..], w[1..])
  }

  lemma {:induction false} FlipsChangeParity(v: seq<bool>, w: seq<bool>)
    requires |v| == |w|
    ensures Flips(v, w) % 2 == 1 <==> Odd(v) != Odd(w)
  {
    if v != [] { FlipsChangeParity(v[1..], w[1..]); }
  }

  /** An odd number of flipped bits, wherever they are, always changes the check word. */
  lemma {:induction false} OddFlipsDetected(a: seq<byte>, b: seq<byte>)
    requires |a| == |b| && Flips(Bits(a), Bits(b)) % 2 == 1
    ensures Crc(a) != Crc(b)
  {
    hide Finish, Parity, Flips;
    FinishInjective(Register(a), Register(b));
    RegisterFeeds(a);
    RegisterFeeds(b);
    FeedParity(0xFFFF, Bits(a));
    FeedParity(0xFFFF, Bits(b));
    FlipsChangeParity(Bits(a), Bits(b));
  }

  /** Damage that the check word always shows: an odd number of bits, or bits within sixteen consecutive ones. */
  ghost predicate Detectable(a: seq<byte>, b: seq<byte>) {
    && |a| == |b| && a != b
    && (Flips(Bits(a), Bits(b)) % 2 == 1 || exists at: nat :: FlippedWithin(Bits(a), Bits(b), at))
  }

  lemma {:induction false} DamageDetected(a: seq<byte>, b: seq<byte>)
    requires Detectable(a, b)
    ensures Crc(a) != Crc(b)
  {
    hide Crc, FlippedWithin, Flips;
    if Flips(Bits(a), Bits(b)) % 2 == 1 {
      OddFlipsDetected(a, b);
    } else {
      var at: nat :| FlippedWithin(Bits(a), Bits(b), at);
      BurstDetected(a, b, at);
    }
  }

  lemma {:induction false} BitOfByte(a: seq<byte>, i: nat)
    requires i < 8 * |a|
    ensures Bits(a)[i] == BinaryDigits(a[i / 8], 8)[i % 8]
  {
    hide BinaryDigits;
    var n := |a| - 1;
    if i < 8 * n {
      BitOfByte(a[..n], i);
    }
  }

  /** In particular any damage to two adjacent bytes. */
  lemma {:induction false} TwoBytesDetectable(a: seq<byte>, b: seq<byte>, at: nat)
    requires |a| == |b| && a != b
    requires forall i :: 0 <= i < |a| && i != at && i != at + 1 ==> a[i] == b[i]
    ensures Detectable(a, b)
  {
    hide BinaryDigits, Bits, Flips;
    forall i | 0 <= i < 8 * |a| && !(8 * at <= i < 8 * at + 16)
      ensures Bits(a)[i] == Bits(b)[i]
    {
      BitOfByte(a, i);
      BitOfByte(b, i);
    }
    assert FlippedWithin(Bits(a), Bits(b), 8 * at);
  }
}
