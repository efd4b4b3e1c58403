/** Bytes in NOR flash: programming can only clear bits, erasing sets them all. */
module Nor {
  import opened Can

  /** Every bit set in `a` is set in `b`; `a & ~b` is zero. */
  predicate Within(a: nat, b: nat) {
    a == 0 || (a % 2 <= b % 2 && Within(a / 2, b / 2))
  }

  /** Bitwise and: what a cell holding `a` holds after programming `b`. */
  function And(a: nat, b: nat): (c: nat)
    ensures c <= b
  {
    if a == 0 || b == 0 then 0 else (if a % 2 == 1 && b % 2 == 1 then 1 else 0) + 2 * And(a / 2, b / 2)
  }

  /** Bitwise exclusive or. */
  function Xor(a: nat, b: nat): nat {
    if a == 0 && b == 0 then 0 else (a % 2 + b % 2) % 2 + 2 * Xor(a / 2, b / 2)
  }

  lemma {:induction false} WithinReflexive(a: nat)
    ensures Within(a, a)
  {
    if a != 0 { WithinReflexive(a / 2); }
  }

  lemma {:induction false} NothingWithinZero(a: nat)
    ensures Within(a, 0) <==> a == 0
  {
    if a != 0 { NothingWithinZero(a / 2); }
  }

  lemma {:induction false} WithinTransitive(a: nat, b: nat, c: nat)
    requires Within(a, b) && Within(b, c)
    ensures Within(a, c)
  {
    NothingWithinZero(a);
    if a != 0 && b != 0 { WithinTransitive(a / 2, b / 2, c / 2); }
  }

  /** A cell takes exactly the programmed value when no bit has to be set. */
  lemma {:induction false} ProgramExactlyWhen(cell: nat, value: nat)
    ensures And(cell, value) == value <==> Within(value, cell)
  {
    NothingWithinZero(value);
    if cell != 0 && value != 0 { ProgramExactlyWhen(cell / 2, value / 2); }
  }

  lemma {:induction false} AllOnes(value: nat, ones: nat, n: nat)
    requires value <= ones && ones == [0, 1, 3, 7, 15, 31, 63, 127, 255][if n <= 8 then n else 8] && n <= 8
    ensures Within(value, ones)
    decreases n
  {
    if n > 0 { AllOnes(value / 2, ones / 2, n - 1); }
  }

  /** An erased cell takes any value. */
  lemma ErasedTakesAll(value: byte)
    ensures Within(value, 0xFF) && And(0xFF, value) == value
  {
    AllOnes(value, 0xFF, 8);
    ProgramExactlyWhen(0xFF, value);
  }

  // ---- Exclusive or, bit by bit ----

  lemma Halves(bit: nat, rest: nat)
    requires bit < 2
    ensures (bit + 2 * rest) % 2 == bit && (bit + 2 * rest) / 2 == rest
  {}

  lemma XorBits(a: nat, b: nat)
    ensures Xor(a, b) % 2 == (a % 2 + b % 2) % 2 && Xor(a, b) / 2 == Xor(a / 2, b / 2)
  {
    Halves((a % 2 + b % 2) % 2, Xor(a / 2, b / 2));
  }

  lemma {:induction false} XorCancels(a: nat, b: nat, c: nat)
    requires Xor(a, c) == Xor(b, c)
    ensures a == b
    decreases a + b + c
  {
    hide Xor;
    XorBits(a, c);
    XorBits(b, c);
    if a != 0 || b != 0 { XorCancels(a / 2, b / 2, c / 2); }
  }

  lemma {:induction false} XorCommutes(a: nat, b: nat)
    ensures Xor(a, b) == Xor(b, a)
    decreases a + b
  {
    if a != 0 || b != 0 { XorCommutes(a / 2, b / 2); }
  }

  /** The low `n` bits. */
  function Low(x: nat, n: nat): nat { if n == 0 then 0 else x % 2 + 2 * Low(x / 2, n - 1) }

  /** The low bits of an exclusive or are those of the low bits. */
  lemma {:induction false} XorOfLow(a: nat, b: nat, n: nat)
    ensures Low(Xor(a, b), n) == Xor(Low(a, n), Low(b, n))
  {
    if n > 0 {
      XorOfLow(a / 2, b / 2, n - 1);
      hide Xor, Low;
      XorBits(a, b);
      LowBits(a, n);
      LowBits(b, n);
      LowBits(Xor(a, b), n);
      XorBits(Low(a, n), Low(b, n));
      SameHalves(Low(Xor(a, b), n), Xor(Low(a, n), Low(b, n)));
    }
  }

  lemma SameHalves(x: nat, y: nat)
    requires x % 2 == y % 2 && x / 2 == y / 2
    ensures x == y
  {}

  lemma LowBits(x: nat, n: nat)
    requires n > 0
    ensures Low(x, n) % 2 == x % 2 && Low(x, n) / 2 == Low(x / 2, n - 1)
  {
    Halves(x % 2, Low(x / 2, n - 1));
  }

  /** The bits above them. */
  function Top(x: nat, n: nat): nat { if n == 0 then x else Top(x / 2, n - 1) }

  function Doubled(x: nat, n: nat): nat { if n == 0 then x else 2 * Doubled(x, n - 1) }

  lemma {:induction false} LowAndTop(x: nat, n: nat)
    ensures x == Low(x, n) + Doubled(Top(x, n), n) && Low(x, n) < Doubled(1, n)
  {
    if n > 0 { LowAndTop(x / 2, n - 1); }
  }

  lemma SevenDoubled(x: nat)
    ensures Doubled(x, 7) == 128 * x
  {
    assert Doubled(x, 1) == 2 * x && Doubled(x, 3) == 8 * x && Doubled(x, 5) == 32 * x;
  }

  lemma RestOf(x: nat, low: nat, top: nat)
    requires x == low + 128 * top && low < 128
    ensures x % 128 == low
  {}

  lemma LowIsRest(x: nat)
    ensures Low(x, 7) == x % 128
  {
    hide Low, Top, Doubled;
    LowAndTop(x, 7);
    SevenDoubled(Top(x, 7));
    SevenDoubled(1);
    RestOf(x, Low(x, 7), Top(x, 7));
  }

  lemma XorApart(a: nat, b: nat, c: nat, d: nat)
    requires (a == c && b != d) || (b == d && a != c)
    ensures Xor(a, b) != Xor(c, d)
  {
    hide Xor;
    XorCommutes(a, b);
    XorCommutes(c, d);
    if Xor(a, b) == Xor(c, d) {
      if b == d { XorCancels(a, c, b); } else { XorCancels(b, d, a); }
    }
  }
}
