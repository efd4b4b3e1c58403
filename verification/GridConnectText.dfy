/** What a GridConnect text means, said without the codec: numbers in hexadecimal and where they stand. */
module GridConnectText {
  import opened Can
  import opened GridConnectCodec

  const DIGITS: Text := "0123456789ABCDEF"

  /** The place of a character among the digits from the `k`-th on. */
  function Place(c: char, k: nat): Option<nat>
    requires k <= 16
    decreases 16 - k
  {
    if k == 16 then None else if DIGITS[k] == c then Some(k) else Place(c, k + 1)
  }

  /** The number that a text is in base sixteen, if all of it is digits. */
  function NumberOf(t: Text): Option<nat> {
    if t == [] then Some(0) else
    var high, low := NumberOf(t[..|t| - 1]), Place(t[|t| - 1], 0);
    if high.Some? && low.Some? then Some(high.value * 16 + low.value) else None
  }

  /** Pairs of digits as bytes. */
  function BytesIn(t: Text): (r: Option<seq<nat>>)
    ensures r.Some? ==> 2 * |r.value| == |t|
  {
    if |t| < 2 then (if t == [] then Some([]) else None) else
    var front, last := BytesIn(t[..|t| - 2]), NumberOf(t[|t| - 2..]);
    if front.Some? && last.Some? then Some(front.value + [last.value]) else None
  }

  /** The identifier in eight digits: eleven bits, three that do not matter, and eighteen. In four it is the upper
      eleven bits. */
  function IdIn(ext: bool, n: nat): nat {
    if ext then n / 0x20_0000 * 0x4_0000 + n % 0x4_0000 else n / 0x20
  }

  /** Start mark, kind, identifier, request or not, up to eight bytes, end mark. */
  predicate Means(t: Text, f: Frame) {
    var h := if f.ext then 8 else 4;
    && h + 4 <= |t| && t[0] == ':' && t[1] == (if f.ext then 'X' else 'S') && t[|t| - 1] == ';'
    && NumberOf(t[2..h + 2]).Some? && f.id == IdIn(f.ext, NumberOf(t[2..h + 2]).value)
    && t[h + 2] == (if f.rtr then 'R' else 'N')
    && f.len <= 8 && BytesIn(t[h + 3..|t| - 1]) == Some(f.data[..f.len]) && f.data[f.len..] == Zeros(8 - f.len)
  }

  lemma DigitAt(k: nat)
    requires k < 16
    ensures DIGITS[k] == Digit(k)
  {}

  lemma {:induction false} PlaceFrom(c: char, k: nat)
    requires k <= 16
    ensures Place(c, k) == if IsHex(c) && Nibble(c) >= k then Some(Nibble(c)) else None
    decreases 16 - k
  {
    if k < 16 {
      DigitAt(k);
      PlaceFrom(c, k + 1);
    }
  }

  lemma OneDigit(t: Text, c: char)
    ensures NumberOf(t + [c]) ==
              if NumberOf(t).Some? && IsHex(c) then Some(NumberOf(t).value * 16 + Nibble(c)) else None
  {
    hide Place, IsHex, Nibble;
    PlaceFrom(c, 0);
    assert (t + [c])[..|t|] == t;
  }

  lemma TwoDigits(t: Text, a: char, b: char)
    ensures NumberOf(t + [a, b]) ==
              if NumberOf(t).Some? && IsHex(a) && IsHex(b) then Some(NumberOf(t).value * 0x100 + Unhex(a, b)) else None
  {
    hide NumberOf, IsHex, Nibble;
    OneDigit(t, a);
    OneDigit(t + [a], b);
    assert t + [a] + [b] == t + [a, b];
  }

  lemma FourDigits(t: Text, a: char, b: char, c: char, d: char)
    ensures NumberOf(t + [a, b, c, d]) ==
              if NumberOf(t).Some? && IsHex(a) && IsHex(b) && IsHex(c) && IsHex(d)
              then Some(NumberOf(t).value * 0x1_0000 + Unhex(a, b) * 0x100 + Unhex(c, d)) else None
  {
    hide NumberOf, IsHex, Unhex;
    TwoDigits(t, a, b);
    TwoDigits(t + [a, b], c, d);
    assert t + [a, b] + [c, d] == t + [a, b, c, d];
  }

  lemma StandardNumber(t: Text)
    requires |t| >= 6
    ensures NumberOf(t[2..6]).Some? <==> AllHex(t, 2, 4)
    ensures AllHex(t, 2, 4) ==> IdIn(false, NumberOf(t[2..6]).value) == ReadStandardId(t)
  {
    hide IsHex, Unhex;
    FourDigits([], t[2], t[3], t[4], t[5]);
    assert t[2..6] == [] + [t[2], t[3], t[4], t[5]];
  }

  lemma ExtendedNumber(t: Text)
    requires |t| >= 10
    ensures NumberOf(t[2..10]).Some? <==> AllHex(t, 2, 8)
    ensures AllHex(t, 2, 8) ==> IdIn(true, NumberOf(t[2..10]).value) == ReadExtendedId(t)
  {
    hide IsHex, Unhex;
    FourDigits([], t[2], t[3], t[4], t[5]);
    var high := [t[2], t[3], t[4], t[5]];
    assert [] + high == high;
    FourDigits(high, t[6], t[7], t[8], t[9]);
    assert t[2..10] == high + [t[6], t[7], t[8], t[9]];
    if AllHex(t, 2, 8) {
      PackedId(Unhex(t[2], t[3]), Unhex(t[4], t[5]), Unhex(t[6], t[7]) * 0x100 + Unhex(t[8], t[9]));
    }
  }

  lemma PackedId(a: nat, b: nat, c: nat)
    requires a < 0x100 && b < 0x100 && c < 0x1_0000
    ensures IdIn(true, (a * 0x100 + b) * 0x1_0000 + c)
              == a * 0x20_0000 + b / 0x20 * 0x20 * 0x2000 + b % 4 * 0x1_0000 + c
  {
    var n, q, m, r := (a * 0x100 + b) * 0x1_0000 + c, b / 0x20, b % 0x20 / 4, b % 4;
    UpperEleven(n, a * 8 + q, m * 0x4_0000 + r * 0x1_0000 + c);
    LowerEighteen(n, (a * 8 + q) * 8 + m, r * 0x1_0000 + c);
  }

  lemma UpperEleven(n: nat, q: nat, r: nat)
    requires n == q * 0x20_0000 + r && r < 0x20_0000
    ensures n / 0x20_0000 == q && n % 0x20_0000 == r
  {}

  lemma LowerEighteen(n: nat, q: nat, r: nat)
    requires n == q * 0x4_0000 + r && r < 0x4_0000
    ensures n / 0x4_0000 == q && n % 0x4_0000 == r
  {}

  lemma AllHexLast(t: Text, start: nat, n: nat)
    requires 0 < n && start + 2 * n <= |t|
    ensures AllHex(t, start, 2 * n) <==>
              AllHex(t, start, 2 * (n - 1)) && IsHex(t[start + 2 * n - 2]) && IsHex(t[start + 2 * n - 1])
  {
    hide IsHex;
  }

  lemma {:induction false} BytesRead(t: Text, start: nat, n: nat)
    requires start + 2 * n <= |t|
    ensures BytesIn(t[start..start + 2 * n]).Some? <==> AllHex(t, start, 2 * n)
    ensures AllHex(t, start, 2 * n) ==> BytesIn(t[start..start + 2 * n]) == Some(UnhexBytes(t, start, n))
    decreases n
  {
    hide IsHex, Unhex, AllHex, NumberOf;
    if n == 0 {
      assert AllHex(t, start, 0) by { NoneToRead(t, start); }
      assert t[start..start] == [];
    } else {
      BytesRead(t, start, n - 1);
      AllHexLast(t, start, n);
      LastByte(t, start, n);
    }
  }

  lemma NoneToRead(t: Text, start: nat)
    requires start <= |t|
    ensures AllHex(t, start, 0)
  {}

  lemma LastByte(t: Text, start: nat, n: nat)
    requires 0 < n && start + 2 * n <= |t|
    ensures var s, a, b := t[start..start + 2 * n], t[start + 2 * n - 2], t[start + 2 * n - 1];
            && s[..|s| - 2] == t[start..start + 2 * (n - 1)]
            && NumberOf(s[|s| - 2..]) == if IsHex(a) && IsHex(b) then Some(Unhex(a, b)) else None
  {
    hide IsHex, Unhex, NumberOf;
    var s, a, b := t[start..start + 2 * n], t[start + 2 * n - 2], t[start + 2 * n - 1];
    TwoDigits([], a, b);
    assert NumberOf([]) == Some(0) by { NoDigits(); }
    assert s[|s| - 2..] == [] + [a, b];
  }

  lemma NoDigits()
    ensures NumberOf([]) == Some(0)
  {}

  lemma {:induction false} OddIsNone(t: Text)
    requires |t| % 2 == 1
    ensures BytesIn(t).None?
  {}

  /** What the data part is, by the codec and by the bytes in it. */
  lemma TailMeans(t: Text, offset: nat, ext: bool, id: uint32, f: Frame)
    requires offset + 2 <= |t|
    ensures DecodeTail(t, offset, ext, id) == Some(f) <==>
              && f.ext == ext && f.id == id && t[|t| - 1] == ';' && t[offset] == (if f.rtr then 'R' else 'N')
              && f.len <= 8 && BytesIn(t[offset + 1..|t| - 1]) == Some(f.data[..f.len])
              && f.data[f.len..] == Zeros(8 - f.len)
  {
    hide AllHex, UnhexBytes, BytesIn, Zeros;
    var n, s := |t| - offset - 2, t[offset + 1..|t| - 1];
    if n % 2 == 1 {
      OddIsNone(s);
    } else {
      BytesRead(t, offset + 1, n / 2);
      assert s == t[offset + 1..offset + 1 + 2 * (n / 2)];
      if AllHex(t, offset + 1, n) && n <= 16 {
        Padded(UnhexBytes(t, offset + 1, n / 2), f);
      }
    }
  }

  lemma Padded(bytes: seq<byte>, f: Frame)
    requires |bytes| <= 8
    ensures f.len == |bytes| && f.data == bytes + Zeros(8 - |bytes|) <==>
              f.len <= 8 && bytes == f.data[..f.len] && f.data[f.len..] == Zeros(8 - f.len)
  {
    hide Zeros;
    if f.len <= 8 { assert f.data == f.data[..f.len] + f.data[f.len..]; }
    if f.len == |bytes| && f.data == bytes + Zeros(8 - |bytes|) { assert f.data[f.len..] == Zeros(8 - f.len); }
  }

  /** Every text that is decoded has the marks, and is long enough and short enough. */
  lemma DecodeShape(t: Text)
    ensures Decode(t).Some? ==>
              var f := Decode(t).value;
              var h := if f.ext then 8 else 4;
              && h + 4 <= |t| <= GC_MAX_MSG && t[0] == ':' && t[1] == (if f.ext then 'X' else 'S') && AllHex(t, 2, h)
  {
    hide AllHex, ReadExtendedId, ReadStandardId, UnhexBytes;
  }

  lemma MeansShape(t: Text, f: Frame)
    requires Means(t, f)
    ensures var h := if f.ext then 8 else 4;
            && h + 4 <= |t| <= GC_MAX_MSG && t[0] == ':' && t[1] == (if f.ext then 'X' else 'S')
            && NumberOf(t[2..h + 2]).Some?
  {
    hide NumberOf, BytesIn, IdIn;
  }

  lemma ExtendedMeans(t: Text, f: Frame)
    requires 12 <= |t| <= GC_MAX_MSG && t[0] == ':' && t[1] == 'X' && f.ext
    ensures Decode(t) == Some(f) <==> Means(t, f)
  {
    hide NumberOf, BytesIn, ReadExtendedId, ReadStandardId, IdIn, AllHex, DecodeTail;
    ExtendedNumber(t);
    if AllHex(t, 2, 8) {
      ExtendedIdInRange(t);
      TailMeans(t, 10, true, ReadExtendedId(t), f);
    }
  }

  lemma StandardMeans(t: Text, f: Frame)
    requires 8 <= |t| <= GC_MAX_MSG && t[0] == ':' && t[1] == 'S' && !f.ext
    ensures Decode(t) == Some(f) <==> Means(t, f)
  {
    hide NumberOf, BytesIn, ReadExtendedId, ReadStandardId, IdIn, AllHex, DecodeTail;
    StandardNumber(t);
    if AllHex(t, 2, 4) {
      StandardIdInRange(t);
      TailMeans(t, 6, false, ReadStandardId(t), f);
    }
  }

  /** The decoder accepts a text exactly when it means a frame, and gives that frame. */
  lemma {:induction false} DecodeExactlyWhen(t: Text, f: Frame)
    ensures Decode(t) == Some(f) <==> Means(t, f)
  {
    hide Decode, Means;
    DecodeShape(t);
    if Means(t, f) { MeansShape(t, f); }
    var h := if f.ext then 8 else 4;
    if h + 4 <= |t| <= GC_MAX_MSG && t[0] == ':' && t[1] == (if f.ext then 'X' else 'S') {
      if f.ext { ExtendedMeans(t, f); } else { StandardMeans(t, f); }
    }
  }

  lemma StandardIdInRange(t: Text)
    requires AllHex(t, 2, 4)
    ensures ReadStandardId(t) <= 0x7FF
  {}

  /** Where an encoded identifier stands. */
  lemma EncodedId(f: Frame)
    requires Valid(f)
    ensures var t := Encode(f).value;
            |t| >= |Head(f)| && if f.ext then t[2..10] == ExtendedId(f.id) else t[2..6] == StandardId(f.id)
  {
    hide HexBytes, ExtendedId, StandardId;
    var t, h := Encode(f).value, Head(f);
    assert t[..|h|] == h;
    if f.ext {
      assert h[2..10] == ExtendedId(f.id) && t[2..10] == t[..|h|][2..10];
    } else {
      assert h[2..6] == StandardId(f.id) && t[2..6] == t[..|h|][2..6];
    }
  }

  lemma StandardDigits(id: nat, t: Text)
    requires id <= 0x7FF && |t| >= 6 && t[2..6] == StandardId(id)
    ensures NumberOf(t[2..6]) == Some(id * 0x20)
  {
    hide NumberOf, Hex, Unhex, IsHex, HighByte, LowByte;
    var c := id * 0x20;
    BytesOfWord(c);
    assert t[2..6] == [] + [t[2], t[3], t[4], t[5]] && t[2..6] == [t[2], t[3], t[4], t[5]];
    FourHex(HighByte(c), LowByte(c), t[2], t[3], t[4], t[5]);
    FourDigits([], t[2], t[3], t[4], t[5]);
    NoDigits();
  }

  /** With the three bits in the middle zero, the number is determined by the identifier that is read from it. */
  lemma NoMiddleBits(n: nat, id: nat)
    requires IdIn(true, n) == id && n % 0x20_0000 < 0x4_0000
    ensures n == id / 0x4_0000 * 0x20_0000 + id % 0x4_0000
  {
    var q, r := n / 0x20_0000, n % 0x20_0000;
    LowerEighteen(n, q * 8, r);
    LowerEighteen(id, q, r);
  }

  lemma MiddleIsZero(a: nat, m: nat, r: nat, c: nat)
    requires r < 4 && c < 0x1_0000
    ensures ((a * 0x100 + (m * 32 + r)) * 0x1_0000 + c) % 0x20_0000 < 0x4_0000
  {
    UpperEleven((a * 0x100 + (m * 32 + r)) * 0x1_0000 + c, a * 8 + m, r * 0x1_0000 + c);
  }

  lemma ExtendedDigits(id: nat, t: Text)
    requires id <= 0x1FFF_FFFF && |t| >= 10 && t[2..10] == ExtendedId(id)
    ensures NumberOf(t[2..10]) == Some(id / 0x4_0000 * 0x20_0000 + id % 0x4_0000)
  {
    hide NumberOf, ExtendedId, Unhex, IsHex, IdIn, ReadExtendedId, HighByte, LowByte;
    ExtendedIdRead(id, t);
    ExtendedIdChars(id, t);
    ExtendedNumber(t);
    var high := [t[2], t[3], t[4], t[5]];
    NoDigits();
    FourDigits([], t[2], t[3], t[4], t[5]);
    assert [] + high == high;
    FourDigits(high, t[6], t[7], t[8], t[9]);
    assert t[2..10] == high + [t[6], t[7], t[8], t[9]];
    var low := Unhex(t[6], t[7]) * 0x100 + Unhex(t[8], t[9]);
    MiddleIsZero(Unhex(t[2], t[3]), id / 0x2_0000 % 16 / 2, id / 0x1_0000 % 4, low);
    NoMiddleBits(NumberOf(t[2..10]).value, id);
  }

  /** The number in an encoded text: a standard identifier in the upper eleven of sixteen bits; an extended one with its
      upper eleven bits above three zeros and the other eighteen below. */
  lemma {:induction false} EncodedNumber(f: Frame)
    requires Valid(f)
    ensures var t := Encode(f).value;
            |t| >= |Head(f)|
            && if f.ext then NumberOf(t[2..10]) == Some(f.id / 0x4_0000 * 0x20_0000 + f.id % 0x4_0000)
               else NumberOf(t[2..6]) == Some(f.id * 0x20)
  {
    hide Encode, NumberOf, ExtendedId, StandardId;
    EncodedId(f);
    if f.ext { ExtendedDigits(f.id, Encode(f).value); } else { StandardDigits(f.id, Encode(f).value); }
  }
}
