/** CAN frames as GridConnect text: `:` `S` or `X`, the identifier, `R` or `N`, the data, `;`. */
module GridConnectCodec {
  import opened Can

  type Text = seq<char>

  const GC_MAX_MSG: nat := 28

  // ---- Hexadecimal, upper case only ----

  function Digit(n: nat): (c: char)
    requires n < 16
    ensures IsHex(c) && Nibble(c) == n
  {
    if n < 10 then ('0' as int + n) as char else ('A' as int + n - 10) as char
  }

  predicate IsHex(c: char) { '0' <= c <= '9' || 'A' <= c <= 'F' }

  function Nibble(c: char): (n: nat)
    requires IsHex(c)
    ensures n < 16
  {
    if c < 'A' then c as int - '0' as int else c as int - 'A' as int + 10
  }

  function Hex(b: byte): (t: Text)
    ensures |t| == 2
  {
    [Digit(b / 16), Digit(b % 16)]
  }

  function Unhex(upper: char, lower: char): byte
    requires IsHex(upper) && IsHex(lower)
  {
    Nibble(upper) * 16 + Nibble(lower)
  }

  lemma UnhexHex(b: byte)
    ensures IsHex(Hex(b)[0]) && IsHex(Hex(b)[1]) && Unhex(Hex(b)[0], Hex(b)[1]) == b
  {}

  function HexBytes(s: seq<byte>): (t: Text)
    ensures |t| == 2 * |s|
  {
    if s == [] then [] else HexBytes(s[..|s| - 1]) + Hex(s[|s| - 1])
  }

  predicate AllHex(t: Text, start: nat, count: nat) {
    start + count <= |t| && forall i :: start <= i < start + count ==> IsHex(t[i])
  }

  function UnhexBytes(t: Text, start: nat, n: nat): (s: seq<byte>)
    requires AllHex(t, start, 2 * n)
    ensures |s| == n
  {
    if n == 0 then [] else UnhexBytes(t, start, n - 1) + [Unhex(t[start + 2 * n - 2], t[start + 2 * n - 1])]
  }

  // ---- Identifiers ----

  /** The eleven bits of a standard identifier, shifted into the high bits of sixteen. */
  function StandardId(id: nat): (t: Text)
    ensures |t| == 4
  {
    var c := id * 0x20 % 0x1_0000;
    Hex(HighByte(c)) + Hex(LowByte(c))
  }

  function ReadStandardId(t: Text): nat
    requires AllHex(t, 2, 4)
  {
    (Unhex(t[2], t[3]) * 0x100 + Unhex(t[4], t[5])) / 0x20
  }

  /** Bits 28 to 21, then 20 to 18 and a zero, then 17 and 16, then the low sixteen. */
  function ExtendedId(id: nat): (t: Text)
    ensures |t| == 8
  {
    Hex(LowByte(id / 0x20_0000)) + [Digit(id / 0x2_0000 % 16 / 2 * 2), Digit(id / 0x1_0000 % 4)]
    + Hex(HighByte(id)) + Hex(LowByte(id))
  }

  /** Bits 4, 3 and 2 of the second byte are not looked at. */
  function ReadExtendedId(t: Text): nat
    requires AllHex(t, 2, 8)
  {
    var b := Unhex(t[4], t[5]);
    Unhex(t[2], t[3]) * 0x20_0000 + b / 0x20 * 0x20 * 0x2000 + b % 4 * 0x1_0000
    + Unhex(t[6], t[7]) * 0x100 + Unhex(t[8], t[9])
  }

  // ---- Encoding ----

  predicate Valid(f: Frame) { f.len <= 8 && f.id <= if f.ext then 0x1FFF_FFFF else 0x7FF }

  function Head(f: Frame): (t: Text)
    ensures |t| == if f.ext then 11 else 7
  {
    [':', if f.ext then 'X' else 'S'] + (if f.ext then ExtendedId(f.id) else StandardId(f.id))
    + [if f.rtr then 'R' else 'N']
  }

  function Encode(f: Frame): (t: Option<Text>)
    ensures t.Some? <==> Valid(f)
    ensures t.Some? ==> |t.value| == |Head(f)| + 2 * f.len + 1 <= GC_MAX_MSG
  {
    if !Valid(f) then None else Some(Head(f) + HexBytes(f.data[..f.len]) + [';'])
  }

  // ---- Decoding ----

  function DecodeTail(t: Text, offset: nat, ext: bool, id: uint32): (r: Option<Frame>)
  {
    if offset >= |t| || (t[offset] != 'R' && t[offset] != 'N') then None else
    var n := |t| - offset - 2;
    if n < 0 || n % 2 != 0 || n > 16 || !AllHex(t, offset + 1, n) || t[|t| - 1] != ';' then None else
    Some(CANFrame(id, ext, t[offset] == 'R', n / 2, UnhexBytes(t, offset + 1, n / 2) + Zeros(8 - n / 2)))
  }

  lemma ExtendedIdInRange(t: Text)
    requires AllHex(t, 2, 8)
    ensures ReadExtendedId(t) <= 0x1FFF_FFFF
  {}

  function Decode(t: Text): (r: Option<Frame>)
  {
    if |t| > GC_MAX_MSG || |t| < 2 || t[0] != ':' then None
    else if t[1] == 'X' then
      if !AllHex(t, 2, 8) then None else
      ExtendedIdInRange(t);
      DecodeTail(t, 10, true, ReadExtendedId(t))
    else if t[1] == 'S' then
      if !AllHex(t, 2, 4) then None else DecodeTail(t, 6, false, ReadStandardId(t))
    else None
  }

  // ---- Encoding and decoding undo each other ----

  /** Everything a frame on the wire consists of. */
  predicate SameFrame(f: Frame, g: Frame) {
    && f.id == g.id && f.ext == g.ext && f.rtr == g.rtr
    && f.len == g.len && f.len <= 8 && f.data[..f.len] == g.data[..f.len]
  }

  lemma {:induction false} HexBytesAreHex(s: seq<byte>, a: Text, b: Text)
    ensures AllHex(a + HexBytes(s) + b, |a|, 2 * |s|)
    ensures UnhexBytes(a + HexBytes(s) + b, |a|, |s|) == s
  {
    if s != [] {
      var p, x := s[..|s| - 1], s[|s| - 1];
      hide Hex;
      assert a + HexBytes(s) + b == a + HexBytes(p) + (Hex(x) + b);
      HexBytesAreHex(p, a, Hex(x) + b);
      UnhexHex(x);
      UnhexLast(s, a, b);
    }
  }

  lemma UnhexLast(s: seq<byte>, a: Text, b: Text)
    requires |s| > 0
    ensures var t := a + HexBytes(s) + b;
            t[|a| + 2 * |s| - 2] == Hex(s[|s| - 1])[0] && t[|a| + 2 * |s| - 1] == Hex(s[|s| - 1])[1]
  {
    hide Hex;
  }

  lemma BytesOfWord(w: nat)
    requires w < 0x1_0000
    ensures HighByte(w) * 0x100 + LowByte(w) == w
  {}

  lemma FourHex(x: byte, y: byte, a: char, b: char, c: char, d: char)
    requires [a, b, c, d] == Hex(x) + Hex(y)
    ensures IsHex(a) && IsHex(b) && IsHex(c) && IsHex(d) && Unhex(a, b) == x && Unhex(c, d) == y
  {
    UnhexHex(x);
    UnhexHex(y);
    hide Hex, Unhex, IsHex;
    var t := [a, b, c, d];
    assert t[0] == Hex(x)[0] && t[1] == Hex(x)[1] && t[2] == Hex(y)[0] && t[3] == Hex(y)[1];
  }

  lemma StandardIdRead(id: nat, t: Text)
    requires id <= 0x7FF && |t| >= 6 && t[2..6] == StandardId(id)
    ensures AllHex(t, 2, 4) && ReadStandardId(t) == id
  {
    hide Hex, Unhex, IsHex, HighByte, LowByte;
    var c := id * 0x20;
    BytesOfWord(c);
    assert t[2..6] == [t[2], t[3], t[4], t[5]];
    FourHex(HighByte(c), LowByte(c), t[2], t[3], t[4], t[5]);
  }

  /** The pieces of an extended identifier put together again. `q` is its high thirteen bits. */
  lemma HighBitsParts(q: nat)
    requires q < 0x2000
    ensures var b := q / 2 % 16 / 2 * 2 * 16 + q % 4;
            q / 32 < 0x100 && b / 0x20 * 0x20 * 0x2000 + b % 4 * 0x1_0000 + q / 32 * 0x20_0000 == q * 0x1_0000
  {
    MiddleBits(q);
    PackedBits(q / 4 % 8, q % 4);
  }

  lemma MiddleBits(q: nat)
    ensures q / 2 % 16 / 2 == q / 4 % 8 && q == q / 32 * 32 + q / 4 % 8 * 4 + q % 4
  {
    HalfOfPair(q / 4, q % 4);
    EighthOfQuarter(q);
  }

  lemma HalfOfPair(a: nat, b: nat)
    requires b < 4
    ensures (a * 4 + b) / 2 == a * 2 + b / 2 && (a * 2 + b / 2) % 16 / 2 == a % 8
  {
    TwiceInSixteen(a / 8, a % 8, b / 2);
  }

  lemma TwiceInSixteen(k: nat, j: nat, c: nat)
    requires j < 8 && c < 2
    ensures ((k * 8 + j) * 2 + c) % 16 / 2 == j
  {
    assert (k * 8 + j) * 2 + c == k * 16 + (j * 2 + c);
  }

  lemma EighthOfQuarter(q: nat)
    ensures q / 4 / 8 == q / 32
  {}

  lemma PackedBits(m: nat, r: nat)
    requires m < 8 && r < 4
    ensures (m * 2 * 16 + r) / 0x20 == m && (m * 2 * 16 + r) % 4 == r
  {}

  lemma HighBitsOf(id: nat)
    ensures id / 0x1_0000 / 32 == id / 0x20_0000 && id / 0x1_0000 / 2 == id / 0x2_0000
  {}

  lemma LowBitsOf(id: nat)
    ensures HighByte(id) == HighByte(id % 0x1_0000) && LowByte(id) == LowByte(id % 0x1_0000)
  {
    var q, r := id / 0x1_0000, id % 0x1_0000;
    assert id == q * 0x1_0000 + r;
    assert id / 0x100 == q * 0x100 + r / 0x100;
  }

  lemma ExtendedIdChars(id: nat, t: Text)
    requires |t| >= 10 && t[2..10] == ExtendedId(id)
    ensures AllHex(t, 2, 8)
    ensures Unhex(t[2], t[3]) == LowByte(id / 0x20_0000)
    ensures Unhex(t[4], t[5]) == id / 0x2_0000 % 16 / 2 * 2 * 16 + id / 0x1_0000 % 4
    ensures Unhex(t[6], t[7]) == HighByte(id) && Unhex(t[8], t[9]) == LowByte(id)
  {
    hide Hex, IsHex, HighByte, LowByte, Digit, Nibble;
    var h := LowByte(id / 0x20_0000);
    var s := t[2..10];
    assert t[2] == s[0] && t[3] == s[1] && t[4] == s[2] && t[5] == s[3];
    assert t[6] == s[4] && t[7] == s[5] && t[8] == s[6] && t[9] == s[7];
    assert [s[0], s[1]] == Hex(h);
    UnhexHex(h);
    assert [s[4], s[5], s[6], s[7]] == Hex(HighByte(id)) + Hex(LowByte(id));
    FourHex(HighByte(id), LowByte(id), s[4], s[5], s[6], s[7]);
  }

  lemma ExtendedIdValue(id: nat)
    requires id <= 0x1FFF_FFFF
    ensures var b := id / 0x2_0000 % 16 / 2 * 2 * 16 + id / 0x1_0000 % 4;
            var high := LowByte(id / 0x20_0000) * 0x20_0000 + b / 0x20 * 0x20 * 0x2000 + b % 4 * 0x1_0000;
            high + HighByte(id) * 0x100 + LowByte(id) == id
  {
    hide HighByte;
    var q := id / 0x1_0000;
    HighBitsOf(id);
    HighBitsParts(q);
    LowBitsOf(id);
    BytesOfWord(id % 0x1_0000);
    assert LowByte(q / 32) == q / 32;
    hide LowByte;
  }

  lemma {:induction false} ExtendedIdRead(id: nat, t: Text)
    requires id <= 0x1FFF_FFFF && |t| >= 10 && t[2..10] == ExtendedId(id)
    ensures AllHex(t, 2, 8) && ReadExtendedId(t) == id
  {
    hide Unhex, IsHex, HighByte, LowByte, ExtendedId, AllHex;
    ExtendedIdChars(id, t);
    ExtendedIdValue(id);
  }

  /** What a standard or extended identifier and the frame type look like when they are read back. */
  lemma HeadRead(f: Frame, t: Text)
    requires Valid(f) && Head(f) <= t
    ensures t[0] == ':' && t[|Head(f)| - 1] == if f.rtr then 'R' else 'N'
    ensures if f.ext then t[1] == 'X' && AllHex(t, 2, 8) && ReadExtendedId(t) == f.id
            else t[1] == 'S' && AllHex(t, 2, 4) && ReadStandardId(t) == f.id
  {
    hide ExtendedId, StandardId, ReadExtendedId, ReadStandardId, AllHex;
    var h := Head(f);
    assert t[0] == h[0] && t[1] == h[1] && t[|h| - 1] == h[|h| - 1];
    if f.ext {
      assert t[2..10] == h[2..10] == ExtendedId(f.id);
      ExtendedIdRead(f.id, t);
    } else {
      assert t[2..6] == h[2..6] == StandardId(f.id);
      StandardIdRead(f.id, t);
    }
  }

  /** Decoding the text of any valid frame gives the frame back: identifier, kind, length and data. */
  lemma {:induction false} RoundTrip(f: Frame)
    requires Valid(f)
    ensures Decode(Encode(f).value).Some? && SameFrame(Decode(Encode(f).value).value, f)
  {
    hide Head, HexBytes, UnhexBytes, ReadExtendedId, ReadStandardId;
    var t := Encode(f).value;
    HeadRead(f, t);
    HexBytesAreHex(f.data[..f.len], Head(f), [';']);
    assert t == Head(f) + HexBytes(f.data[..f.len]) + [';'];
  }

  /** Bytes that are not part of the frame are zero in a decoded one. */
  predicate Padded(f: Frame) { f.len <= 8 && f.data[f.len..] == Zeros(8 - f.len) }

  lemma DecodedIsPadded(t: Text)
    requires Decode(t).Some?
    ensures Valid(Decode(t).value) && Padded(Decode(t).value)
  {
    hide UnhexBytes, AllHex, Unhex;
  }

  /** Whatever text was accepted, encoding what it means and decoding that means the same frame. */
  lemma {:induction false} DecodeEncodeDecode(t: Text)
    requires Decode(t).Some?
    ensures Encode(Decode(t).value).Some? && Decode(Encode(Decode(t).value).value) == Decode(t)
  {
    hide Decode, Encode;
    var f := Decode(t).value;
    DecodedIsPadded(t);
    RoundTrip(f);
    var g := Decode(Encode(f).value).value;
    DecodedIsPadded(Encode(f).value);
    assert f.data == f.data[..f.len] + f.data[f.len..];
    assert g.data == g.data[..g.len] + g.data[g.len..];
  }

  // ---- The text of a frame in a stream ----

  /** From a start to the first end mark. */
  predicate IsToken(t: Text) {
    |t| >= 2 && t[0] == ':' && t[|t| - 1] == ';' && forall i :: 0 <= i < |t| - 1 ==> t[i] != ';'
  }

  lemma EncodedIsToken(f: Frame)
    requires Valid(f)
    ensures IsToken(Encode(f).value) && |Encode(f).value| <= GC_MAX_MSG
  {
    hide ExtendedId, StandardId, HexBytes, ReadExtendedId, ReadStandardId;
    var t := Encode(f).value;
    HeadRead(f, t);
    HexBytesAreHex(f.data[..f.len], Head(f), [';']);
    assert t == Head(f) + HexBytes(f.data[..f.len]) + [';'];
  }
}
