/** The message buffer of CBUSGridConnect and the in-place encoder and decoder. */
module GridConnectMessages {
  import opened Can
  import opened GridConnectCodec

  class GcMessage {
    const bytes: array<char>
    var len: byte

    constructor ()
      ensures fresh(bytes) && bytes.Length == GC_MAX_MSG && len == 0
    {
      bytes := new char[GC_MAX_MSG](i => 0 as char);
      len := 0;
    }

    /** The text the buffer holds. */
    ghost function Content(): (t: Text)
      requires len <= bytes.Length
      reads this, bytes
    {
      bytes[..len]
    }

    method Clear()
      modifies this, bytes
      ensures len == 0
    {
      for i := 0 to bytes.Length {
        bytes[i] := 0 as char;
      }
      len := 0;
    }
  }

  method PutHex(b: byte, a: array<char>, offset: nat)
    requires offset + 2 <= a.Length
    modifies a
    ensures a[..offset] == old(a[..offset]) && a[..offset + 2] == old(a[..offset]) + Hex(b)
  {
    a[offset] := Digit(b / 16);
    a[offset + 1] := Digit(b % 16);
  }

  method PutStandardId(id: nat, a: array<char>)
    requires a.Length == GC_MAX_MSG
    modifies a
    ensures a[..2] == old(a[..2]) && a[..6] == old(a[..2]) + StandardId(id)
  {
    hide Hex;
    var canId := id * 0x20 % 0x1_0000;
    PutHex(HighByte(canId), a, 2);
    PutHex(LowByte(canId), a, 4);
  }

  method PutExtendedId(id: nat, a: array<char>)
    requires a.Length == GC_MAX_MSG
    modifies a
    ensures a[..2] == old(a[..2]) && a[..10] == old(a[..2]) + ExtendedId(id)
  {
    hide Hex, HighByte, LowByte;
    PutHex(LowByte(id / 0x20_0000), a, 2);
    ghost var first := a[..4];
    a[4] := Digit(id / 0x2_0000 % 16 / 2 * 2);
    a[5] := Digit(id / 0x1_0000 % 4);
    assert a[..6] == first + [Digit(id / 0x2_0000 % 16 / 2 * 2), Digit(id / 0x1_0000 % 4)];
    PutHex(HighByte(id), a, 6);
    PutHex(LowByte(id), a, 8);
  }

  /** Everything up to the data. */
  method PutHead(f: Frame, a: array<char>) returns (offset: nat)
    requires a.Length == GC_MAX_MSG
    modifies a
    ensures offset == |Head(f)| && a[..offset] == Head(f)
  {
    hide StandardId, ExtendedId;
    a[0] := ':';
    if f.ext {
      a[1] := 'X';
      assert a[..2] == [':', 'X'];
      PutExtendedId(f.id, a);
      offset := 10;
    } else {
      a[1] := 'S';
      assert a[..2] == [':', 'S'];
      PutStandardId(f.id, a);
      offset := 6;
    }
    ghost var before := a[..offset];
    a[offset] := if f.rtr then 'R' else 'N';
    offset := offset + 1;
    assert a[..offset] == before + [if f.rtr then 'R' else 'N'];
  }

  method PutData(f: Frame, a: array<char>, start: nat) returns (offset: nat)
    requires a.Length == GC_MAX_MSG && f.len <= 8 && start + 2 * f.len < GC_MAX_MSG
    modifies a
    ensures offset == start + 2 * f.len && a[..offset] == old(a[..start]) + HexBytes(f.data[..f.len])
  {
    hide Hex;
    offset := start;
    var i := 0;
    while i < f.len
      invariant i <= f.len && offset == start + 2 * i
      invariant a[..offset] == old(a[..start]) + HexBytes(f.data[..i])
    {
      PutHex(f.data[i], a, offset);
      assert f.data[..i + 1][..i] == f.data[..i];
      offset := offset + 2;
      i := i + 1;
    }
  }

  method EncodeGC(f: Frame, m: GcMessage) returns (ok: bool)
    requires m.bytes.Length == GC_MAX_MSG
    modifies m, m.bytes
    ensures ok == Encode(f).Some?
    ensures ok ==> m.len <= GC_MAX_MSG && m.Content() == Encode(f).value
    ensures !ok ==> m.len == 0
  {
    hide Head, Hex, HexBytes;
    m.Clear();
    if f.len > 8 || (!f.ext && f.id > 0x7FF) || (f.ext && f.id > 0x1FFF_FFFF) {
      return false;
    }
    var start := PutHead(f, m.bytes);
    var offset := PutData(f, m.bytes, start);
    ghost var before := m.bytes[..offset];
    m.bytes[offset] := ';';
    m.len := offset + 1;
    assert m.Content() == before + [';'];
    ok := true;
  }

  method CheckHexChars(m: GcMessage, start: nat, count: nat) returns (ok: bool)
    requires start + count <= m.bytes.Length
    ensures ok == AllHex(m.bytes[..], start, count)
  {
    hide IsHex;
    for i := start to start + count
      invariant forall j :: start <= j < i ==> IsHex(m.bytes[j])
    {
      if !IsHex(m.bytes[i]) {
        assert !IsHex(m.bytes[..][i]);
        return false;
      }
    }
    ok := true;
  }

  /** Where the data starts, or zero if the buffer does not begin as a text does. The fixed positions are looked
      at whatever the length of the text is. */
  function DataStart(s: Text): nat
    requires |s| == GC_MAX_MSG
  {
    if s[0] == ':' && s[1] == 'X' && AllHex(s, 2, 8) && (s[10] == 'R' || s[10] == 'N') then 11
    else if s[0] == ':' && s[1] == 'S' && AllHex(s, 2, 4) && (s[6] == 'R' || s[6] == 'N') then 7
    else 0
  }

  /** A text that ends before its data starts, by an even number of characters: the decoder goes on with a data
      length that has wrapped around, far beyond the buffer. */
  predicate Wanders(s: Text, n: nat)
    requires |s| == GC_MAX_MSG
  {
    n <= DataStart(s) && (DataStart(s) + 1 - n) % 2 == 0 && DataStart(s) > 0
  }

  /** No text with an end mark does. */
  lemma TerminatedStays(s: Text, n: nat)
    requires |s| == GC_MAX_MSG && 2 <= n <= |s| && s[n - 1] == ';'
    ensures !Wanders(s, n)
  {
    assert !IsHex(s[n - 1]);
  }

  /** What lies within the text reads the same there. */
  lemma BufferHex(s: Text, n: nat, start: nat, count: nat)
    requires start + count <= n <= |s|
    ensures AllHex(s, start, count) == AllHex(s[..n], start, count)
  {
    forall i | start <= i < start + count ensures s[i] == s[..n][i] {}
  }

  lemma TooShort(t: Text)
    requires |t| < (if |t| >= 2 && t[1] == 'X' then 12 else 8)
    ensures Decode(t).None?
  {
    hide AllHex, ReadExtendedId, ReadStandardId;
  }

  /** The kind of frame and the identifier; the text goes on at `offset` if it is long enough. */
  method DecodeId(m: GcMessage) returns (ok: bool, ext: bool, id: uint32, offset: nat)
    requires m.bytes.Length == GC_MAX_MSG && m.len <= GC_MAX_MSG
    ensures offset == if ext then 10 else 6
    ensures ok && (m.bytes[offset] == 'R' || m.bytes[offset] == 'N') ==> DataStart(m.bytes[..]) == offset + 1
    ensures m.bytes[..m.len] == m.Content()
    ensures m.len < offset + 2 || !ok ==> Decode(m.Content()).None?
    ensures m.len >= offset + 2 && ok ==> Decode(m.Content()) == DecodeTail(m.Content(), offset, ext, id)
  {
    hide DecodeTail, Unhex, AllHex;
    ghost var t, s := m.Content(), m.bytes[..];
    ok, ext, id, offset := false, false, 0, 6;
    if |t| < 8 { TooShort(t); }
    if m.bytes[0] != ':' { return; }
    if m.bytes[1] == 'X' {
      ext, offset := true, 10;
      if |t| < 12 { TooShort(t); } else { BufferHex(s, |t|, 2, 8); }
      ok := CheckHexChars(m, 2, 8);
      if ok { id := ReadExtendedId(m.bytes[..]); }
    } else if m.bytes[1] == 'S' {
      if |t| >= 8 { BufferHex(s, |t|, 2, 4); }
      ok := CheckHexChars(m, 2, 4);
      if ok { id := ReadStandardId(m.bytes[..]); }
    }
  }

  /** The data bytes from `start` to the terminator. */
  method DecodeData(m: GcMessage, start: nat, n: nat) returns (ok: bool, data: seq<byte>)
    requires m.bytes.Length == GC_MAX_MSG && m.len <= GC_MAX_MSG && n <= 8 && start + 2 * n == m.len - 1
    ensures ok == AllHex(m.Content(), start, 2 * n)
    ensures ok ==> data == UnhexBytes(m.Content(), start, n) + Zeros(8 - n)
  {
    hide IsHex, Unhex;
    ghost var t := m.Content();
    data := Zeros(8);
    for i := 0 to n
      invariant |data| == 8 && AllHex(t, start, 2 * i)
      invariant data[..i] == UnhexBytes(t, start, i) && forall k :: i <= k < 8 ==> data[k] == 0
    {
      var offset := start + 2 * i;
      var hex := CheckHexChars(m, offset, 2);
      if !hex {
        return false, data;
      }
      ghost var before := data[..i];
      data := data[i := Unhex(m.bytes[offset], m.bytes[offset + 1])];
      assert data[..i + 1] == before + [data[i]];
    }
    assert data == data[..n] + Zeros(8 - n);
    ok := true;
  }

  method DecodeGC(m: GcMessage) returns (ok: bool, f: Frame)
    requires m.bytes.Length == GC_MAX_MSG
    requires m.len <= GC_MAX_MSG ==> !Wanders(m.bytes[..], m.len)
    ensures ok == (m.len <= GC_MAX_MSG && Decode(m.Content()).Some?)
    ensures ok ==> f == Decode(m.Content()).value
  {
    hide Decode, AllHex, DataStart, UnhexBytes, Zeros;
    f := CANFrame(0, false, false, 0, Zeros(8));
    if m.len > GC_MAX_MSG { return false, f; }
    var known, ext, id, offset := DecodeId(m);
    if !known { return false, f; }
    if m.len >= offset + 2 {
      assert m.Content()[offset] == m.bytes[offset];
      assert m.Content()[m.len - 1] == m.bytes[m.len - 1];
    }
    var rtr := m.bytes[offset] == 'R';
    if !rtr && m.bytes[offset] != 'N' { return false, f; }
    offset := offset + 1;
    var dataLength := m.len as int - offset - 1;
    if dataLength % 2 != 0 || dataLength > 16 { return false, f; }
    assert dataLength >= 0;
    var hex, data := DecodeData(m, offset, dataLength / 2);
    if !hex { return false, f; }
    if m.bytes[m.len - 1] != ';' { return false, f; }
    return true, CANFrame(id, ext, rtr, dataLength / 2, data);
  }
}
