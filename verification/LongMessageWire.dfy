/** What a long message looks like on the bus: one header frame carrying the length and the
    check word, then fragments of up to five bytes numbered from one. */
module LongMessageWire {
  import opened Can

  const OPC_DTXC: byte := 0xE9

  datatype Status = Incomplete | Complete | SequenceError | TimeoutError | CrcError | Truncated

  /** One call of the user's message handler. */
  datatype Call = Call(bytes: seq<byte>, stream: byte, status: Status)

  /** A message together with what its sender puts around it. */
  datatype Message = Message(stream: byte, canId: byte, priority: byte, bytes: seq<byte>, crc: word)

  function FragmentCount(n: nat): nat { (n + 4) / 5 }

  function Fragment(bytes: seq<byte>, k: nat): (p: seq<byte>)
    requires 5 * k <= |bytes|
    ensures |p| <= 5
  {
    bytes[5 * k..Min(5 * k + 5, |bytes|)]
  }

  function DataFrame(m: Message, sequence: nat, payload: seq<byte>): Frame
    requires |payload| <= 5
  {
    CANFrame(HeaderId(m.priority, m.canId), false, false, 8,
             [OPC_DTXC, m.stream, LowByte(sequence)] + payload + Zeros(5 - |payload|))
  }

  function HeaderFrame(m: Message): Frame {
    var n := |m.bytes|;
    DataFrame(m, 0, [HighByte(n), LowByte(n), HighByte(m.crc), LowByte(m.crc), 0])
  }

  function FragmentFrame(m: Message, k: nat): Frame
    requires 5 * k <= |m.bytes|
  {
    DataFrame(m, k + 1, Fragment(m.bytes, k))
  }

  /** Everything a sender emits for `m`: the header, then the fragments in order. */
  function Frames(m: Message): (fs: seq<Frame>)
    ensures |fs| == 1 + FragmentCount(|m.bytes|)
  {
    seq(1 + FragmentCount(|m.bytes|), i requires 0 <= i < 1 + FragmentCount(|m.bytes|) =>
      if i == 0 then HeaderFrame(m) else FragmentFrame(m, i - 1))
  }

  lemma FrameData(m: Message)
    ensures HeaderFrame(m).data ==
              [OPC_DTXC, m.stream, 0, HighByte(|m.bytes|), LowByte(|m.bytes|), HighByte(m.crc), LowByte(m.crc), 0]
    ensures Frames(m)[0] == HeaderFrame(m) && Frames(m) == [HeaderFrame(m)] + Frames(m)[1..]
    ensures forall k :: 0 <= k < FragmentCount(|m.bytes|) ==> Frames(m)[1 + k] == FragmentFrame(m, k)
  {}

  /** The two ways the code assembles a frame's data before the opcode is put in front. */
  lemma AssembledHeader(m: Message, data: seq<byte>)
    requires data == [0, m.stream, LowByte(0), HighByte(|m.bytes|), LowByte(|m.bytes|),
                      HighByte(m.crc), LowByte(m.crc), 0]
    ensures CANFrame(HeaderId(m.priority, m.canId), false, false, 8, data[0 := OPC_DTXC]) == HeaderFrame(m)
  {
    assert data[0 := OPC_DTXC] == HeaderFrame(m).data;
  }

  lemma AssembledFragment(m: Message, k: nat, data: seq<byte>)
    requires 5 * k <= |m.bytes|
    requires data == [0, m.stream, LowByte(k + 1)] + Fragment(m.bytes, k) + Zeros(5 - |Fragment(m.bytes, k)|)
    ensures CANFrame(HeaderId(m.priority, m.canId), false, false, 8, data[0 := OPC_DTXC]) == FragmentFrame(m, k)
  {
    assert data[0 := OPC_DTXC] == FragmentFrame(m, k).data;
  }

  /** Filling in one more payload byte. */
  lemma NextByte(head: seq<byte>, bytes: seq<byte>, from: nat, i: nat, data: seq<byte>)
    requires |head| == 3 && i < 5 && from + i < |bytes|
    requires data == head + bytes[from..from + i] + Zeros(5 - i)
    ensures data[i + 3 := bytes[from + i]] == head + bytes[from..from + i + 1] + Zeros(4 - i)
  {}

  // Readings of a received frame
  function StreamOf(f: Frame): byte { f.data[1] }

  function SequenceOf(f: Frame): byte { f.data[2] }

  function LengthOf(f: Frame): word { Word(f.data[3], f.data[4]) }

  function CrcOf(f: Frame): word { Word(f.data[5], f.data[6]) }

  function FlagsOf(f: Frame): byte { f.data[7] }

  function PayloadOf(f: Frame): (p: seq<byte>)
    ensures |p| == 5
  {
    f.data[3..8]
  }

  /** What a header says about its message: the length only modulo 65536. */
  lemma {:induction false} HeaderReads(m: Message)
    ensures var f := HeaderFrame(m);
            && StreamOf(f) == m.stream && SenderOf(f) == m.canId % 0x80
            && SequenceOf(f) == 0 && FlagsOf(f) == 0
            && LengthOf(f) == |m.bytes| % 0x1_0000 && CrcOf(f) == m.crc
  {
    hide LowByte, HighByte, Word;
    FrameData(m);
    SenderKept(m.priority, m.canId);
    TwoBytesOf(|m.bytes|);
    TwoBytesOf(m.crc);
  }

  lemma SenderKept(priority: byte, canId: byte)
    ensures HeaderId(priority, canId) % 0x80 == canId % 0x80
  {}

  lemma TwoBytesOf(n: nat)
    ensures Word(HighByte(n), LowByte(n)) == n % 0x1_0000
  {
    Recombined(n / 0x100 / 0x100, n / 0x100 % 0x100, n % 0x100);
  }

  lemma Recombined(q: nat, a: nat, b: nat)
    requires a < 0x100 && b < 0x100
    ensures ((q * 0x100 + a) * 0x100 + b) % 0x1_0000 == a * 0x100 + b
  {
    assert (q * 0x100 + a) * 0x100 + b == q * 0x1_0000 + (a * 0x100 + b);
  }

  /** The frame as it is on the bus: four bits of priority above seven of the CAN id, no extended identifier, eight
      bytes. */
  predicate OnBus(f: Frame, m: Message) {
    f.id / 0x80 == m.priority && f.id % 0x80 == m.canId % 0x80 && !f.ext && !f.rtr && f.len == 8 && f.data[0] == 0xE9
  }

  lemma IdParts(priority: byte, canId: byte)
    ensures HeaderId(priority, canId) / 0x80 == priority && HeaderId(priority, canId) % 0x80 == canId % 0x80
  {}

  /** A header byte by byte: the stream, number zero, length and check word with the upper byte first, no flags. */
  lemma {:induction false} HeaderBytes(m: Message)
    ensures var f := HeaderFrame(m);
            && OnBus(f, m) && f.data[1] == m.stream && f.data[2] == 0 && f.data[7] == 0
            && f.data[3] as nat * 0x100 + f.data[4] == |m.bytes| % 0x1_0000
            && f.data[5] as nat * 0x100 + f.data[6] == m.crc
  {
    FrameData(m);
    IdParts(m.priority, m.canId);
    hide LowByte, HighByte;
    TwoBytesOf(|m.bytes|);
    TwoBytesOf(m.crc);
  }

  /** A fragment byte by byte: the stream, its number, and five bytes of the message or padding. */
  lemma {:induction false} FragmentBytes(m: Message, k: nat)
    requires 5 * k <= |m.bytes|
    ensures var f := FragmentFrame(m, k);
            && OnBus(f, m) && f.data[1] == m.stream && f.data[2] == (k + 1) % 0x100
            && forall i :: 3 <= i < 8 ==>
                 f.data[i] == if 5 * k + i - 3 < |m.bytes| then m.bytes[5 * k + i - 3] else 0
  {
    IdParts(m.priority, m.canId);
    var p := Fragment(m.bytes, k);
    hide HeaderId;
    assert forall i :: 3 <= i < 8 ==> FragmentFrame(m, k).data[i] == if i - 3 < |p| then p[i - 3] else 0;
  }

  lemma FragmentHead(m: Message, k: nat)
    requires 5 * k <= |m.bytes|
    ensures var f := FragmentFrame(m, k);
            StreamOf(f) == m.stream && SenderOf(f) == m.canId % 0x80 && SequenceOf(f) == (k + 1) % 0x100
  {}

  /** What a fragment says: its number only modulo 256, and its bytes padded with zeros. */
  lemma {:induction false} FragmentReads(m: Message, k: nat)
    requires 5 * k <= |m.bytes|
    ensures var f := FragmentFrame(m, k);
            && StreamOf(f) == m.stream && SenderOf(f) == m.canId % 0x80
            && SequenceOf(f) == (k + 1) % 0x100
            && PayloadOf(f)[..|Fragment(m.bytes, k)|] == Fragment(m.bytes, k)
            && forall j :: 0 <= j < 5 && 5 * k + j < |m.bytes| ==> PayloadOf(f)[j] == m.bytes[5 * k + j]
  {
    var p := Fragment(m.bytes, k);
    assert forall j :: 0 <= j < |p| ==> PayloadOf(FragmentFrame(m, k))[j] == p[j];
  }
}
