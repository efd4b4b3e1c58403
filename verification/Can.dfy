/** Shared vocabulary: bytes and words as bounded integers, CAN frames, and the
    32-bit millisecond clock whose differences wrap. */
module Can {
  type byte = b: nat | b < 0x100
  type word = w: nat | w < 0x1_0000
  type uint32 = u: nat | u < 0x1_0000_0000

  const TWO32: nat := 0x1_0000_0000

  datatype Option<+T> = None | Some(value: T)

  // `data` always has the eight bytes of the controller's frame, whatever `len` says.
  datatype CANFrame = CANFrame(id: uint32, ext: bool, rtr: bool, len: byte, data: seq<byte>)
  type Frame = f: CANFrame | |f.data| == 8 witness CANFrame(0, false, false, 0, [0, 0, 0, 0, 0, 0, 0, 0])

  function LowByte(n: nat): byte { n % 0x100 }

  function HighByte(n: nat): byte { (n / 0x100) % 0x100 }

  function Word(hi: byte, lo: byte): word { hi * 0x100 + lo }

  function Min(a: nat, b: nat): nat { if a <= b then a else b }

  function Zeros(n: nat): (z: seq<byte>)
    ensures |z| == n
  {
    seq(n, i => 0)
  }

  /** Unsigned 32-bit difference of two readings of the millisecond clock. */
  function Since(now: uint32, then': uint32): uint32 { (now - then') % 0x1_0000_0000 }

  /** Also when the clock has wrapped in between: the difference, added to the earlier reading, gives the later. */
  lemma {:induction false} SinceAdds(now: uint32, then': uint32)
    ensures (then' + Since(now, then')) % 0x1_0000_0000 == now
  {
    if then' <= now {
      assert Since(now, then') == now - then';
    } else {
      assert (now - then') % 0x1_0000_0000 == now - then' + 0x1_0000_0000;
    }
  }

  /** The header the driver writes: four priority bits above a seven bit CAN id. */
  function HeaderId(priority: byte, canId: byte): uint32 { priority * 0x80 + canId % 0x80 }

  function SenderOf(f: Frame): byte { f.id % 0x80 }
}
