/** The basic long message handler: one message out and one message in at a time. */
module LongMessages {
  import opened Can
  import opened LongMessageWire
  import opened LongMessageReceiver
  import opened LongMessageRoundTrip

  // ---- The payload loop, one byte at a time, adds up to `Consume` ----

  function Taken(r: Receiver, b: byte): Receiver
    requires r.index < |r.buffer|
  {
    r.(buffer := r.buffer[r.index := b], index := r.index + 1, received := r.received + 1)
  }

  function Reported(r: Receiver): Receiver {
    r.(buffer := Zeros(|r.buffer|), index := 0)
  }

  /** After `j` bytes of the payload. */
  function Filled(r: Receiver, p: seq<byte>, j: nat): Receiver
    requires r.Valid() && j <= |p| && r.index + j <= |r.buffer|
  {
    r.(buffer := r.Gathered() + p[..j] + r.buffer[r.index + j..], index := r.index + j, received := r.received + j)
  }

  lemma FilledEnds(r: Receiver, p: seq<byte>)
    requires r.Valid()
    ensures Filled(r, p, 0) == r
    ensures |p| < Left(r) && r.index + |p| <= |r.buffer| ==> Consume(r, p) == (Filled(r, p, |p|), [])
  {
    assert p[..|p|] == p;
  }

  lemma FilledGathers(r: Receiver, p: seq<byte>, j: nat)
    requires r.Valid() && j <= |p| && r.index + j <= |r.buffer|
    ensures Filled(r, p, j).Valid() && |Filled(r, p, j).buffer| == |r.buffer|
    ensures Filled(r, p, j).Gathered() == r.Gathered() + p[..j]
    ensures j < |p| && r.index + j < |r.buffer| ==> Taken(Filled(r, p, j), p[j]) == Filled(r, p, j + 1)
  {}

  lemma ConsumeStops(r: Receiver, p: seq<byte>, j: nat)
    requires r.Valid() && j < |p| && j < Left(r) && r.index + j <= |r.buffer|
    ensures r.index + j == |r.buffer| ==>
              var q := Filled(r, p, j);
              q.Valid() && Consume(r, p) == (Reported(q), [Call(q.Gathered(), r.stream, Incomplete)])
    ensures r.index + j < |r.buffer| ==>
              var q := Filled(r, p, j + 1);
              && (q.received >= q.length <==> j + 1 == Left(r))
              && (j + 1 == Left(r) ==>
                    q.Valid() && Consume(r, p) == (Reported(q), [Call(q.Gathered(), r.stream, Complete)]))
  {
    FilledGathers(r, p, j);
    if r.index + j < |r.buffer| {
      FilledGathers(r, p, j + 1);
    }
  }

  class LongMessage {
    const canId: byte           // the node's CAN id, which the driver puts into every frame
    var handed: seq<Frame>      // every frame handed to the CAN driver, in order
    var calls: seq<Call>        // every call of the user's message handler, in order

    var subscribed: seq<byte>
    var receiveTimeout: uint32
    var msgDelay: byte

    var sendBuffer: seq<byte>   // the user's memory, which must not change while sending
    var sendBufferLen: nat
    var sendStreamId: byte
    var sendPriority: byte
    var sendBufferIndex: nat
    var sendSequenceNum: nat
    var lastFragmentSent: uint32

    var isReceiving: bool
    var receiveStreamId: byte
    var senderCanId: byte
    var incomingMessageLength: nat
    var incomingMessageCrc: word
    var incomingBytesReceived: nat
    var receiveBuffer: array<byte>  // the user's memory, filled in place
    var receiveBufferIndex: nat
    var expectedNextReceiveSequenceNum: uint32
    var lastFragmentReceived: uint32

    constructor (canId: byte)
      ensures Valid() && fresh(receiveBuffer) && !IsSending()
      ensures this.canId == canId && Idle(Rx()) && handed == [] && calls == []
    {
      this.canId := canId;
      handed, calls := [], [];
      subscribed, receiveTimeout, msgDelay := [], 5000, 20;
      sendBuffer, sendBufferLen, sendStreamId, sendPriority := [], 0, 0, 0xB;
      sendBufferIndex, sendSequenceNum, lastFragmentSent := 0, 0, 0;
      isReceiving, receiveStreamId, senderCanId := false, 0, 0;
      incomingMessageLength, incomingMessageCrc, incomingBytesReceived := 0, 0, 0;
      receiveBufferIndex, expectedNextReceiveSequenceNum, lastFragmentReceived := 0, 0, 0;
      receiveBuffer := new byte[0];
    }

    // ---- Abstraction ----

    ghost function Rx(): Receiver
      reads this, receiveBuffer
    {
      Receiver(isReceiving, receiveStreamId, senderCanId, incomingMessageLength, incomingMessageCrc,
               incomingBytesReceived, receiveBufferIndex, expectedNextReceiveSequenceNum, lastFragmentReceived,
               receiveBuffer[..])
    }

    ghost function ReceiveSetup(): Setup
      reads this`subscribed, this`receiveTimeout
    {
      Setup(subscribed, receiveTimeout)
    }

    ghost predicate SendValid()
      reads this`sendBuffer, this`sendBufferLen, this`sendBufferIndex, this`sendSequenceNum
    {
      && sendBufferIndex <= sendBufferLen == |sendBuffer|
      && (IsSending() ==> sendBufferIndex % 5 == 0 && sendSequenceNum == 1 + sendBufferIndex / 5)
    }

    ghost predicate Valid()
      reads this, receiveBuffer
    {
      receiveBufferIndex <= receiveBuffer.Length && SendValid()
    }

    /** The message being sent, as the wire shows it. */
    ghost function Outgoing(): Message
      reads this`sendBuffer, this`sendStreamId, this`sendPriority
    {
      Message(sendStreamId, canId, sendPriority, sendBuffer, 0)
    }

    /** The frames of the current message that are still to be sent. */
    ghost function Owed(): seq<Frame>
      requires SendValid()
      reads this`sendBuffer, this`sendBufferLen, this`sendBufferIndex, this`sendSequenceNum, this`sendStreamId,
          this`sendPriority
    {
      if IsSending() then Frames(Outgoing())[sendSequenceNum..] else []
    }

    predicate IsSending()
      reads this`sendBufferIndex, this`sendBufferLen
    {
      sendBufferIndex < sendBufferLen
    }

    // ---- Sending ----

    /** `accepts` is the CAN driver's answer; the handler passes it on and does not retry. */
    method SendMessageFragment(data: seq<byte>, priority: byte, accepts: bool) returns (ok: bool)
      requires |data| == 8
      modifies this`handed
      ensures handed == old(handed) + [CANFrame(HeaderId(priority, canId), false, false, 8, data[0 := OPC_DTXC])]
      ensures ok == accepts
    {
      handed := handed + [CANFrame(HeaderId(priority, canId), false, false, 8, data[0 := OPC_DTXC])];
      ok := accepts;
    }

    /** A message is refused while another is being sent; otherwise its header goes out at once and
        exactly its fragments are owed. */
    method SendLongMessage(msg: seq<byte>, streamId: byte, priority: byte, accepts: bool) returns (ok: bool)
      requires SendValid()
      modifies this`handed, this`sendBuffer, this`sendBufferLen, this`sendStreamId, this`sendPriority
      modifies this`sendBufferIndex, this`sendSequenceNum
      ensures SendValid()
      ensures old(IsSending()) ==> !ok && Owed() == old(Owed()) && handed == old(handed)
      ensures !old(IsSending()) ==>
                && ok == accepts && Outgoing() == Message(streamId, canId, priority, msg, 0)
                && handed == old(handed) + [HeaderFrame(Outgoing())] && Owed() == Frames(Outgoing())[1..]
    {
      hide HeaderFrame, Frames, LowByte, HighByte;
      if IsSending() {
        return false;
      }
      sendBuffer := msg;
      sendBufferLen := |msg|;
      sendStreamId := streamId;
      sendPriority := priority;
      sendBufferIndex := 0;
      sendSequenceNum := 0;
      var data: seq<byte> := [0, sendStreamId, LowByte(sendSequenceNum), HighByte(sendBufferLen),
                              LowByte(sendBufferLen), HighByte(0), LowByte(0), 0];
      FrameData(Outgoing());
      AssembledHeader(Outgoing(), data);
      ok := SendMessageFragment(data, sendPriority, accepts);
      sendSequenceNum := sendSequenceNum + 1;
    }

    /** The receive timeout, then the next fragment when one is owed and the delay has passed. */
    method Process(now: uint32, accepts: bool) returns (ok: bool)
      requires Valid()
      modifies this`handed, this`sendBufferIndex, this`sendSequenceNum, this`lastFragmentSent
      modifies this`calls, this`isReceiving, this`incomingMessageLength, this`incomingBytesReceived
      ensures Valid()
      ensures Rx() == OnTick(old(Rx()), ReceiveSetup(), now).0
      ensures calls == old(calls) + OnTick(old(Rx()), ReceiveSetup(), now).1
      ensures if old(IsSending() && Since(now, lastFragmentSent) >= msgDelay)
              then handed == old(handed) + [old(Owed())[0]] && Owed() == old(Owed())[1..] && ok == accepts
                   && lastFragmentSent == now
              else handed == old(handed) && Owed() == old(Owed()) && ok && lastFragmentSent == old(lastFragmentSent)
    {
      hide Frames, OnTick, Since, LongMessage.Owed;
      ok := true;
      CheckReceiveTimeout(now);
      assert SendValid() && Owed() == old(Owed());
      if sendBufferIndex < sendBufferLen && Since(now, lastFragmentSent) >= msgDelay {
        lastFragmentSent := now;
        ok := SendNextFragment(accepts);
      }
    }

    method CheckReceiveTimeout(now: uint32)
      requires Valid()
      modifies this`calls, this`isReceiving, this`incomingMessageLength, this`incomingBytesReceived
      ensures Rx() == OnTick(old(Rx()), ReceiveSetup(), now).0
      ensures calls == old(calls) + OnTick(old(Rx()), ReceiveSetup(), now).1
    {
      if isReceiving && Since(now, lastFragmentReceived) >= receiveTimeout {
        calls := calls + [Call(receiveBuffer[..receiveBufferIndex], receiveStreamId, TimeoutError)];
        isReceiving := false;
        incomingMessageLength := 0;
        incomingBytesReceived := 0;
      }
    }

    method SendNextFragment(accepts: bool) returns (ok: bool)
      requires SendValid() && IsSending()
      modifies this`handed, this`sendBufferIndex, this`sendSequenceNum
      ensures SendValid() && old(Owed()) != []
      ensures handed == old(handed) + [old(Owed())[0]] && Owed() == old(Owed())[1..] && ok == accepts
    {
      hide Frames, FragmentFrame, Fragment, LowByte;
      ghost var k := sendBufferIndex / 5;
      FrameData(Outgoing());
      var data := NextPayload();
      AssembledFragment(Outgoing(), k, data);
      ok := SendMessageFragment(data, sendPriority, accepts);
      sendSequenceNum := sendSequenceNum + 1;
    }

    /** Up to five bytes of the message behind its stream id and fragment number. */
    method NextPayload() returns (data: seq<byte>)
      requires SendValid() && IsSending()
      modifies this`sendBufferIndex
      ensures sendBufferIndex == Min(old(sendBufferIndex) + 5, sendBufferLen)
      ensures var p := Fragment(sendBuffer, old(sendBufferIndex) / 5);
              |data| == 8 && data == [0, sendStreamId, LowByte(sendSequenceNum)] + p + Zeros(5 - |p|)
    {
      hide LowByte;
      data := [0, sendStreamId, LowByte(sendSequenceNum), 0, 0, 0, 0, 0];
      ghost var from, head := sendBufferIndex, data[..3];
      var i := 0;
      while i < 5 && sendBufferIndex < sendBufferLen
        invariant 0 <= i <= 5 && sendBufferIndex == from + i <= sendBufferLen
        invariant data == head + sendBuffer[from..from + i] + Zeros(5 - i)
      {
        NextByte(head, sendBuffer, from, i, data);
        data := data[i + 3 := sendBuffer[sendBufferIndex]];
        sendBufferIndex := sendBufferIndex + 1;
        i := i + 1;
      }
    }

    // ---- Receiving ----

    method Subscribe(streamIds: seq<byte>, buffer: array<byte>)
      requires SendValid()
      modifies this`subscribed, this`receiveBuffer
      ensures subscribed == streamIds && receiveBuffer == buffer && unchanged(buffer)
      ensures Rx() == old(Rx()).(buffer := buffer[..]) && SendValid() && Owed() == old(Owed())
      ensures receiveBufferIndex <= buffer.Length ==> Valid()
    {
      subscribed := streamIds;
      receiveBuffer := buffer;
    }

    method ClearReceiveBuffer()
      modifies receiveBuffer
      ensures receiveBuffer[..] == Zeros(receiveBuffer.Length)
    {
      for i := 0 to receiveBuffer.Length
        invariant receiveBuffer[..i] == Zeros(i)
      {
        receiveBuffer[i] := 0;
      }
    }

    /** Every received fragment: a header when idle, else the next fragment of the message. */
    method ProcessReceivedMessageFragment(frame: Frame, now: uint32)
      requires Rx().Valid()
      modifies this`isReceiving, this`receiveStreamId, this`incomingMessageLength, this`incomingMessageCrc
      modifies this`incomingBytesReceived
      modifies this`receiveBufferIndex, this`expectedNextReceiveSequenceNum, this`senderCanId, this`calls
      modifies this`lastFragmentReceived, receiveBuffer
      ensures Rx() == OnFrame(old(Rx()), ReceiveSetup(), frame, now).0
      ensures calls == old(calls) + OnFrame(old(Rx()), ReceiveSetup(), frame, now).1
    {
      hide Accept, Finish;
      lastFragmentReceived := now;
      AcceptFragment(frame);
      FinishFragment();
    }

    method AcceptFragment(frame: Frame)
      requires Rx().Valid()
      modifies this`isReceiving, this`receiveStreamId, this`incomingMessageLength, this`incomingMessageCrc
      modifies this`incomingBytesReceived
      modifies this`receiveBufferIndex, this`expectedNextReceiveSequenceNum, this`senderCanId, this`calls, receiveBuffer
      ensures Rx() == Accept(old(Rx()), ReceiveSetup(), frame).0
      ensures calls == old(calls) + Accept(old(Rx()), ReceiveSetup(), frame).1
    {
      hide Consume, Started, StartsMessage, Receiver.Gathered;
      if !isReceiving {
        var starts := IsHeader(frame);
        if starts {
          StartReceiving(frame);
        }
      } else if SenderOf(frame) == senderCanId && frame.data[1] == receiveStreamId {
        if frame.data[2] == expectedNextReceiveSequenceNum {
          TakePayload(frame);
        } else {
          AbandonMessage();
        }
      }
    }

    method IsHeader(frame: Frame) returns (starts: bool)
      ensures starts == StartsMessage(ReceiveSetup(), frame)
    {
      if frame.data[2] != 0 || frame.data[7] != 0 {
        return false;
      }
      for i := 0 to |subscribed|
        invariant frame.data[1] !in subscribed[..i]
      {
        if subscribed[i] == frame.data[1] {
          return true;
        }
      }
      return false;
    }

    method StartReceiving(frame: Frame)
      modifies this`isReceiving, this`receiveStreamId, this`incomingMessageLength, this`incomingMessageCrc
      modifies this`incomingBytesReceived
      modifies this`receiveBufferIndex, this`expectedNextReceiveSequenceNum, this`senderCanId, receiveBuffer
      ensures Rx() == Started(old(Rx()), frame) && Rx().Valid()
    {
      hide Word, Zeros;
      isReceiving := true;
      receiveStreamId := frame.data[1];
      incomingMessageLength := Word(frame.data[3], frame.data[4]);
      incomingMessageCrc := Word(frame.data[5], frame.data[6]);
      incomingBytesReceived := 0;
      ClearReceiveBuffer();
      receiveBufferIndex := 0;
      expectedNextReceiveSequenceNum := 0;
      senderCanId := SenderOf(frame);
    }

    method AbandonMessage()
      requires Rx().Valid()
      modifies this`isReceiving, this`incomingMessageLength, this`incomingBytesReceived, this`calls
      ensures Rx() == old(Rx()).(receiving := false, length := 0, received := 0)
      ensures calls == old(calls) + [Call(old(Rx()).Gathered(), receiveStreamId, SequenceError)]
    {
      calls := calls + [Call(receiveBuffer[..receiveBufferIndex], receiveStreamId, SequenceError)];
      incomingMessageLength := 0;
      incomingBytesReceived := 0;
      isReceiving := false;
    }

    method FinishFragment()
      requires Rx().Valid()
      modifies this`isReceiving, this`incomingMessageLength, this`incomingBytesReceived
      modifies this`receiveBufferIndex, this`expectedNextReceiveSequenceNum, this`calls
      ensures Rx() == Finish(old(Rx())).0
      ensures calls == old(calls) + Finish(old(Rx())).1
    {
      expectedNextReceiveSequenceNum := (expectedNextReceiveSequenceNum + 1) % TWO32;
      if incomingMessageLength > 0 && incomingBytesReceived >= incomingMessageLength {
        if receiveBufferIndex > 0 {
          calls := calls + [Call(receiveBuffer[..receiveBufferIndex], receiveStreamId, Complete)];
        }
        incomingMessageLength := 0;
        incomingBytesReceived := 0;
        receiveBufferIndex := 0;
        isReceiving := false;
      }
    }

    /** The payload loop: byte by byte into the user's buffer. */
    method TakePayload(frame: Frame)
      requires Rx().Valid()
      modifies this`calls, this`receiveBufferIndex, this`incomingBytesReceived, receiveBuffer
      ensures Rx() == Consume(old(Rx()), PayloadOf(frame)).0
      ensures calls == old(calls) + Consume(old(Rx()), PayloadOf(frame)).1
    {
      hide Consume, Filled, Reported;
      ghost var r := Rx();
      ghost var p := PayloadOf(frame);
      FilledEnds(r, p);
      var more := true;
      var j := 0;
      while j < 5 && more
        invariant 0 <= j <= 5
        invariant more ==> j < Left(r) && r.index + j <= |r.buffer| && Rx() == Filled(r, p, j) && calls == old(calls)
        invariant !more ==> Rx() == Consume(r, p).0 && calls == old(calls) + Consume(r, p).1
      {
        FilledGathers(r, p, j);
        ConsumeStops(r, p, j);
        more := OfferByte(frame.data[j + 3]);
        j := j + 1;
      }
    }

    /** One payload byte: a full buffer is reported instead of taking it, a whole message after taking it. */
    method OfferByte(b: byte) returns (more: bool)
      requires Rx().Valid()
      modifies this`calls, this`receiveBufferIndex, this`incomingBytesReceived, receiveBuffer
      ensures var q := old(Rx());
              if q.index == |q.buffer| then
                !more && Rx() == Reported(q) && calls == old(calls) + [Call(q.Gathered(), q.stream, Incomplete)]
              else
                var q' := Taken(q, b);
                if q'.received >= q'.length
                then !more && Rx() == Reported(q') && calls == old(calls) + [Call(q'.Gathered(), q.stream, Complete)]
                else more && Rx() == q' && calls == old(calls)
    {
      if receiveBufferIndex >= receiveBuffer.Length {
        Report(Incomplete);
        return false;
      }
      receiveBuffer[receiveBufferIndex] := b;
      receiveBufferIndex := receiveBufferIndex + 1;
      incomingBytesReceived := incomingBytesReceived + 1;
      if incomingBytesReceived >= incomingMessageLength {
        Report(Complete);
        return false;
      }
      return true;
    }

    /** Hand the gathered bytes to the user and start the buffer again. */
    method Report(status: Status)
      requires Rx().Valid()
      modifies this`calls, this`receiveBufferIndex, receiveBuffer
      ensures Rx() == Reported(old(Rx()))
      ensures calls == old(calls) + [Call(old(Rx()).Gathered(), receiveStreamId, status)]
    {
      calls := calls + [Call(receiveBuffer[..receiveBufferIndex], receiveStreamId, status)];
      receiveBufferIndex := 0;
      ClearReceiveBuffer();
    }
  }

  /** The frames of `m` up to the latest, as arrivals at the receiver. */
  ghost predicate ArrivedSoFar(evs: seq<Event>, m: Message) {
    |evs| <= |Frames(m)| && forall i :: 0 <= i < |evs| ==> evs[i].Arrive? && evs[i].frame == Frames(m)[i]
  }

  lemma OneMore(r: Receiver, s: Setup, evs: seq<Event>, f: Frame, now: uint32)
    requires r.Valid()
    ensures var (q, calls) := Run(r, s, evs);
            var (q', more) := OnFrame(q, s, f, now);
            Run(r, s, evs + [Arrive(f, now)]) == (q', calls + more)
  {
    assert (evs + [Arrive(f, now)])[..|evs|] == evs;
  }

  /** `Transfer` in progress: the sender owes what has not arrived, the receiver is where the arrivals take it. */
  datatype Progress = Progress(m: Message, r: Receiver, s: Setup, sent: seq<Frame>, reported: seq<Call>,
        evs: seq<Event>)

  ghost predicate Sending(tx: LongMessage, p: Progress)
    reads tx
  {
    && tx.SendValid() && ArrivedSoFar(p.evs, p.m) && tx.Owed() == Frames(p.m)[|p.evs|..]
    && (tx.IsSending() ==> tx.Outgoing() == p.m)
    && tx.handed == p.sent + Frames(p.m)[..|p.evs|]
  }

  ghost predicate Receiving(rx: LongMessage, p: Progress)
    reads rx, rx.receiveBuffer
  {
    && p.r.Valid() && rx.ReceiveSetup() == p.s
    && rx.Rx() == Run(p.r, p.s, p.evs).0 && rx.calls == p.reported + Run(p.r, p.s, p.evs).1
  }

  method Emit(tx: LongMessage, now: uint32, ghost p: Progress) returns (f: Frame)
    requires tx.Valid() && tx.IsSending() && Sending(tx, p) && Since(now, tx.lastFragmentSent) >= tx.msgDelay
    modifies tx`handed, tx`sendBufferIndex, tx`sendSequenceNum, tx`lastFragmentSent
    modifies tx`calls, tx`isReceiving, tx`incomingMessageLength, tx`incomingBytesReceived
    ensures tx.Valid() && Sending(tx, p.(evs := p.evs + [Arrive(f, now)])) && |tx.Owed()| == |old(tx.Owed())| - 1
  {
    hide OnTick, Frames, HeaderFrame, FragmentFrame, Since;
    var ok := tx.Process(now, true);
    f := tx.handed[|tx.handed| - 1];
    assert f == Frames(p.m)[|p.evs|];
    assert Frames(p.m)[..|p.evs| + 1] == Frames(p.m)[..|p.evs|] + [f];
  }

  lemma SinceLater(start: uint32, delay: uint32)
    ensures Since((start + delay) % TWO32, start) == delay
  {}

  /** A call of `process` less than the timeout after a frame. */
  lemma PromptTick(r: Receiver, s: Setup, f: Frame, now: uint32, gap: uint32)
    requires r.Valid() && gap < s.timeout
    ensures var q := OnFrame(r, s, f, now).0;
            OnTick(q, s, (now + gap) % TWO32) == (q, [])
  {
    hide OnFrame, Since;
    LastStamped(r, s, f, now);
    SinceLater(now, gap);
  }

  /** A frame arrives, and `gap` milliseconds later the receiving node calls `process`. */
  method Absorb(rx: LongMessage, f: Frame, now: uint32, gap: uint32, ghost p: Progress)
    requires rx.Valid() && gap < rx.receiveTimeout && Receiving(rx, p)
    modifies rx`isReceiving, rx`receiveStreamId, rx`incomingMessageLength, rx`incomingMessageCrc
    modifies rx`incomingBytesReceived
    modifies rx`receiveBufferIndex, rx`expectedNextReceiveSequenceNum, rx`senderCanId, rx`calls
    modifies rx`lastFragmentReceived, rx.receiveBuffer
    modifies rx`handed, rx`sendBufferIndex, rx`sendSequenceNum, rx`lastFragmentSent
    ensures rx.Valid() && Receiving(rx, p.(evs := p.evs + [Arrive(f, now)]))
  {
    hide OnFrame, Run, OnTick, Frames, Since;
    OneMore(p.r, p.s, p.evs, f, now);
    PromptTick(rx.Rx(), p.s, f, now, gap);
    rx.ProcessReceivedMessageFragment(f, now);
    var _ := rx.Process((now + gap) % TWO32, true);
  }

  /** The header crosses at once. */
  method Begin(tx: LongMessage, rx: LongMessage, m: Message, now: uint32, gap: uint32) returns (ghost p: Progress)
    requires tx != rx && tx.SendValid() && !tx.IsSending() && m.canId == tx.canId && m.crc == 0
    requires rx.Valid() && gap < rx.receiveTimeout
    modifies tx`handed, tx`sendBuffer, tx`sendBufferLen, tx`sendStreamId, tx`sendPriority, tx`sendBufferIndex
    modifies tx`sendSequenceNum
    modifies rx`isReceiving, rx`receiveStreamId, rx`incomingMessageLength, rx`incomingMessageCrc
    modifies rx`incomingBytesReceived
    modifies rx`receiveBufferIndex, rx`expectedNextReceiveSequenceNum, rx`senderCanId, rx`calls
    modifies rx`lastFragmentReceived, rx.receiveBuffer
    modifies rx`handed, rx`sendBufferIndex, rx`sendSequenceNum, rx`lastFragmentSent
    ensures p == Progress(m, old(rx.Rx()), old(rx.ReceiveSetup()), old(tx.handed), old(rx.calls), p.evs)
    ensures Sending(tx, p) && rx.Valid() && Receiving(rx, p)
  {
    hide Run, Frames, HeaderFrame, FragmentFrame;
    p := Progress(m, rx.Rx(), rx.ReceiveSetup(), tx.handed, rx.calls, []);
    FrameData(m);
    RunNothing(p.r, p.s, []);
    var ok := tx.SendLongMessage(m.bytes, m.stream, m.priority, true);
    var f := tx.handed[|tx.handed| - 1];
    Absorb(rx, f, now, gap, p);
    p := p.(evs := [] + [Arrive(f, now)]);
  }

  /** One turn of the sender's loop, as soon as the delay has passed, and the arrival of what it sends. */
  method Relay(tx: LongMessage, rx: LongMessage, gap: uint32, ghost p: Progress) returns (ghost q: Progress)
    requires tx != rx && tx.Valid() && tx.IsSending() && Sending(tx, p) && Receiving(rx, p)
    requires rx.receiveBuffer != tx.receiveBuffer && rx.Valid() && gap < rx.receiveTimeout
    modifies tx`handed, tx`sendBufferIndex, tx`sendSequenceNum, tx`lastFragmentSent
    modifies tx`calls, tx`isReceiving, tx`incomingMessageLength, tx`incomingBytesReceived
    modifies rx`isReceiving, rx`receiveStreamId, rx`incomingMessageLength, rx`incomingMessageCrc
    modifies rx`incomingBytesReceived
    modifies rx`receiveBufferIndex, rx`expectedNextReceiveSequenceNum, rx`senderCanId, rx`calls
    modifies rx`lastFragmentReceived, rx.receiveBuffer
    modifies rx`handed, rx`sendBufferIndex, rx`sendSequenceNum, rx`lastFragmentSent
    ensures tx.Valid() && Sending(tx, q) && rx.Valid() && Receiving(rx, q) && q == p.(evs := q.evs)
    ensures |tx.Owed()| == |old(tx.Owed())| - 1
  {
    hide Run, Frames, Since;
    var later := (tx.lastFragmentSent + tx.msgDelay) % TWO32;
    SinceLater(tx.lastFragmentSent, tx.msgDelay);
    var f := Emit(tx, later, p);
    Absorb(rx, f, later, gap, p);
    q := p.(evs := p.evs + [Arrive(f, later)]);
  }

  lemma ArrivedInFull(p: Progress, calls: seq<Call>)
    requires p.r.Valid() && Listening(p.r, p.s, p.m) && Perfect(p.evs, p.m)
    requires calls == p.reported + Run(p.r, p.s, p.evs).1
    ensures calls == p.reported + [Call(p.m.bytes, p.m.stream, Complete)] <==> Receivable(p.m, |p.r.buffer|)
  {
    hide Run, Frames;
    DeliveredWithoutTicks(p.r, p.s, p.m, p.evs);
    assert calls[|p.reported|..] == Run(p.r, p.s, p.evs).1;
  }

  /** The two ends together: one node sends, its user loop calls `Process` until nothing is being sent,
      and every frame it hands over reaches the other node, whose loop calls `Process` within its timeout
      after each of them and so may send something of its own. The message arrives whole, as the only
      report, exactly when it has one to 1275 bytes and fits the receiver's buffer. */
  method Transfer(tx: LongMessage, rx: LongMessage, msg: seq<byte>, streamId: byte, priority: byte, now: uint32,
        gap: uint32)
    requires tx != rx && tx.Valid() && rx.Valid() && !tx.IsSending() && gap < rx.receiveTimeout
    requires Idle(rx.Rx()) && streamId in rx.subscribed && rx.receiveBuffer != tx.receiveBuffer
    modifies tx, rx, rx.receiveBuffer
    ensures !tx.IsSending() && tx.handed == old(tx.handed) + Frames(Message(streamId, tx.canId, priority, msg, 0))
    ensures (rx.calls == old(rx.calls) + [Call(msg, streamId, Complete)])
            <==> (1 <= |msg| <= rx.receiveBuffer.Length && |msg| <= 1275)
  {
    hide Run, Frames;
    var m := Message(streamId, tx.canId, priority, msg, 0);
    ghost var r, s, sent, reported := rx.Rx(), rx.ReceiveSetup(), tx.handed, rx.calls;
    assert Listening(r, s, m);
    ghost var p := Begin(tx, rx, m, now, gap);
    while tx.IsSending()
      invariant tx.Valid() && Sending(tx, p) && rx.Valid() && Receiving(rx, p)
      invariant p == Progress(m, r, s, sent, reported, p.evs)
      invariant rx.receiveBuffer == old(rx.receiveBuffer) && tx.receiveBuffer == old(tx.receiveBuffer)
      decreases |tx.Owed()|
    {
      p := Relay(tx, rx, gap, p);
    }
    assert Frames(m)[..|Frames(m)|] == Frames(m);
    ArrivedInFull(p, rx.calls);
  }
}
