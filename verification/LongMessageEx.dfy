/** The extended long message handler: the contexts are objects that the code updates in place. */
module LongMessagesEx {
  import opened Can
  import opened LongMessageWire
  import opened Crc16
  import R = ExReceiver
  import S = ExSender

  class ReceiveContext {
    const buffer: array<byte>   // allocated once, with the context
    var inUse: bool
    var receiveStreamId: byte
    var senderCanId: byte
    var incomingMessageLength: nat
    var incomingMessageCrc: word
    var incomingBytesReceived: nat
    var receiveBufferIndex: nat
    var expectedNextReceiveSequenceNum: uint32
    var lastFragmentReceived: uint32

    /** Only the flag is initialised; every other field has whatever the memory held. */
    constructor (bufferLen: nat)
      ensures !inUse && buffer.Length == bufferLen && fresh(buffer)
    {
      buffer := new byte[bufferLen];
      inUse := false;
    }

    ghost function Abs(): R.Context
      reads this, buffer
    {
      R.Context(inUse, receiveStreamId, senderCanId, incomingMessageLength, incomingMessageCrc, incomingBytesReceived,
                receiveBufferIndex, expectedNextReceiveSequenceNum, lastFragmentReceived, buffer[..])
    }

    method Open(frame: Frame, now: uint32)
      modifies this, buffer
      ensures Abs() == R.Opened(old(Abs()), frame, now)
    {
      hide Word;
      inUse := true;
      receiveStreamId := frame.data[1];
      incomingMessageLength := Word(frame.data[3], frame.data[4]);
      incomingMessageCrc := Word(frame.data[5], frame.data[6]);
      incomingBytesReceived := 0;
      ClearBuffer();
      receiveBufferIndex := 0;
      expectedNextReceiveSequenceNum := 1;
      senderCanId := SenderOf(frame);
      lastFragmentReceived := now;
    }

    method ClearBuffer()
      modifies buffer
      ensures buffer[..] == Zeros(buffer.Length)
    {
      for i := 0 to buffer.Length
        invariant buffer[..i] == Zeros(i)
      {
        buffer[i] := 0;
      }
    }

    /** One byte into the buffer. The bounds check here is the property the code's comment doubts. */
    method TakeByte(b: byte, now: uint32)
      requires receiveBufferIndex < buffer.Length
      modifies this`receiveBufferIndex, this`incomingBytesReceived, this`lastFragmentReceived, buffer
      ensures var c := old(Abs());
              Abs() == c.(buffer := c.buffer[c.index := b], index := c.index + 1,
                          received := c.received + 1, last := now)
    {
      buffer[receiveBufferIndex] := b;
      receiveBufferIndex := receiveBufferIndex + 1;
      incomingBytesReceived := incomingBytesReceived + 1;
      lastFragmentReceived := now;
    }

    /** The whole message: check it, report it and free the context. */
    method Deliver(useCrc: bool) returns (call: Call)
      requires receiveBufferIndex <= buffer.Length && receiveBufferIndex < 0x1_0000
      modifies this`inUse
      ensures Abs() == R.Closed(old(Abs()))
      ensures var c := old(Abs());
              call == Call(c.Gathered(), c.stream, R.Verdict(useCrc, c.crc, c.Gathered()))
    {
      var computed := 0;
      if useCrc && incomingMessageCrc != 0 {
        computed := Compute(buffer[..receiveBufferIndex]);
      }
      var status := if incomingMessageCrc != computed then CrcError else Complete;
      call := Call(buffer[..receiveBufferIndex], receiveStreamId, status);
      inUse := false;
    }

    method TakeFragment(frame: Frame, s: R.ExSetup, now: uint32) returns (calls: seq<Call>)
      requires Abs().Valid() && inUse
      modifies this, buffer
      ensures var (c, t) := R.Consume(old(Abs()), s, PayloadOf(frame), now);
              Abs() == R.Advance(c) && calls == t
    {
      hide R.Consume, PayloadOf;
      calls := TakePayload(frame, s, now);
      expectedNextReceiveSequenceNum := (expectedNextReceiveSequenceNum + 1) % TWO32;
    }

    /** Up to five bytes of a fragment. */
    method TakePayload(frame: Frame, s: R.ExSetup, now: uint32) returns (calls: seq<Call>)
      requires Abs().Valid() && inUse
      modifies this`inUse, this`receiveBufferIndex, this`incomingBytesReceived, this`lastFragmentReceived, buffer
      ensures (Abs(), calls) == R.Consume(old(Abs()), s, PayloadOf(frame), now)
    {
      hide R.Consume, R.Filled, R.Verdict;
      ghost var c := Abs();
      ghost var p := PayloadOf(frame);
      FilledStart(c, p, now);
      calls := [];
      var more := true;
      var j := 0;
      while j < 5 && more
        invariant 0 <= j <= 5
        invariant more ==> j < R.Left(c) && c.index + j < |c.buffer| && Abs() == R.Filled(c, p, j, now) && calls == []
        invariant !more ==> (Abs(), calls) == R.Consume(c, s, p, now)
      {
        FilledNext(c, p, j, now);
        ConsumeStops(c, s, p, j, now);
        TakeByte(frame.data[j + 3], now);
        j := j + 1;
        if incomingBytesReceived >= incomingMessageLength {
          var call := Deliver(s.useCrc);
          calls := [call];
          more := false;
        } else if receiveBufferIndex >= buffer.Length {
          calls := [Call(buffer[..receiveBufferIndex], receiveStreamId, Truncated)];
          inUse := false;
          more := false;
        }
      }
      if more {
        ConsumeAll(c, s, p, now);
      }
    }
  }

  class SendContext {
    var inUse: bool
    var sendStreamId: byte
    var sendPriority: byte
    var buffer: seq<byte>       // the context's own copy of the message
    var sendBufferIndex: nat
    var sendSequenceNum: nat
    var lastFragmentSent: uint32

    constructor ()
      ensures !inUse
    {
      inUse := false;
    }

    ghost function Abs(): S.Slot
      reads this
    {
      S.Slot(inUse, sendStreamId, sendPriority, buffer, sendBufferIndex, sendSequenceNum, lastFragmentSent)
    }

    method Load(msg: seq<byte>, streamId: byte, priority: byte)
      modifies this
      ensures Abs() == S.Slot(true, streamId, priority, msg, 0, 1, old(lastFragmentSent))
    {
      inUse := true;
      buffer := msg;
      sendStreamId := streamId;
      sendPriority := priority;
      sendBufferIndex := 0;
      sendSequenceNum := 1;
    }

    /** The next fragment, up to five bytes; the context is released once the message is exhausted. */
    method NextFragment(canId: byte, now: uint32) returns (frame: Frame)
      requires Abs().Valid() && inUse
      modifies this
      ensures Abs() == S.Served(old(Abs()), now)
      ensures frame == FragmentFrame(S.Outgoing(old(Abs()), canId), old(sendSequenceNum) - 1)
    {
      hide FragmentFrame, LowByte, Fragment;
      ghost var m, k := S.Outgoing(Abs(), canId), sendBufferIndex / 5;
      ghost var head: seq<byte> := [0, sendStreamId, LowByte(sendSequenceNum)];
      var data: seq<byte> := [0, sendStreamId, LowByte(sendSequenceNum), 0, 0, 0, 0, 0];
      var i := 0;
      ghost var from := sendBufferIndex;
      while i < 5 && sendBufferIndex < |buffer|
        modifies this`sendBufferIndex
        invariant 0 <= i <= 5 && sendBufferIndex == from + i <= |buffer|
        invariant |data| == 8 && data == head + buffer[from..from + i] + Zeros(5 - i)
      {
        NextByte(head, buffer, from, i, data);
        data := data[i + 3 := buffer[sendBufferIndex]];
        sendBufferIndex := sendBufferIndex + 1;
        i := i + 1;
      }
      PartOfMessage(buffer, k, i);
      AssembledFragment(m, k, data);
      frame := CANFrame(HeaderId(sendPriority, canId), false, false, 8, data[0 := OPC_DTXC]);
      if sendBufferIndex >= |buffer| {
        inUse := false;
        buffer := [];
      } else {
        sendSequenceNum := sendSequenceNum + 1;
        lastFragmentSent := now;
      }
    }
  }

  lemma PartOfMessage(bytes: seq<byte>, k: nat, i: nat)
    requires 5 * k + i <= |bytes| && i <= 5 && (i < 5 ==> 5 * k + i == |bytes|)
    ensures Fragment(bytes, k) == bytes[5 * k..5 * k + i]
  {}

  ghost function ReceiveStates(cs: seq<ReceiveContext>): (rs: seq<R.Context>)
    reads cs, set c | c in cs :: c.buffer
    ensures |rs| == |cs|
  {
    if cs == [] then [] else ReceiveStates(cs[..|cs| - 1]) + [cs[|cs| - 1].Abs()]
  }

  lemma {:induction false} ReceiveStatesAt(cs: seq<ReceiveContext>)
    ensures forall i :: 0 <= i < |cs| ==> ReceiveStates(cs)[i] == cs[i].Abs()
  {
    if cs != [] {
      ReceiveStatesAt(cs[..|cs| - 1]);
    }
  }

  ghost function SendStates(cs: seq<SendContext>): (ss: seq<S.Slot>)
    reads cs
    ensures |ss| == |cs|
  {
    if cs == [] then [] else SendStates(cs[..|cs| - 1]) + [cs[|cs| - 1].Abs()]
  }

  lemma {:induction false} SendStatesAt(cs: seq<SendContext>)
    ensures forall i :: 0 <= i < |cs| ==> SendStates(cs)[i] == cs[i].Abs()
  {
    if cs != [] {
      SendStatesAt(cs[..|cs| - 1]);
    }
  }

  ghost predicate AllSeparate(cs: seq<ReceiveContext>) {
    forall i, j :: 0 <= i < j < |cs| ==> cs[i] != cs[j] && cs[i].buffer != cs[j].buffer
  }

  method AllocateReceiveContexts(n: nat, bufferLen: nat) returns (cs: seq<ReceiveContext>)
    ensures |cs| == n && fresh(cs) && AllSeparate(cs)
    ensures forall c | c in cs :: !c.inUse && c.buffer.Length == bufferLen && fresh(c.buffer)
  {
    cs := [];
    while |cs| < n
      invariant |cs| <= n && fresh(cs) && AllSeparate(cs)
      invariant forall c | c in cs :: !c.inUse && c.buffer.Length == bufferLen && fresh(c.buffer)
    {
      var c := new ReceiveContext(bufferLen);
      cs := cs + [c];
    }
  }

  method AllocateSendContexts(n: nat) returns (cs: seq<SendContext>)
    ensures |cs| == n && fresh(cs) && forall i, j :: 0 <= i < j < n ==> cs[i] != cs[j]
    ensures forall c | c in cs :: !c.inUse
  {
    cs := [];
    while |cs| < n
      invariant |cs| <= n && fresh(cs) && forall i, j :: 0 <= i < j < |cs| ==> cs[i] != cs[j]
      invariant forall c | c in cs :: !c.inUse
    {
      var c := new SendContext();
      cs := cs + [c];
    }
  }

  class LongMessageEx {
    const canId: byte
    var handed: seq<Frame>      // every frame handed to the CAN driver, in order
    var calls: seq<Call>        // every call of the user's message handler, in order
    var subscribed: seq<byte>
    var receiveTimeout: uint32
    var msgDelay: byte
    var useCrc: bool
    const receiveBufferLen: nat
    var receiveContext: seq<ReceiveContext>
    var sendContext: seq<SendContext>
    var context: nat            // whose turn it is to send; one counter for the program

    constructor (canId: byte, numReceiveContexts: nat, receiveBufferLen: nat, numSendContexts: nat)
      ensures Separate() && |receiveContext| == numReceiveContexts && |sendContext| == numSendContexts
      ensures receiveBufferLen > 0 ==> ReceiveValid()
      ensures numSendContexts > 0 ==> SendValid()
      ensures fresh(receiveContext) && fresh(sendContext)
      ensures forall c | c in receiveContext :: !c.inUse
      ensures forall c | c in sendContext :: !c.inUse
    {
      this.canId, this.receiveBufferLen := canId, receiveBufferLen;
      handed, calls, subscribed := [], [], [];
      receiveTimeout, msgDelay, useCrc, context := 5000, 20, false, 0;
      var rs := AllocateReceiveContexts(numReceiveContexts, receiveBufferLen);
      var ss := AllocateSendContexts(numSendContexts);
      receiveContext, sendContext := rs, ss;
      new;
      ReceiveStatesAt(receiveContext);
      SendStatesAt(sendContext);
    }

    // ---- Abstraction ----

    /** Contexts are different objects with different buffers. */
    ghost predicate Separate()
      reads this`receiveContext
    {
      AllSeparate(receiveContext)
    }

    ghost function Buffers(): set<object>
      reads this`receiveContext
    {
      set c | c in receiveContext :: c.buffer
    }

    ghost function Contexts(): (cs: seq<R.Context>)
      reads this`receiveContext, receiveContext, Buffers()
      ensures |cs| == |receiveContext|
    {
      ReceiveStates(receiveContext)
    }

    ghost function ReceiveSetup(): R.ExSetup
      reads this`subscribed, this`receiveTimeout, this`useCrc
    {
      R.ExSetup(subscribed, receiveTimeout, useCrc)
    }

    ghost predicate ReceiveValid()
      reads this`receiveContext, receiveContext, Buffers()
    {
      Separate() && R.AllValid(Contexts(), receiveBufferLen)
    }

    ghost function Sending(): (x: S.Sender)
      reads this`sendContext, this`context, sendContext
      ensures |x.slots| == |sendContext| && x.cursor == context
    {
      S.Sender(SendStates(sendContext), context)
    }

    ghost predicate SendValid()
      reads this`sendContext, this`context, sendContext
    {
      && (forall i, j :: 0 <= i < j < |sendContext| ==> sendContext[i] != sendContext[j])
      && Sending().Valid()
    }

    ghost function Config(): S.ExConfig
      reads this`msgDelay, this`useCrc
    {
      S.ExConfig(canId, msgDelay, useCrc)
    }

    // ---- Receiving ----

    method FindFreeReceiveContext() returns (i: nat)
      ensures i == R.FindFree(Contexts(), 0)
    {
      ReceiveStatesAt(receiveContext);
      i := 0;
      while i < |receiveContext|
        invariant i <= |receiveContext|
        invariant forall k :: 0 <= k < i ==> receiveContext[k].inUse
      {
        if !receiveContext[i].inUse {
          break;
        }
        i := i + 1;
      }
    }

    method FindReceiveContext(stream: byte, sender: byte) returns (i: nat)
      ensures i == R.FindMatch(Contexts(), stream, sender, 0)
    {
      ReceiveStatesAt(receiveContext);
      i := 0;
      while i < |receiveContext|
        invariant i <= |receiveContext|
        invariant forall k :: 0 <= k < i ==> !R.Matches(receiveContext[k].Abs(), stream, sender)
      {
        var c := receiveContext[i];
        if c.inUse && c.receiveStreamId == stream && c.senderCanId == sender {
          break;
        }
        i := i + 1;
      }
    }

    method IsSubscribed(stream: byte) returns (yes: bool)
      ensures yes == (stream in subscribed)
    {
      for i := 0 to |subscribed|
        invariant stream !in subscribed[..i]
      {
        if subscribed[i] == stream {
          return true;
        }
      }
      return false;
    }

    // Each of these changes one context, and so one entry of `Contexts()`.

    method OpenContext(i: nat, frame: Frame, now: uint32)
      requires Separate() && i < |receiveContext|
      modifies receiveContext[i], receiveContext[i].buffer
      ensures Contexts() == old(Contexts())[i := R.Opened(old(Contexts())[i], frame, now)]
    {
      ReceiveStatesAt(receiveContext);
      hide R.Opened, R.AllValid;
      receiveContext[i].Open(frame, now);
      ReceiveStatesAt(receiveContext);
    }

    method AbandonContext(i: nat) returns (call: Call)
      requires Separate() && i < |receiveContext| && Contexts()[i].inUse && Contexts()[i].Valid()
      modifies receiveContext[i]
      ensures Contexts() == old(Contexts())[i := R.Closed(old(Contexts())[i])]
      ensures call == Call(old(Contexts())[i].Gathered(), old(Contexts())[i].stream, SequenceError)
    {
      ReceiveStatesAt(receiveContext);
      var c := receiveContext[i];
      call := Call(c.buffer[..c.receiveBufferIndex], c.receiveStreamId, SequenceError);
      c.inUse := false;
      ReceiveStatesAt(receiveContext);
    }

    method ContinueContext(i: nat, frame: Frame, now: uint32) returns (more: seq<Call>)
      requires Separate() && i < |receiveContext| && Contexts()[i].inUse && Contexts()[i].Valid()
      modifies receiveContext[i], receiveContext[i].buffer
      ensures var (c, t) := R.Consume(old(Contexts())[i], ReceiveSetup(), PayloadOf(frame), now);
              Contexts() == old(Contexts())[i := R.Advance(c)] && more == t
    {
      ReceiveStatesAt(receiveContext);
      hide R.Consume, PayloadOf, R.Context.Valid, R.Advance;
      more := receiveContext[i].TakeFragment(frame, R.ExSetup(subscribed, receiveTimeout, useCrc), now);
      ReceiveStatesAt(receiveContext);
    }

    method HandleHeader(frame: Frame, now: uint32)
      requires ReceiveValid() && SequenceOf(frame) == 0
      modifies receiveContext, Buffers()
      ensures Steps(old(Contexts()), ReceiveSetup(), frame, now, receiveBufferLen, Contexts(), [])
    {
      hide R.Opened, R.FindFree, R.AllValid, Steps;
      var yes := IsSubscribed(frame.data[1]);
      if frame.data[7] == 0 && yes {
        OpenFirstFree(frame, now);
      } else {
        HeaderSteps(Contexts(), ReceiveSetup(), frame, now, receiveBufferLen);
      }
    }

    method OpenFirstFree(frame: Frame, now: uint32)
      requires ReceiveValid() && SequenceOf(frame) == 0 && FlagsOf(frame) == 0 && StreamOf(frame) in subscribed
      modifies receiveContext, Buffers()
      ensures Steps(old(Contexts()), ReceiveSetup(), frame, now, receiveBufferLen, Contexts(), [])
    {
      hide R.Opened, R.FindFree, R.AllValid, Steps;
      HeaderSteps(Contexts(), ReceiveSetup(), frame, now, receiveBufferLen);
      var i := FindFreeReceiveContext();
      if i < |receiveContext| {
        OpenContext(i, frame, now);
      }
    }

    method HandleFragment(frame: Frame, now: uint32) returns (more: seq<Call>)
      requires ReceiveValid() && SequenceOf(frame) != 0
      modifies receiveContext, Buffers()
      ensures Steps(old(Contexts()), ReceiveSetup(), frame, now, receiveBufferLen, Contexts(), more)
    {
      ReceiveStatesAt(receiveContext);
      hide R.Consume, R.FindMatch, R.Closed, PayloadOf, R.AllValid, Steps;
      FragmentSteps(Contexts(), ReceiveSetup(), frame, now, receiveBufferLen);
      var i := FindReceiveContext(frame.data[1], SenderOf(frame));
      more := [];
      if i < |receiveContext| {
        if frame.data[2] != receiveContext[i].expectedNextReceiveSequenceNum {
          var call := AbandonContext(i);
          more := [call];
        } else {
          more := ContinueContext(i, frame, now);
        }
      }
    }

    method ProcessReceivedMessageFragment(frame: Frame, now: uint32)
      requires ReceiveValid()
      modifies this`calls, receiveContext, Buffers()
      ensures Receives(old(Contexts()), ReceiveSetup(), frame, now, receiveBufferLen, Contexts(), old(calls), calls)
    {
      hide R.AllValid, Steps;
      var more := [];
      if frame.data[2] == 0 {
        HandleHeader(frame, now);
      } else {
        more := HandleFragment(frame, now);
      }
      calls := calls + more;
    }

    method ExpireContext(i: nat, now: uint32)
      requires Separate() && i < |receiveContext| && Contexts()[i].Valid()
      modifies this`calls, receiveContext[i]
      ensures var c := old(Contexts())[i];
              if R.Expired(c, ReceiveSetup(), now)
              then Contexts() == old(Contexts())[i := R.Closed(c)]
                   && calls == old(calls) + [Call(c.Gathered(), c.stream, TimeoutError)]
              else Contexts() == old(Contexts()) && calls == old(calls)
    {
      ReceiveStatesAt(receiveContext);
      var c := receiveContext[i];
      if c.inUse && Since(now, c.lastFragmentReceived) >= receiveTimeout {
        calls := calls + [Call(c.buffer[..c.receiveBufferIndex], c.receiveStreamId, TimeoutError)];
        c.inUse := false;
      }
      ReceiveStatesAt(receiveContext);
    }

    /** Every context in use whose last fragment is too long ago is reported and freed. */
    method CheckReceiveTimeouts(now: uint32)
      requires ReceiveValid()
      modifies this`calls, receiveContext
      ensures Ticks(old(Contexts()), ReceiveSetup(), now, receiveBufferLen, |receiveContext|, Contexts(),
                    old(calls), calls)
    {
      hide R.AllValid, Ticks, R.Expired, R.Closed, R.Context.Valid;
      ghost var cs, s := Contexts(), ReceiveSetup();
      NoTicks(cs, s, now, receiveBufferLen, calls);
      var i := 0;
      while i < |receiveContext|
        invariant i <= |receiveContext| == |cs| && R.AllValid(cs, receiveBufferLen)
        invariant Ticks(cs, s, now, receiveBufferLen, i, Contexts(), old(calls), calls)
      {
        OneTick(cs, s, now, receiveBufferLen, i, Contexts(), old(calls), calls);
        ExpireContext(i, now);
        i := i + 1;
      }
    }

    // ---- Sending ----

    method FindSendStream(stream: byte) returns (i: nat)
      ensures i == S.FindStream(Sending().slots, stream, 0)
    {
      SendStatesAt(sendContext);
      i := 0;
      while i < |sendContext|
        invariant i <= |sendContext| && forall k :: 0 <= k < i ==> !S.Sends(sendContext[k].Abs(), stream)
      {
        if sendContext[i].inUse && sendContext[i].sendStreamId == stream {
          break;
        }
        i := i + 1;
      }
    }

    method FindFreeSendContext() returns (i: nat)
      ensures i == S.FindFree(Sending().slots, 0)
    {
      SendStatesAt(sendContext);
      i := 0;
      while i < |sendContext|
        invariant i <= |sendContext| && forall k :: 0 <= k < i ==> sendContext[k].inUse
      {
        if !sendContext[i].inUse {
          break;
        }
        i := i + 1;
      }
    }

    /** The code copies the message as a C string and has room for it only while a context is free. */
    method SendLongMessage(msg: seq<byte>, streamId: byte, priority: byte, accepts: bool) returns (ok: bool)
      requires SendValid() && S.CanSend(Sending(), streamId, msg)
      modifies this`handed, sendContext
      ensures var m := S.MessageOf(Config(), msg, streamId, priority);
              SendDone(old(Sending()), Config(), m, Sending(), handed, old(handed))
      ensures ok == (accepts && S.Accepts(old(Sending()), streamId))
    {
      hide Crc, HeaderFrame, S.Accepts, S.HasFree, S.FindStream, S.FindFree, SendDone, S.Sender.Valid;
      SendCases(Sending(), Config(), S.MessageOf(Config(), msg, streamId, priority), handed);
      var found := FindSendStream(streamId);
      if found < |sendContext| {
        ok := false;
      } else {
        var i := FindFreeSendContext();
        LoadContext(i, msg, streamId, priority);
        SendHeader(msg, streamId, priority);
        ok := accepts;
      }
    }

    method SendHeader(msg: seq<byte>, streamId: byte, priority: byte)
      modifies this`handed
      ensures handed == old(handed) + [HeaderFrame(S.MessageOf(Config(), msg, streamId, priority))]
    {
      hide LowByte, HighByte, HeaderFrame, Crc;
      var crc := 0;
      if useCrc {
        crc := Compute(msg[..|msg| % 0x1_0000]);
      }
      var n := |msg|;
      var data: seq<byte> := [0, streamId, LowByte(0), HighByte(n), LowByte(n), HighByte(crc), LowByte(crc), 0];
      AssembledHeader(Message(streamId, canId, priority, msg, crc), data);
      handed := handed + [CANFrame(HeaderId(priority, canId), false, false, 8, data[0 := OPC_DTXC])];
    }

    method LoadContext(i: nat, msg: seq<byte>, streamId: byte, priority: byte)
      requires SendValid() && i < |sendContext|
      modifies sendContext[i]
      ensures var x := old(Sending());
              Sending() == x.(slots := x.slots[i := S.Slot(true, streamId, priority, msg, 0, 1, x.slots[i].last)])
    {
      SendStatesAt(sendContext);
      sendContext[i].Load(msg, streamId, priority);
      SendStatesAt(sendContext);
    }

    /** The receive timeouts, then the next fragment of the context whose turn it is. */
    method Process(now: uint32, accepts: bool) returns (ok: bool)
      requires ReceiveValid() && SendValid()
      modifies this`calls, this`handed, this`context, receiveContext, sendContext
      ensures Ticks(old(Contexts()), ReceiveSetup(), now, receiveBufferLen, |receiveContext|, Contexts(),
                    old(calls), calls)
      ensures Turn(old(Sending()), Config(), now, Sending(), old(handed), handed)
      ensures ok == (accepts || handed == old(handed))
    {
      hide Ticks, Turn, R.AllValid, S.Sender.Valid;
      CheckReceiveTimeouts(now);
      ok := SendNext(now, accepts);
    }

    method SendNext(now: uint32, accepts: bool) returns (ok: bool)
      requires SendValid()
      modifies this`handed, this`context, sendContext
      ensures Turn(old(Sending()), Config(), now, Sending(), old(handed), handed)
      ensures ok == (accepts || handed == old(handed))
    {
      SendStatesAt(sendContext);
      assert context < |sendContext|;
      hide S.Served, FragmentFrame, Since, S.Sender.Valid, S.Outgoing;
      ok := true;
      var c := sendContext[context];
      if c.inUse && Since(now, c.lastFragmentSent) >= msgDelay {
        ServeContext(now);
        ok := accepts;
      }
      context := context + 1;
      context := if context >= |sendContext| then 0 else context;
    }

    method ServeContext(now: uint32)
      requires SendValid() && Sending().slots[context].inUse
      modifies this`handed, sendContext[context]
      ensures var x := old(Sending());
              var t := x.slots[x.cursor];
              && t.Valid() && Sending() == x.(slots := x.slots[x.cursor := S.Served(t, now)])
              && handed == old(handed) + [FragmentFrame(S.Outgoing(t, canId), t.sequence - 1)]
    {
      SendStatesAt(sendContext);
      hide S.Served, FragmentFrame, S.Outgoing;
      var frame := sendContext[context].NextFragment(canId, now);
      handed := handed + [frame];
      SendStatesAt(sendContext);
    }

    /** How many streams are being sent. */
    method IsSending() returns (count: nat)
      ensures count == |set i | 0 <= i < |sendContext| && sendContext[i].inUse|
    {
      count := 0;
      ghost var active: set<int> := {};
      for i := 0 to |sendContext|
        invariant active == set k | 0 <= k < i && sendContext[k].inUse
        invariant count == |active|
      {
        if sendContext[i].inUse {
          count := count + 1;
          active := active + {i};
        }
      }
    }
  }

  /** `x` became `y`, and what a send puts on the bus was put there. */
  ghost predicate SendDone(x: S.Sender, g: S.ExConfig, m: Message, y: S.Sender, bus: seq<Frame>, before: seq<Frame>) {
    && x.Valid() && S.CanSend(x, m.stream, m.bytes)
    && S.OnSend(x, g, m).0 == y && bus == before + S.OnSend(x, g, m).1
  }

  lemma SendCases(x: S.Sender, g: S.ExConfig, m: Message, bus: seq<Frame>)
    requires x.Valid() && S.CanSend(x, m.stream, m.bytes)
    ensures S.Accepts(x, m.stream) <==> S.FindStream(x.slots, m.stream, 0) == |x.slots|
    ensures !S.Accepts(x, m.stream) ==> SendDone(x, g, m, x, bus, bus)
    ensures S.Accepts(x, m.stream) ==>
              var i := S.FindFree(x.slots, 0);
              && i < |x.slots|
              && var slot := S.Slot(true, m.stream, m.priority, m.bytes, 0, 1, x.slots[i].last);
                 SendDone(x, g, m, x.(slots := x.slots[i := slot]), bus + [HeaderFrame(m)], bus)
  {
    hide HeaderFrame;
  }

  /** The timeouts of the first `n` contexts take `cs` to `ds`. */
  ghost predicate Ticks(cs: seq<R.Context>, s: R.ExSetup, now: uint32, size: nat, n: nat, ds: seq<R.Context>,
        before: seq<Call>, after: seq<Call>) {
    && R.AllValid(cs, size) && n <= |cs|
    && R.OnTick(cs, s, now, size, n).0 == ds && after == before + R.OnTick(cs, s, now, size, n).1
  }

  /** One turn of the send contexts takes `x` to `y`. */
  ghost predicate Turn(x: S.Sender, g: S.ExConfig, now: uint32, y: S.Sender, before: seq<Frame>, after: seq<Frame>) {
    && x.Valid() && S.OnProcess(x, g, now).0 == y && after == before + S.OnProcess(x, g, now).1
  }

  lemma NoTicks(cs: seq<R.Context>, s: R.ExSetup, now: uint32, size: nat, calls: seq<Call>)
    requires R.AllValid(cs, size)
    ensures Ticks(cs, s, now, size, 0, cs, calls, calls)
  {}

  lemma OneTick(cs: seq<R.Context>, s: R.ExSetup, now: uint32, size: nat, i: nat, ds: seq<R.Context>,
        before: seq<Call>, after: seq<Call>)
    requires Ticks(cs, s, now, size, i, ds, before, after) && i < |cs|
    ensures |ds| == |cs| && ds[i].Valid()
    ensures if R.Expired(ds[i], s, now)
            then Ticks(cs, s, now, size, i + 1, ds[i := R.Closed(ds[i])], before,
                       after + [Call(ds[i].Gathered(), ds[i].stream, TimeoutError)])
            else Ticks(cs, s, now, size, i + 1, ds, before, after)
  {
    StillThere(cs, s, now, size, i);
    hide R.Expired, R.AllValid;
  }

  /** The timeouts of the contexts before `i` leave the others alone. */
  lemma StillThere(cs: seq<R.Context>, s: R.ExSetup, now: uint32, size: nat, i: nat)
    requires R.AllValid(cs, size) && i < |cs|
    ensures R.OnTick(cs, s, now, size, i).0[i] == cs[i] && cs[i].Valid()
  {
    assert R.OnTick(cs, s, now, size, i).0[i..][0] == cs[i..][0];
  }

  /** One frame takes the contexts from `cs` to `ds` with these reports. */
  ghost predicate Steps(cs: seq<R.Context>, s: R.ExSetup, f: Frame, now: uint32, size: nat, ds: seq<R.Context>,
        calls: seq<Call>) {
    R.AllValid(cs, size) && R.OnFrame(cs, s, f, now, size) == (ds, calls)
  }

  ghost predicate Receives(cs: seq<R.Context>, s: R.ExSetup, f: Frame, now: uint32, size: nat, ds: seq<R.Context>,
        before: seq<Call>, after: seq<Call>) {
    before <= after && Steps(cs, s, f, now, size, ds, after[|before|..])
  }

  lemma HeaderSteps(cs: seq<R.Context>, s: R.ExSetup, f: Frame, now: uint32, size: nat)
    requires R.AllValid(cs, size) && SequenceOf(f) == 0
    ensures var i := R.FindFree(cs, 0);
            if FlagsOf(f) == 0 && StreamOf(f) in s.subscribed && i < |cs|
            then Steps(cs, s, f, now, size, cs[i := R.Opened(cs[i], f, now)], [])
            else Steps(cs, s, f, now, size, cs, [])
  {}

  lemma FragmentSteps(cs: seq<R.Context>, s: R.ExSetup, f: Frame, now: uint32, size: nat)
    requires R.AllValid(cs, size) && SequenceOf(f) != 0
    ensures var i := R.FindMatch(cs, StreamOf(f), SenderOf(f), 0);
            if i == |cs| then Steps(cs, s, f, now, size, cs, [])
            else if SequenceOf(f) != cs[i].expected then
              Steps(cs, s, f, now, size, cs[i := R.Closed(cs[i])],
                    [Call(cs[i].Gathered(), cs[i].stream, SequenceError)])
            else
              var (c, t) := R.Consume(cs[i], s, PayloadOf(f), now);
              Steps(cs, s, f, now, size, cs[i := R.Advance(c)], t)
    ensures forall i :: 0 <= i < |cs| ==> cs[i].Valid()
  {
    hide R.Consume;
  }

  // ---- The payload loop adds up to `Consume` ----

  lemma FilledStart(c: R.Context, p: seq<byte>, now: uint32)
    requires c.Valid() && c.inUse
    ensures R.Filled(c, p, 0, now) == c && 0 < R.Left(c)
  {}

  lemma FilledNext(c: R.Context, p: seq<byte>, j: nat, now: uint32)
    requires c.Valid() && c.inUse && j < |p| && c.index + j < |c.buffer|
    ensures var d := R.Filled(c, p, j, now);
            R.Filled(c, p, j + 1, now)
            == d.(buffer := d.buffer[d.index := p[j]], index := d.index + 1, received := d.received + 1, last := now)
    ensures R.Filled(c, p, j, now).index == c.index + j
    ensures R.Filled(c, p, j + 1, now).Gathered() == c.Gathered() + p[..j + 1]
  {}

  lemma ConsumeStops(c: R.Context, s: R.ExSetup, p: seq<byte>, j: nat, now: uint32)
    requires c.Valid() && c.inUse && j < |p| && j < R.Left(c) && c.index + j < |c.buffer|
    ensures var d := R.Filled(c, p, j + 1, now);
            && d.inUse && d.index < 0x1_0000 && d.stream == c.stream && d.crc == c.crc
            && (d.received >= d.length <==> j + 1 == R.Left(c))
            && (j + 1 == R.Left(c) ==>
                  var status := R.Verdict(s.useCrc, d.crc, d.Gathered());
                  R.Consume(c, s, p, now) == (R.Closed(d), [Call(d.Gathered(), d.stream, status)]))
            && (j + 1 < R.Left(c) && d.index >= |c.buffer| ==>
                  R.Consume(c, s, p, now) == (R.Closed(d), [Call(d.Gathered(), d.stream, Truncated)]))
  {
    hide R.Verdict;
    FilledNext(c, p, j, now);
  }

  lemma ConsumeAll(c: R.Context, s: R.ExSetup, p: seq<byte>, now: uint32)
    requires c.Valid() && c.inUse && |p| < R.Left(c) && c.index + |p| < |c.buffer|
    ensures R.Consume(c, s, p, now) == (R.Filled(c, p, |p|, now), [])
  {}
}
