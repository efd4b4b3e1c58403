/** The receiving side of the GridConnect server: the partial text it keeps, and the frames it queues. */
module GridConnectServers {
  import opened Can
  import opened GridConnectCodec
  import opened GridConnectMessages
  import opened GridConnectStream

  const NOT_FOUND: word := 0xFFFF

  /** A search in the data of a segment. */
  method MemFind(p: Text, c: char, from: nat) returns (r: word)
    requires from <= |p| <= NOT_FOUND
    ensures r == if Find(p, c, from) < |p| then Find(p, c, from) else NOT_FOUND
  {
    r := from;
    while r < |p| && p[r] != c
      invariant from <= r <= |p| && Find(p, c, r) == Find(p, c, from)
      decreases |p| - r
    {
      r := r + 1;
    }
    if r == |p| {
      r := NOT_FOUND;
    }
  }

  class GridConnectServer {
    const received: GcMessage
    var queued: seq<Frame>

    ghost predicate Valid()
      reads received
    {
      received.bytes.Length == GC_MAX_MSG && received.len <= GC_MAX_MSG
    }

    ghost function State(): (r: Reception)
      requires Valid()
      reads this, received, received.bytes
    {
      Reception(received.Content(), queued)
    }

    constructor ()
      ensures Valid() && fresh(received) && fresh(received.bytes) && State() == Reception([], [])
    {
      received := new GcMessage();
      queued := [];
    }

    method CopyPartial(p: Text, from: nat, n: nat)
      requires Valid() && from + n <= |p| && n <= GC_MAX_MSG
      modifies received, received.bytes
      ensures Valid() && received.Content() == p[from..from + n]
    {
      for i := 0 to n
        modifies received.bytes
        invariant received.bytes[..i] == p[from..from + i]
      {
        received.bytes[i] := p[from + i];
      }
      received.len := n;
    }

    /** A complete text in the buffer: queue the frame if it is one, and empty the buffer. */
    method QueueReceived()
      requires Valid() && received.len >= 2 && received.bytes[received.len - 1] == ';'
      modifies this, received, received.bytes
      ensures Valid() && State() == Reception([], old(queued) + FramesOf(old(received.Content())))
    {
      hide Decode;
      TerminatedStays(received.bytes[..], received.len);
      hide Wanders;
      var ok, f := DecodeGC(received);
      if ok {
        queued := queued + [f];
      }
      received.Clear();
    }

    method AcceptText(p: Text, from: nat, n: nat)
      requires Valid() && from + n <= |p| && IsToken(p[from..from + n])
      modifies this, received, received.bytes
      ensures Valid() && State() == Accept(old(State()), p[from..from + n])
    {
      hide FramesOf;
      if n <= GC_MAX_MSG {
        CopyPartial(p, from, n);
        assert received.Content()[n - 1] == ';';
        QueueReceived();
      }
    }

    /** The texts from `from` on, one after the other. */
    method ExtractAndQueueGC(from: nat, p: Text)
      requires Valid() && from <= |p| <= NOT_FOUND
      modifies this, received, received.bytes
      ensures Valid() && State() == Extract(old(State()), p[from..])
      decreases |p| - from
    {
      hide Accept, Find, IsToken, Extract;
      ExtractFrom(State(), p, from);
      var start := MemFind(p, ':', from);
      if start != NOT_FOUND {
        var end := MemFind(p, ';', start);
        if end != NOT_FOUND {
          var n := end + 1 - start;
          AcceptText(p, start, n);
          if |p| - (n + start) > 0 {
            ExtractAndQueueGC(n + start, p);
          } else {
            ExtractNothing(State());
            assert p[end + 1..] == [];
          }
        } else {
          var left := |p| - start;
          if left <= GC_MAX_MSG {
            CopyPartial(p, start, left);
          }
        }
      }
    }

    /** One segment from the connection, behind what was left of the one before. */
    method ServerRecv(data: Text)
      requires Valid() && received.len + |data| < 0x1_0000
      modifies this, received, received.bytes
      ensures Valid() && State() == Receive(old(State()), data)
    {
      hide Extract;
      if |data| > 0 {
        var p := data;
        if received.len != 0 {
          p := received.bytes[..received.len] + data;
        } else {
          assert State().pending + data == data;
        }
        assert p[0..] == p;
        ExtractAndQueueGC(0, p);
      }
    }
  }
}
