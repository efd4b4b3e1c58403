/** The receiving half of the extended handler, on values: several messages at once, one context each. */
module ExReceiver {
  import opened Can
  import opened LongMessageWire
  import opened Crc16

  datatype Context = Context(
    inUse: bool, stream: byte, canId: byte, length: nat, crc: word,
    received: nat, index: nat, expected: uint32, last: uint32, buffer: seq<byte>)
  {
    /** What every run keeps for a context in use: the write index is the number of bytes received, there
        is room for the next byte, and the message is not yet whole. */
    predicate Valid() {
      inUse ==> index == received < |buffer| && length < 0x1_0000 && (received < length || received == length == 0)
    }

    function Gathered(): seq<byte>
      requires index <= |buffer|
    {
      buffer[..index]
    }
  }

  datatype ExSetup = ExSetup(subscribed: seq<byte>, timeout: uint32, useCrc: bool)

  type Step = (seq<Context>, seq<Call>)

  predicate AllValid(cs: seq<Context>, size: nat) {
    size > 0 && forall i :: 0 <= i < |cs| ==> cs[i].Valid() && |cs[i].buffer| == size
  }

  /** The first context from `i` on that is free. */
  function FindFree(cs: seq<Context>, i: nat): (r: nat)
    requires i <= |cs|
    ensures i <= r <= |cs| && (forall k :: i <= k < r ==> cs[k].inUse) && (r < |cs| ==> !cs[r].inUse)
    decreases |cs| - i
  {
    if i == |cs| || !cs[i].inUse then i else FindFree(cs, i + 1)
  }

  predicate Matches(c: Context, stream: byte, canId: byte) {
    c.inUse && c.stream == stream && c.canId == canId
  }

  /** The first context from `i` on that gathers a message of this stream and sender. */
  function FindMatch(cs: seq<Context>, stream: byte, canId: byte, i: nat): (r: nat)
    requires i <= |cs|
    ensures i <= r <= |cs|
    ensures forall k :: i <= k < r ==> !Matches(cs[k], stream, canId)
    ensures r < |cs| ==> Matches(cs[r], stream, canId)
    decreases |cs| - i
  {
    if i == |cs| || Matches(cs[i], stream, canId) then i else FindMatch(cs, stream, canId, i + 1)
  }

  function Opened(c: Context, f: Frame, now: uint32): (d: Context)
    ensures |d.buffer| == |c.buffer| && (|c.buffer| > 0 ==> d.Valid())
  {
    Context(true, StreamOf(f), SenderOf(f), LengthOf(f), CrcOf(f), 0, 0, 1, now, Zeros(|c.buffer|))
  }

  function Closed(c: Context): Context { c.(inUse := false) }

  /** How many more bytes the message wants; the code tests only after taking one. */
  function Left(c: Context): nat {
    if c.received < c.length then c.length - c.received else 1
  }

  /** The first `k` bytes of `p` behind what was gathered. */
  function Filled(c: Context, p: seq<byte>, k: nat, now: uint32): (d: Context)
    requires k <= |p| && c.index + k <= |c.buffer|
    ensures |d.buffer| == |c.buffer|
  {
    c.(buffer := c.buffer[..c.index] + p[..k] + c.buffer[c.index + k..], index := c.index + k,
       received := c.received + k, last := if k == 0 then c.last else now)
  }

  /** A whole message is checked only when both the header and the receiver ask for it; a receiver that
      does not check still compares the header's word with zero. */
  function Verdict(useCrc: bool, crc: word, bytes: seq<byte>): Status {
    var computed := if useCrc && crc != 0 then Crc(bytes) else 0;
    if crc != computed then CrcError else Complete
  }

  /** Bytes are taken until the message is whole, the buffer is full, or the payload ends. */
  function Consume(c: Context, s: ExSetup, p: seq<byte>, now: uint32): (t: (Context, seq<Call>))
    requires c.Valid() && c.inUse
    ensures t.0.Valid() && |t.0.buffer| == |c.buffer|
  {
    var room := |c.buffer| - c.index;
    if Left(c) <= |p| && Left(c) <= room then
      var bytes := c.Gathered() + p[..Left(c)];
      (Closed(Filled(c, p, Left(c), now)), [Call(bytes, c.stream, Verdict(s.useCrc, c.crc, bytes))])
    else if room <= |p| then
      (Closed(Filled(c, p, room, now)), [Call(c.Gathered() + p[..room], c.stream, Truncated)])
    else (Filled(c, p, |p|, now), [])
  }

  function Advance(c: Context): Context { c.(expected := (c.expected + 1) % TWO32) }

  /** A fragment for context `i`. */
  function OnFragment(cs: seq<Context>, s: ExSetup, f: Frame, now: uint32, i: nat, size: nat): (t: Step)
    requires AllValid(cs, size) && i < |cs| && cs[i].inUse
    ensures AllValid(t.0, size) && |t.0| == |cs|
  {
    if SequenceOf(f) != cs[i].expected then
      (cs[i := Closed(cs[i])], [Call(cs[i].Gathered(), cs[i].stream, SequenceError)])
    else
      var (c, calls) := Consume(cs[i], s, PayloadOf(f), now);
      (cs[i := Advance(c)], calls)
  }

  /** One received frame. */
  function OnFrame(cs: seq<Context>, s: ExSetup, f: Frame, now: uint32, size: nat): (t: Step)
    requires AllValid(cs, size)
    ensures AllValid(t.0, size) && |t.0| == |cs|
  {
    if SequenceOf(f) == 0 then
      var i := FindFree(cs, 0);
      if FlagsOf(f) == 0 && StreamOf(f) in s.subscribed && i < |cs| then (cs[i := Opened(cs[i], f, now)], [])
      else (cs, [])
    else
      var i := FindMatch(cs, StreamOf(f), SenderOf(f), 0);
      if i == |cs| then (cs, []) else OnFragment(cs, s, f, now, i, size)
  }

  predicate Expired(c: Context, s: ExSetup, now: uint32) {
    c.inUse && Since(now, c.last) >= s.timeout
  }

  /** The receive timeouts of the contexts before `n`. */
  function OnTick(cs: seq<Context>, s: ExSetup, now: uint32, size: nat, n: nat): (t: Step)
    requires AllValid(cs, size) && n <= |cs|
    ensures AllValid(t.0, size) && |t.0| == |cs| && t.0[n..] == cs[n..]
  {
    if n == 0 then (cs, []) else
    var (ds, calls) := OnTick(cs, s, now, size, n - 1);
    if Expired(cs[n - 1], s, now)
    then (ds[n - 1 := Closed(ds[n - 1])], calls + [Call(cs[n - 1].Gathered(), cs[n - 1].stream, TimeoutError)])
    else (ds, calls)
  }

  /** The timeouts leave everything as it is exactly when no context in use is overdue. */
  lemma {:induction false} QuietTick(cs: seq<Context>, s: ExSetup, now: uint32, size: nat, n: nat)
    requires AllValid(cs, size) && n <= |cs|
    ensures OnTick(cs, s, now, size, n) == (cs, []) <==> forall i :: 0 <= i < n ==> !Expired(cs[i], s, now)
  {
    if n > 0 {
      QuietTick(cs, s, now, size, n - 1);
      if OnTick(cs, s, now, size, n) == (cs, []) {
        assert OnTick(cs, s, now, size, n).1 == [];
      }
    }
  }

  datatype Event = Arrive(frame: Frame, at: uint32) | Tick(at: uint32)

  /** The arrivals alone. */
  function Unticked(evs: seq<Event>): seq<Event> {
    if evs == [] then [] else
    Unticked(evs[..|evs| - 1]) + if evs[|evs| - 1].Tick? then [] else [evs[|evs| - 1]]
  }

  function OnEvent(cs: seq<Context>, s: ExSetup, e: Event, size: nat): (t: Step)
    requires AllValid(cs, size)
    ensures AllValid(t.0, size) && |t.0| == |cs|
  {
    match e
    case Arrive(f, now) => OnFrame(cs, s, f, now, size)
    case Tick(now) => OnTick(cs, s, now, size, |cs|)
  }

  /** A whole run over any events at all. Its ensures is the bound on every context: the buffer can never
      be overrun, provided only that it is not empty. */
  function Run(cs: seq<Context>, s: ExSetup, evs: seq<Event>, size: nat): (t: Step)
    requires AllValid(cs, size)
    ensures AllValid(t.0, size) && |t.0| == |cs|
  {
    if evs == [] then (cs, []) else
    var (ds, calls) := Run(cs, s, evs[..|evs| - 1], size);
    var (ds', more) := OnEvent(ds, s, evs[|evs| - 1], size);
    (ds', calls + more)
  }
}
