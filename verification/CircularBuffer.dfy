/** CBUSCircularBuffer: an array with a head, a tail and a full flag, and counters that wrap at 32 bits. */
module CircularBuffers {
  import opened Can
  import opened OverwriteQueue

  /** The place behind `i` in a ring. */
  function Next(i: nat, capacity: nat): (n: nat)
    requires i < capacity
    ensures n == if i + 1 == capacity then 0 else i + 1
  {
    SmallMod(i + 1, capacity);
    (i + 1) % capacity
  }

  lemma SmallMod(i: nat, n: nat)
    requires i <= n && 0 < n
    ensures i % n == if i == n then 0 else i
  {}

  /** A counter after one more; it wraps. */
  function Bumped(c: uint32): uint32 { (c + 1) % TWO32 }

  /** The value of a counter that has counted to `n`. */
  function Wrapped(n: nat): uint32 { n % TWO32 }

  lemma BumpCounts(n: nat)
    ensures Bumped(Wrapped(n)) == Wrapped(n + 1)
  {}

  /** The place `size` behind the tail. */
  function HeadAt(tail: nat, size: nat, capacity: nat): int {
    if tail + size < capacity then tail + size else tail + size - capacity
  }

  /** The `size` items from `tail` on, around the end. */
  function Ring(a: seq<Item>, tail: nat, size: nat): (items: seq<Item>)
    requires tail < |a| && size <= |a|
    ensures |items| == size
  {
    if tail + size <= |a| then a[tail..tail + size] else a[tail..] + a[..tail + size - |a|]
  }

  lemma RingPut(a: seq<Item>, tail: nat, size: nat, x: Item)
    requires tail < |a| && size < |a|
    ensures Ring(a[HeadAt(tail, size, |a|) := x], tail, size + 1) == Ring(a, tail, size) + [x]
  {}

  lemma RingPutFull(a: seq<Item>, tail: nat, x: Item)
    requires tail < |a|
    ensures Ring(a[tail := x], Next(tail, |a|), |a|) == Ring(a, tail, |a|)[1..] + [x]
  {}

  lemma RingTake(a: seq<Item>, tail: nat, size: nat)
    requires tail < |a| && 0 < size <= |a|
    ensures Ring(a, tail, size)[0] == a[tail] && Ring(a, Next(tail, |a|), size - 1) == Ring(a, tail, size)[1..]
  {}

  class CircularBuffer {
    var isFull: bool
    var head: nat
    var tail: nat
    const capacity: byte
    var count: byte
    var highWaterMark: byte
    var puts: uint32
    var gets: uint32
    var overflows: uint32
    const buffer: array<Item>  // empty when nothing was allocated
    ghost var history: Queue

    /** The indices and the flag describe a ring. */
    predicate Shaped()
      reads this
    {
      && buffer.Length == capacity && count <= capacity && isFull == (count == capacity)
      && tail < capacity && head == HeadAt(tail, count, capacity)
    }

    ghost predicate Counted()
      reads this`history, this`puts, this`gets, this`overflows, this`highWaterMark
    {
      && puts == Wrapped(|history.puts|) && gets == Wrapped(|history.taken|)
      && overflows == Wrapped(history.overflows) && highWaterMark == history.high
    }

    ghost predicate Valid()
      reads this, buffer
    {
      Shaped() && Counted() && Ring(buffer[..], tail, count) == history.items && Sane(capacity, history)
    }

    constructor (n: byte, blank: Item)
      ensures capacity == n && history == EMPTY && (n > 0 ==> Valid()) && fresh(buffer)
    {
      isFull, head, tail, count, highWaterMark := false, 0, 0, 0, 0;
      capacity := n;
      puts, gets, overflows := 0, 0, 0;
      buffer := new Item[n](i => blank);
      history := EMPTY;
    }

    /** The number of items, worked out from the indices. */
    method Size() returns (n: byte)
      requires buffer.Length == capacity && tail < capacity && head < capacity
      modifies this`count
      ensures n == count == if isFull then capacity else if head >= tail then head - tail else capacity + head - tail
      ensures old(Valid()) ==> Valid() && n == |history.items|
    {
      n := capacity;
      if !isFull {
        if head >= tail {
          n := head - tail;
        } else {
          n := capacity + head - tail;
        }
      }
      count := n;
    }

    method Insert(x: Item)
      requires Valid()
      modifies buffer, this`head, this`tail, this`isFull, this`overflows, this`count
      ensures Shaped() && Ring(buffer[..], tail, count) == Apply(capacity, history, Put(x)).items
      ensures overflows == if old(isFull) then Bumped(old(overflows)) else old(overflows)
    {
      hide Ring, Sane, Bumped, Counted;
      ghost var a := buffer[..];
      buffer[head] := x;
      if isFull {
        RingPutFull(a, tail, x);
        tail := Next(tail, capacity);
        overflows := Bumped(overflows);
      } else {
        RingPut(a, tail, count, x);
      }
      head := Next(head, capacity);
      isFull := head == tail;
      var _ := Size();
    }

    method PutValid(x: Item)
      requires Valid()
      modifies this, buffer
      ensures Valid() && history == Apply(capacity, old(history), Put(x))
    {
      hide Ring, Sane, HeadAt, Bumped, Wrapped;
      ApplySane(capacity, history, Put(x));
      BumpCounts(|history.puts|);
      BumpCounts(history.overflows);
      Insert(x);
      if count > highWaterMark {
        highWaterMark := count;
      }
      puts := Bumped(puts);
      history := Apply(capacity, history, Put(x));
    }

    /** Usable: a valid ring, or none because nothing was asked for. */
    ghost predicate Ready()
      reads this, buffer
    {
      capacity == 0 == buffer.Length || Valid()
    }

    method PutItem(x: Item)
      requires Ready()
      modifies this, buffer
      ensures Ready() && history == if capacity == 0 then old(history) else Apply(capacity, old(history), Put(x))
    {
      hide Sane, Counted, Ring, Apply;
      if buffer.Length > 0 {
        PutValid(x);
      }
    }

    method Remove() returns (x: Item)
      requires Valid() && count > 0
      modifies this`tail, this`isFull, this`count
      ensures x == history.items[0]
      ensures Shaped() && Ring(buffer[..], tail, count) == history.items[1..]
    {
      hide Ring, Sane;
      RingTake(buffer[..], tail, count);
      x := buffer[tail];
      isFull := false;
      tail := Next(tail, capacity);
      var _ := Size();
    }

    method GetValid() returns (r: Option<Frame>)
      requires Valid()
      modifies this
      ensures Valid() && r == if old(history).items == [] then None else Some(old(history).items[0].frame)
      ensures history == Apply(capacity, old(history), Take)
    {
      hide Ring, Sane, HeadAt, Bumped, Wrapped;
      r := None;
      ApplySane(capacity, history, Take);
      SaneIsLast(capacity, history);
      if count > 0 {
        BumpCounts(|history.taken|);
        var x := Remove();
        r := Some(x.frame);
        gets := Bumped(gets);
        history := Apply(capacity, history, Take);
      }
    }

    /** The oldest item, removed; nothing when there is none. */
    method GetItem() returns (r: Option<Frame>)
      requires Ready()
      modifies this
      ensures Ready()
      ensures r == if capacity == 0 || old(history).items == [] then None else Some(old(history).items[0].frame)
      ensures history == if capacity == 0 then old(history) else Apply(capacity, old(history), Take)
    {
      hide Sane, Counted, Ring, Apply;
      r := None;
      if buffer.Length > 0 {
        r := GetValid();
      }
    }

    /** The oldest item, left where it is, and the time it was put. */
    method Peek() returns (r: Option<Frame>)
      requires Ready()
      ensures r == if capacity == 0 || history.items == [] then None else Some(history.items[0].frame)
    {
      if buffer.Length == 0 || count == 0 { return None; }
      hide Sane;
      RingTake(buffer[..], tail, count);
      r := Some(buffer[tail].frame);
    }

    method InsertTime() returns (t: uint32)
      requires Ready()
      ensures capacity > 0 && history.items != [] ==> t == history.items[0].time
      ensures t == if capacity == 0 then 0 else buffer[tail].time
    {
      if buffer.Length == 0 { return 0; }
      hide Sane;
      if count > 0 { RingTake(buffer[..], tail, count); }
      t := buffer[tail].time;
    }

    method ClearItems()
      requires Ready()
      modifies this
      ensures Ready() && history == if capacity == 0 then old(history) else Apply(capacity, old(history), Clear)
    {
      hide Sane;
      head := 0;
      tail := 0;
      isFull := false;
      count := 0;
      if capacity > 0 {
        ApplySane(capacity, history, Clear);
        history := Apply(capacity, history, Clear);
      }
    }

    method FreeSlots() returns (n: byte)
      requires Valid()
      ensures n == capacity - |history.items|
    {
      n := capacity - count;
    }
  }

  /** Until the first counter wraps: what was put was taken, overwritten, cleared away, or is still there. */
  lemma {:induction false} CountersAddUp(b: CircularBuffer)
    requires b.Valid() && |b.history.puts| < TWO32
    ensures b.puts == b.gets + b.overflows + b.count + b.history.discarded
  {
    hide Sane;
    SaneAddsUp(b.capacity, b.history);
    Unwrapped(|b.history.puts|);
    Unwrapped(|b.history.taken|);
    Unwrapped(b.history.overflows);
  }

  lemma SaneAddsUp(capacity: nat, q: Queue)
    requires Sane(capacity, q)
    ensures |q.puts| == |q.taken| + q.overflows + q.discarded + |q.items|
  {}

  lemma Unwrapped(n: nat)
    ensures n < TWO32 ==> Wrapped(n) == n
  {}

  lemma SaneIsLast(capacity: nat, q: Queue)
    requires Sane(capacity, q)
    ensures |q.items| <= |q.puts|
  {}
}
