/** A bounded queue that overwrites its oldest item, with the whole history of what went through it. */
module OverwriteQueue {
  import opened Can

  datatype Item = Item(frame: Frame, time: uint32)

  /** `items` waits to be taken; `puts` is everything ever put and `taken` the positions in it of the items
      that were taken, oldest first. */
  datatype Queue = Queue(items: seq<Item>, puts: seq<Item>, taken: seq<nat>, overflows: nat, discarded: nat, high: nat)

  const EMPTY: Queue := Queue([], [], [], 0, 0, 0)

  datatype Op = Put(item: Item) | Take | Clear

  function Max(a: nat, b: nat): nat { if a < b then b else a }

  function Apply(cap: nat, q: Queue, op: Op): Queue
    requires cap > 0
  {
    match op
    case Put(x) =>
      var kept := if |q.items| == cap then q.items[1..] else q.items;
      Queue(kept + [x], q.puts + [x], q.taken, q.overflows + (if |q.items| == cap then 1 else 0), q.discarded,
            Max(q.high, |kept| + 1))
    case Take =>
      if q.items == [] || |q.items| > |q.puts| then q else
      q.(items := q.items[1..], taken := q.taken + [|q.puts| - |q.items|])
    case Clear => q.(items := [], discarded := q.discarded + |q.items|)
  }

  /** The queue after the first `k` operations. */
  function Run(cap: nat, ops: seq<Op>, k: nat): Queue
    requires cap > 0 && k <= |ops|
  {
    if k == 0 then EMPTY else Apply(cap, Run(cap, ops, k - 1), ops[k - 1])
  }

  // ---- Every history ----

  predicate LastItems(q: Queue) { |q.items| <= |q.puts| && q.items == q.puts[|q.puts| - |q.items|..] }

  predicate Conserved(q: Queue) { |q.puts| == |q.taken| + q.overflows + |q.items| + q.discarded }

  /** Items are taken in the order in which they were put, each at most once, and none that still waits. */
  predicate InOrder(q: Queue) {
    && (forall i, j :: 0 <= i < j < |q.taken| ==> q.taken[i] < q.taken[j])
    && (forall i :: 0 <= i < |q.taken| ==> q.taken[i] + |q.items| < |q.puts|)
  }

  predicate Sane(cap: nat, q: Queue) {
    |q.items| <= cap && LastItems(q) && Conserved(q) && InOrder(q)
  }

  lemma ApplySane(cap: nat, q: Queue, op: Op)
    requires cap > 0 && Sane(cap, q)
    ensures Sane(cap, Apply(cap, q, op))
  {}

  /** After any operations: the queue holds the last items put, no more than its capacity; what was put was
      taken, overwritten, cleared away or is still there; and what was taken came out in the order it went in. */
  lemma {:induction false} RunSane(cap: nat, ops: seq<Op>, k: nat)
    requires cap > 0 && k <= |ops|
    ensures Sane(cap, Run(cap, ops, k))
  {
    hide Apply, Sane;
    if k == 0 {
      EmptySane(cap);
    } else {
      RunSane(cap, ops, k - 1);
      ApplySane(cap, Run(cap, ops, k - 1), ops[k - 1]);
    }
  }

  lemma EmptySane(cap: nat)
    ensures Sane(cap, EMPTY)
  {}

  /** The high water mark is the largest number of items there have been: it was reached, and never passed. */
  lemma {:induction false} HighWater(cap: nat, ops: seq<Op>, k: nat)
    requires cap > 0 && k <= |ops|
    ensures forall m :: 0 <= m <= k ==> |Run(cap, ops, m).items| <= Run(cap, ops, k).high
    ensures exists m :: 0 <= m <= k && |Run(cap, ops, m).items| == Run(cap, ops, k).high
  {
    if k == 0 {
      assert |Run(cap, ops, 0).items| == Run(cap, ops, k).high;
    } else {
      HighWater(cap, ops, k - 1);
      var before, after := Run(cap, ops, k - 1), Run(cap, ops, k);
      HighApply(cap, before, ops[k - 1]);
      hide Apply;
      if after.high != before.high {
        assert |Run(cap, ops, k).items| == after.high;
      }
    }
  }

  lemma HighApply(cap: nat, q: Queue, op: Op)
    requires cap > 0 && |q.items| <= q.high
    ensures var q' := Apply(cap, q, op);
            |q'.items| <= q'.high && q'.high >= q.high && (q'.high == q.high || q'.high == |q'.items|)
  {}

  lemma {:induction false} AtLeastOwnPlace(q: Queue, i: nat)
    requires InOrder(q) && i < |q.taken|
    ensures q.taken[i] >= i
  {
    if i > 0 { AtLeastOwnPlace(q, i - 1); }
  }

  lemma {:induction false} AtMostOwnPlace(q: Queue, i: nat)
    requires InOrder(q) && i < |q.taken| && |q.puts| == |q.taken| + |q.items|
    ensures q.taken[i] <= i
    decreases |q.taken| - i
  {
    if i + 1 < |q.taken| { AtMostOwnPlace(q, i + 1); }
  }

  /** With nothing overwritten and nothing cleared away, the n-th item taken is the n-th item put. */
  lemma NothingLost(cap: nat, ops: seq<Op>, i: nat)
    requires cap > 0
    requires var q := Run(cap, ops, |ops|); q.overflows == 0 && q.discarded == 0 && i < |q.taken|
    ensures Run(cap, ops, |ops|).taken[i] == i
  {
    RunSane(cap, ops, |ops|);
    hide Run;
    AtLeastOwnPlace(Run(cap, ops, |ops|), i);
    AtMostOwnPlace(Run(cap, ops, |ops|), i);
  }
}
