/** The FLiM button down to the pin: a node whose looks at the button come from a debounced switch. */
module ButtonRuns {
  import opened Can
  import opened EventTable
  import opened EventStore
  import opened NodeMachine
  import opened NodeRuns
  import opened NodeLife
  import B = Debounce

  /** What comes into a node: a sample of the button's pin, a frame, or the end of an enumeration. */
  datatype Input = Pin(sample: B.Sample) | Received(frame: Frame) | Picked(id: byte)

  function SamplesOf(ins: seq<Input>): (samples: seq<B.Sample>)
    ensures |samples| <= |ins|
  {
    if ins == [] then [] else
    SamplesOf(ins[..|ins| - 1]) + if ins[|ins| - 1].Pin? then [ins[|ins| - 1].sample] else []
  }

  /** The switch after all the samples so far. */
  function SwitchAfter(b: B.Button, st: B.State, ins: seq<Input>): B.State {
    B.After(b, st, SamplesOf(ins), |SamplesOf(ins)|)
  }

  /** What the node reads off the switch at this time. */
  function LookAt(b: B.Button, st: B.State, now: uint32): Look {
    Look(st.active == b.pressedLevel, Since(now, st.lastChange), st.lastDuration)
  }

  /** What the last input means to the node: every sample is followed by a look at the switch. */
  function LastEvent(b: B.Button, st: B.State, ins: seq<Input>): Event
    requires ins != []
  {
    match ins[|ins| - 1]
    case Pin(s) => Button(LookAt(b, SwitchAfter(b, st, ins), s.time))
    case Received(f) => Receive(f)
    case Picked(id) => Enumerated(id)
  }

  function EventsOf(b: B.Button, st: B.State, ins: seq<Input>): (es: seq<Event>)
    ensures |es| == |ins|
  {
    if ins == [] then [] else EventsOf(b, st, ins[..|ins| - 1]) + [LastEvent(b, st, ins)]
  }

  lemma {:induction false} EventAt(b: B.Button, st: B.State, ins: seq<Input>, i: nat)
    requires i < |ins|
    ensures EventsOf(b, st, ins)[i] == LastEvent(b, st, ins[..i + 1])
    decreases |ins|
  {
    if i == |ins| - 1 {
      assert ins[..i + 1] == ins;
    } else {
      EventAt(b, st, ins[..|ins| - 1], i);
      assert ins[..|ins| - 1][..i + 1] == ins[..i + 1];
    }
  }

  lemma {:induction false} SamplesPrefix(ins: seq<Input>, i: nat)
    requires i <= |ins|
    ensures |SamplesOf(ins[..i])| <= |SamplesOf(ins)|
    ensures SamplesOf(ins[..i]) == SamplesOf(ins)[..|SamplesOf(ins[..i])|]
    decreases |ins|
  {
    if i == |ins| {
      assert ins[..i] == ins;
    } else {
      SamplesPrefix(ins[..|ins| - 1], i);
      assert ins[..|ins| - 1][..i] == ins[..i];
    }
  }

  /** At input `i`, a sample of the pin, the button had been down for longer than the hold time. */
  ghost predicate LongPress(b: B.Button, ins: seq<Input>, i: nat) {
    && i < |ins| && ins[i].Pin?
    && var samples := SamplesOf(ins[..i + 1]);
       B.PinHeld(b, samples, |samples|, ins[i].sample.time, 4000)
  }

  /** At input `i`, a sample of the pin, the button was down. */
  ghost predicate Down(b: B.Button, ins: seq<Input>, i: nat) {
    && i < |ins| && ins[i].Pin?
    && var samples := SamplesOf(ins[..i + 1]);
       B.PinPressed(b, samples, |samples|)
  }

  /** At input `i`, a sample of the pin, the button was not down. */
  ghost predicate LetGo(b: B.Button, ins: seq<Input>, i: nat) {
    && i < |ins| && ins[i].Pin?
    && var samples := SamplesOf(ins[..i + 1]);
       !B.PinPressed(b, samples, |samples|)
  }

  lemma LastSample(ins: seq<Input>, i: nat)
    requires i < |ins| && ins[i].Pin?
    ensures var samples := SamplesOf(ins[..i + 1]);
            samples != [] && samples[|samples| - 1] == ins[i].sample
  {}

  /** A look finds the button held exactly when it comes with a sample that ends a long press of the pin, and
      let go exactly when it comes with one that ends none at all. */
  lemma {:induction false} LooksAreThePin(b: B.Button, st: B.State, ins: seq<Input>, i: nat)
    requires B.Fresh(b, st) && B.Monotone(SamplesOf(ins)) && i < |ins|
    ensures Held(EventsOf(b, st, ins)[i]) <==> LongPress(b, ins, i)
    ensures Released(EventsOf(b, st, ins)[i]) <==> LetGo(b, ins, i)
    ensures Pressing(EventsOf(b, st, ins)[i]) <==> Down(b, ins, i)
  {
    hide B.After, Since, EventsOf, SamplesOf, B.Fresh, B.PinHeld, B.PinPressed;
    EventAt(b, st, ins, i);
    if ins[i].Pin? {
      var samples := SamplesOf(ins[..i + 1]);
      SamplesPrefix(ins, i + 1);
      LastSample(ins, i);
      B.PressedExactlyWhen(b, st, samples, |samples|);
      B.HeldExactlyWhen(b, st, samples, |samples|, ins[i].sample.time, 4000);
    }
  }

  /** The FLiM flag turns on only at a node number in setup mode, and only when before, in SLiM and with no mode
      settled since, the button's pin was held for more than four seconds and let go. Held means that it had
      gone down, debounced, and had not been up for the debounce time at any sample since; let go means that it
      was up for that time since it last went down. */
  lemma {:induction false} FlimOnlyAfterLongPress(l: Layout, n: Node, b: B.Button, st: B.State, ins: seq<Input>, k: nat)
    requires SettledStart(l, n) && B.Fresh(b, st) && B.Monotone(SamplesOf(ins))
    requires AllInRange(l, EventsOf(b, st, ins)) && k < |ins|
    requires var es := EventsOf(b, st, ins); !After(l, n, es, k).store.flim && After(l, n, es, k + 1).store.flim
    ensures ins[k].Received? && Opcode(ins[k].frame) == OPC_SNN && After(l, n, EventsOf(b, st, ins), k).mode == Setup
    ensures exists i, j :: HoldLed(l, n, EventsOf(b, st, ins), i, j, k) && LongPress(b, ins, i) && LetGo(b, ins, j)
  {
    hide After, EventsOf, Held, Released, LetGo, B.Fresh, B.Monotone, SamplesOf, FlagAgrees, AllInRange,
         LongPress, SwitchAfter;
    var es := EventsOf(b, st, ins);
    FlimOnlyAfterHold(l, n, es, k);
    EventAt(b, st, ins, k);
    var i, j :| HoldLed(l, n, es, i, j, k);
    LooksAreThePin(b, st, ins, i);
    LooksAreThePin(b, st, ins, j);
  }

  // ---- ... and really does ----

  /** The button is down at input `a`, not let go before input `c`, and let go then. */
  ghost predicate WholePress(b: B.Button, ins: seq<Input>, a: nat, c: nat) {
    a < c < |ins| && Down(b, ins, a) && LetGo(b, ins, c) && forall i :: a < i < c ==> !LetGo(b, ins, i)
  }

  /** In between it had been down for more than four seconds. */
  ghost predicate LongWithin(b: B.Button, ins: seq<Input>, a: nat, c: nat) {
    exists i :: a < i < c && LongPress(b, ins, i)
  }

  lemma PressIsLooks(b: B.Button, st: B.State, ins: seq<Input>, a: nat, c: nat)
    requires B.Fresh(b, st) && B.Monotone(SamplesOf(ins)) && WholePress(b, ins, a, c)
    ensures var es := EventsOf(b, st, ins);
            && Pressing(es[a]) && Released(es[c]) && NoRelease(es, a, c)
            && (HeldWithin(es, a, c) <==> LongWithin(b, ins, a, c))
  {
    hide EventsOf, SamplesOf, B.Fresh, B.Monotone, Held, Released, Pressing, LetGo, Down, LongPress;
    LooksAreThePin(b, st, ins, a);
    LooksAreThePin(b, st, ins, c);
    forall i | a < i < c
      ensures Released(EventsOf(b, st, ins)[i]) <==> LetGo(b, ins, i)
      ensures Held(EventsOf(b, st, ins)[i]) <==> LongPress(b, ins, i)
    {
      LooksAreThePin(b, st, ins, i);
    }
  }

  /** At input `c` the button had been let go after a press, by the pin, of more than `d`. */
  ghost predicate PressedFor(b: B.Button, ins: seq<Input>, c: nat, d: nat) {
    c < |ins| && LastedOver(b, SamplesOf(ins[..c + 1]), d)
  }

  ghost predicate LastedOver(b: B.Button, samples: seq<B.Sample>, d: nat) {
    exists f, g :: LastedFor(b, samples, f, g, d)
  }

  ghost predicate LastedFor(b: B.Button, samples: seq<B.Sample>, f: nat, g: nat, d: nat) {
    B.LastPressed(b, samples, f, g, |samples|) && samples[g].time - samples[f].time > d
  }

  lemma DownPrefix(b: B.Button, samples: seq<B.Sample>, f: nat, q: nat)
    requires q <= |samples|
    ensures B.PinDown(b, samples[..q], f, q) <==> B.PinDown(b, samples, f, q)
  {
    forall j | 0 <= j < q
      ensures B.LastedDown(b, samples[..q], j) == B.LastedDown(b, samples, j)
      ensures B.LastedUp(b, samples[..q], j) == B.LastedUp(b, samples, j)
    {
      WindowPrefix(samples, q, j);
      hide B.WindowStart;
    }
  }

  lemma {:induction false} WindowPrefix(samples: seq<B.Sample>, q: nat, j: nat)
    requires j < q <= |samples|
    ensures B.WindowStart(samples[..q], j) == B.WindowStart(samples, j)
  {
    if j > 0 { WindowPrefix(samples, q, j - 1); }
  }

  lemma PressedPrefix(b: B.Button, samples: seq<B.Sample>, q: nat)
    requires q <= |samples|
    ensures B.PinPressed(b, samples[..q], q) <==> B.PinPressed(b, samples, q)
  {
    hide B.PinDown;
    forall f: nat
      ensures B.PinDown(b, samples[..q], f, q) <==> B.PinDown(b, samples, f, q)
    {
      DownPrefix(b, samples, f, q);
    }
  }

  /** The duration that the node reads at the end of a press is that of the press of the pin. */
  lemma LastIsThePress(b: B.Button, st: B.State, ins: seq<Input>, a: nat, c: nat, d: nat)
    requires B.Fresh(b, st) && B.Monotone(SamplesOf(ins)) && WholePress(b, ins, a, c)
    ensures EventsOf(b, st, ins)[c].Button?
    ensures EventsOf(b, st, ins)[c].look.last > d <==> PressedFor(b, ins, c, d)
  {
    hide B.After, Since, EventsOf, B.Fresh, B.PinPressed, SamplesOf;
    EventAt(b, st, ins, c);
    var samples := SamplesOf(ins[..c + 1]);
    SamplesPrefix(ins, c + 1);
    LastSample(ins, c);
    var q := |SamplesOf(ins[..a + 1])|;
    EarlierSamples(ins, a, c);
    PressedPrefix(b, samples, q);
    var f, g := B.LastPress(b, st, samples, q, |samples|);
    B.PressDuration(b, st, samples, f, g, |samples|);
    if LastedOver(b, samples, d) {
      var f', g' :| LastedFor(b, samples, f', g', d);
      B.PressDuration(b, st, samples, f', g', |samples|);
    }
    if EventsOf(b, st, ins)[c].look.last > d { assert LastedFor(b, samples, f, g, d); }
  }

  lemma EarlierSamples(ins: seq<Input>, a: nat, c: nat)
    requires a < c < |ins| && ins[c].Pin?
    ensures var (early, late) := (SamplesOf(ins[..a + 1]), SamplesOf(ins[..c + 1]));
            |early| < |late| && late[..|early|] == early
  {
    SamplesPrefix(ins[..c], a + 1);
    assert ins[..c][..a + 1] == ins[..a + 1];
    assert ins[..c + 1][..c] == ins[..c];
  }

  /** What one whole press of the button does to a settled node, in terms of the pin alone: longer than four seconds
      it leads from SLiM into setup, and from FLiM back to SLiM without a number; a shorter one of more than a
      tenth of a second leads from FLiM into setup, and no other changes anything. */
  lemma {:induction false} PressDoes(l: Layout, n: Node, b: B.Button, st: B.State, ins: seq<Input>, a: nat, c: nat)
    requires B.Fresh(b, st) && B.Monotone(SamplesOf(ins)) && WholePress(b, ins, a, c)
    requires Sound(l, n.store) && AllInRange(l, EventsOf(b, st, ins))
    requires Settled(After(l, n, EventsOf(b, st, ins), a).mode)
    ensures var es := EventsOf(b, st, ins);
            var (s, t) := (After(l, n, es, a), After(l, n, es, c + 1));
            && t.prev == s.mode
            && if LongWithin(b, ins, a, c) && s.mode == Flim
               then t.mode == Slim && !t.store.flim && t.store.nodeNum == 0 && t.store.canId == 1
               else
                 SameNumber(s, t)
                 && t.mode == if LongWithin(b, ins, a, c) || (s.mode == Flim && PressedFor(b, ins, c, 100)) then Setup
                              else s.mode
  {
    hide After, EventsOf, B.Fresh, B.Monotone, SamplesOf, AllInRange, WholePress, LongWithin, PressedFor, Sound;
    PressIsLooks(b, st, ins, a, c);
    LastIsThePress(b, st, ins, a, c, 100);
    assert a < c < |ins| by { PressIsWithin(b, ins, a, c); }
    PressOutcome(l, n, EventsOf(b, st, ins), a, c);
  }

  lemma PressIsWithin(b: B.Button, ins: seq<Input>, a: nat, c: nat)
    requires WholePress(b, ins, a, c)
    ensures a < c < |ins|
  {}

  /** A press of more than a tenth of a second in setup leaves it for the mode before. */
  lemma {:induction false} PressLeavesSetup(l: Layout, n: Node, b: B.Button, st: B.State, ins: seq<Input>, a: nat,
        c: nat)
    requires B.Fresh(b, st) && B.Monotone(SamplesOf(ins)) && WholePress(b, ins, a, c)
    requires Sound(l, n.store) && AllInRange(l, EventsOf(b, st, ins))
    requires After(l, n, EventsOf(b, st, ins), a).mode == Setup
    ensures var es := EventsOf(b, st, ins);
            var (s, t) := (After(l, n, es, a), After(l, n, es, c + 1));
            SameNumber(s, t) && t.prev == s.prev && t.mode == if PressedFor(b, ins, c, 100) then s.prev else Setup
  {
    hide After, EventsOf, B.Fresh, B.Monotone, SamplesOf, AllInRange, WholePress, PressedFor, Sound;
    PressIsLooks(b, st, ins, a, c);
    LastIsThePress(b, st, ins, a, c, 100);
    assert a < c < |ins| by { PressIsWithin(b, ins, a, c); }
    SetupLeft(l, n, EventsOf(b, st, ins), a, c);
  }

  /** From behind input `c` up to input `k` the button is not down, and no number is assigned. */
  ghost predicate Calm(b: B.Button, ins: seq<Input>, c: nat, k: nat) {
    && k <= |ins|
    && forall i :: c < i < k ==> !Down(b, ins, i) && !(ins[i].Received? && ins[i].frame.data[0] == 0x42)
  }

  lemma CalmIsUndisturbed(b: B.Button, st: B.State, ins: seq<Input>, c: nat, k: nat)
    requires B.Fresh(b, st) && B.Monotone(SamplesOf(ins)) && c < k <= |ins| && Calm(b, ins, c, k)
    ensures Undisturbed(EventsOf(b, st, ins), c + 1, k)
  {
    hide EventsOf, SamplesOf, B.Fresh, B.Monotone, Pressing, Down;
    forall i | c < i < k
      ensures !Pressing(EventsOf(b, st, ins)[i]) && !Assigns(EventsOf(b, st, ins)[i])
    {
      LooksAreThePin(b, st, ins, i);
      EventAt(b, st, ins, i);
    }
  }

  /** A node in SLiM whose button is pressed for more than four seconds and let go takes the next node number, both
      bytes of it, and is a FLiM node then. */
  lemma {:induction false} LongPressThenNumber(l: Layout, n: Node, b: B.Button, st: B.State, ins: seq<Input>, a: nat,
        c: nat, k: nat)
    requires B.Fresh(b, st) && B.Monotone(SamplesOf(ins)) && WholePress(b, ins, a, c) && LongWithin(b, ins, a, c)
    requires Sound(l, n.store) && AllInRange(l, EventsOf(b, st, ins)) && c < k < |ins|
    requires After(l, n, EventsOf(b, st, ins), a).mode == Slim
    requires Calm(b, ins, c, k) && ins[k].Received? && ins[k].frame.data[0] == 0x42
    ensures After(l, n, EventsOf(b, st, ins), c + 1).mode == Setup
    ensures var t := After(l, n, EventsOf(b, st, ins), k + 1);
            t.mode == Flim && t.store.flim && t.store.nodeNum == NumberIn(ins[k].frame)
  {
    hide After, EventsOf, B.Fresh, B.Monotone, SamplesOf, AllInRange, WholePress, LongWithin, Calm, Sound, NumberIn;
    PressIsLooks(b, st, ins, a, c);
    CalmIsUndisturbed(b, st, ins, c, k);
    assert a < c < |ins| by { PressIsWithin(b, ins, a, c); }
    EventAt(b, st, ins, k);
    assert ins[..k + 1][k] == ins[k];
    HoldThenNumber(l, n, EventsOf(b, st, ins), a, c, k);
  }
}
