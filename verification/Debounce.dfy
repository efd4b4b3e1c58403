/** The debounced push button on values, over any history of samples. */
module Debounce {
  import opened Can

  /** What a sample changes. Levels are pin levels. */
  datatype State = State(current: bool, last: bool, active: bool, changed: bool, debounceStart: uint32,
                         lastChange: uint32, lastDuration: uint32, prevRelease: uint32, prevDuration: uint32)

  /** A reading of the pin and of the clock. */
  datatype Sample = Sample(level: bool, time: uint32)

  /** How a button is wired and how long a level has to last. */
  datatype Button = Button(pressedLevel: bool, debounce: uint32)

  /** One sample: the state flips when the level differs from it and has lasted for the debounce time. */
  function OnSample(b: Button, st: State, s: Sample): State {
    var start := if s.level != st.last then s.time else st.debounceStart;
    var st1 := st.(current := s.level, last := s.level, debounceStart := start);
    if Since(s.time, start) < b.debounce then st1
    else if s.level == st.active then st1.(changed := false)
    else st1.(active := s.level, changed := true, prevDuration := st.lastDuration,
              lastDuration := Since(s.time, st.lastChange), lastChange := s.time,
              prevRelease := if s.level != b.pressedLevel then s.time else st.prevRelease)
  }

  /** As a pin is set up: released, with nothing remembered but the start of the last debouncing. */
  predicate Fresh(b: Button, st: State) {
    && st.last == st.active == !b.pressedLevel && !st.changed
    && st.lastChange == st.lastDuration == st.prevRelease == st.prevDuration == 0
  }

  predicate Monotone(samples: seq<Sample>) {
    forall i, j :: 0 <= i <= j < |samples| ==> samples[i].time <= samples[j].time
  }

  /** The state after the first `k` samples. */
  function After(b: Button, st: State, samples: seq<Sample>, k: nat): State
    requires k <= |samples|
  {
    if k == 0 then st else OnSample(b, After(b, st, samples, k - 1), samples[k - 1])
  }

  /** The first of the equal readings that end with sample `k`. */
  function WindowStart(samples: seq<Sample>, k: nat): (s: nat)
    requires k < |samples|
    ensures s <= k && forall j :: s <= j <= k ==> samples[j].level == samples[k].level
    ensures s > 0 ==> samples[s - 1].level != samples[k].level
  {
    if k == 0 || samples[k - 1].level != samples[k].level then k else WindowStart(samples, k - 1)
  }

  lemma {:induction false} Tracked(b: Button, st: State, samples: seq<Sample>, k: nat)
    requires Fresh(b, st) && k < |samples|
    ensures var st' := After(b, st, samples, k + 1);
            var w := WindowStart(samples, k);
            && st'.current == st'.last == samples[k].level
            && (if w == 0 && samples[0].level != b.pressedLevel then st'.active != b.pressedLevel
                else st'.debounceStart == samples[w].time)
  {
    if k > 0 { Tracked(b, st, samples, k - 1); }
  }

  /** The reported state flips at a sample exactly when the reading differs from it and every reading since
      one at least the debounce time ago agreed. */
  lemma FlipsExactlyWhen(b: Button, st: State, samples: seq<Sample>, k: nat)
    requires Fresh(b, st) && Monotone(samples) && k < |samples|
    ensures var before, after := After(b, st, samples, k), After(b, st, samples, k + 1);
            && (after.active != before.active <==>
                  samples[k].level != before.active
                  && samples[k].time - samples[WindowStart(samples, k)].time >= b.debounce)
            && (after.active != before.active ==> after.active == samples[k].level)
  {
    var before, w := After(b, st, samples, k), WindowStart(samples, k);
    Tracked(b, st, samples, k);
    if k > 0 { Tracked(b, st, samples, k - 1); }
    FlipStep(b, before, samples[k]);
    SinceOrdered(samples[k].time, samples[w].time);
    hide Since, WindowStart, OnSample;
  }

  lemma SinceOrdered(now: uint32, then': uint32)
    requires then' <= now
    ensures Since(now, then') == now - then'
  {}

  /** A sample flips the state when its level differs and the level's first sample is long enough ago. */
  lemma FlipStep(b: Button, st: State, s: Sample)
    ensures var st' := OnSample(b, st, s);
            && (st'.active != st.active <==> s.level != st.active && Since(s.time, st'.debounceStart) >= b.debounce)
            && (st'.active != st.active ==> st'.active == s.level)
  {
    hide Since;
  }

  // ---- Durations ----

  /** The times of the flips among the first `k` samples. */
  function Flips(b: Button, st: State, samples: seq<Sample>, k: nat): (ts: seq<uint32>)
    requires k <= |samples|
  {
    if k == 0 then [] else
    Flips(b, st, samples, k - 1)
    + if After(b, st, samples, k).active != After(b, st, samples, k - 1).active then [samples[k - 1].time] else []
  }

  /** The time of the `n`-th flip from the end, or zero before there were that many. */
  function FlipBack(ts: seq<uint32>, n: nat): uint32
    requires n > 0
  {
    if |ts| >= n then ts[|ts| - n] else 0
  }

  predicate Remembered(st: State, ts: seq<uint32>) {
    && st.lastChange == FlipBack(ts, 1)
    && st.lastDuration == FlipBack(ts, 1) - FlipBack(ts, 2)
    && st.prevDuration == FlipBack(ts, 2) - FlipBack(ts, 3)
  }

  predicate Ordered(ts: seq<uint32>, upTo: uint32) {
    FlipBack(ts, 3) <= FlipBack(ts, 2) <= FlipBack(ts, 1) <= upTo
  }

  lemma Remember(b: Button, st: State, s: Sample, ts: seq<uint32>)
    requires Remembered(st, ts) && Ordered(ts, s.time)
    ensures var st' := OnSample(b, st, s);
            var ts' := ts + if st'.active != st.active then [s.time] else [];
            Remembered(st', ts') && Ordered(ts', s.time)
  {}

  lemma {:induction false} RememberedAfter(b: Button, st: State, samples: seq<Sample>, k: nat, now: uint32)
    requires Fresh(b, st) && Monotone(samples) && k <= |samples| && (k > 0 ==> samples[k - 1].time <= now)
    ensures Remembered(After(b, st, samples, k), Flips(b, st, samples, k))
    ensures Ordered(Flips(b, st, samples, k), now)
  {
    hide OnSample, FlipBack;
    if k == 0 {
      NothingRemembered(b, st, now);
    } else {
      RememberedAfter(b, st, samples, k - 1, samples[k - 1].time);
      Remember(b, After(b, st, samples, k - 1), samples[k - 1], Flips(b, st, samples, k - 1));
    }
  }

  lemma NothingRemembered(b: Button, st: State, now: uint32)
    requires Fresh(b, st)
    ensures Remembered(st, []) && Ordered([], now)
  {}

  /** Once the state has flipped twice, the duration of the last state is the time between the last two
      flips, and that of the present one is counted from the last; the duration before is that between the two
      flips before. */
  lemma {:induction false} DurationsBetweenFlips(b: Button, st: State, samples: seq<Sample>, k: nat, now: uint32)
    requires Fresh(b, st) && Monotone(samples) && k <= |samples| && (k > 0 ==> samples[k - 1].time <= now)
    ensures var st', ts := After(b, st, samples, k), Flips(b, st, samples, k);
            && (|ts| >= 1 ==> Since(now, st'.lastChange) + ts[|ts| - 1] == now)
            && (|ts| >= 2 ==> st'.lastDuration + ts[|ts| - 2] == ts[|ts| - 1])
            && (|ts| >= 3 ==> st'.prevDuration + ts[|ts| - 3] == ts[|ts| - 2])
  {
    hide After, Flips, Since, Monotone, Fresh;
    RememberedAfter(b, st, samples, k, now);
    SinceOrdered(now, FlipBack(Flips(b, st, samples, k), 1));
  }

  // ---- Pressed, in terms of the pin alone ----

  /** At sample `j` the pin has been at `level` for the debounce time. */
  predicate Lasted(b: Button, samples: seq<Sample>, level: bool, j: nat)
    requires j < |samples|
  {
    samples[j].level == level && samples[j].time - samples[WindowStart(samples, j)].time >= b.debounce
  }

  predicate LastedDown(b: Button, samples: seq<Sample>, j: nat)
    requires j < |samples|
  {
    Lasted(b, samples, b.pressedLevel, j)
  }

  predicate LastedUp(b: Button, samples: seq<Sample>, j: nat)
    requires j < |samples|
  {
    Lasted(b, samples, !b.pressedLevel, j)
  }

  /** At sample `f` the pin had been at the pressed level for the debounce time, and from there up to the `k`-th
      sample it was never away from it for that long. It may bounce. */
  predicate PinDown(b: Button, samples: seq<Sample>, f: nat, k: nat) {
    f < k <= |samples| && LastedDown(b, samples, f) && forall j :: f <= j < k ==> !LastedUp(b, samples, j)
  }

  ghost predicate PinPressed(b: Button, samples: seq<Sample>, k: nat) {
    exists f: nat :: PinDown(b, samples, f, k)
  }

  /** Such a press that is more than `hold` old. */
  ghost predicate PinHeld(b: Button, samples: seq<Sample>, k: nat, now: uint32, hold: nat) {
    exists f: nat :: PinDown(b, samples, f, k) && now - samples[f].time > hold
  }

  /** What a sample does to the reported state. */
  lemma Reports(b: Button, st: State, samples: seq<Sample>, j: nat)
    requires Fresh(b, st) && Monotone(samples) && j < |samples|
    ensures var before, after := After(b, st, samples, j), After(b, st, samples, j + 1);
            && (LastedDown(b, samples, j) ==> after.active == b.pressedLevel)
            && (LastedUp(b, samples, j) ==> after.active != b.pressedLevel)
            && (after.active != before.active ==>
                  if after.active == b.pressedLevel then LastedDown(b, samples, j) else LastedUp(b, samples, j))
            && after.lastChange == if after.active != before.active then samples[j].time else before.lastChange
  {
    hide After, WindowStart, Since, Monotone, Fresh;
    FlipsExactlyWhen(b, st, samples, j);
    ChangeStamped(b, st, samples, j);
  }

  lemma ChangeStamped(b: Button, st: State, samples: seq<Sample>, j: nat)
    requires j < |samples|
    ensures var before, after := After(b, st, samples, j), After(b, st, samples, j + 1);
            after.lastChange == if after.active != before.active then samples[j].time else before.lastChange
  {
    hide Since;
  }

  /** A press of the pin is reported, and as old as it is. */
  lemma {:induction false} DownReported(b: Button, st: State, samples: seq<Sample>, f: nat, k: nat)
    requires Fresh(b, st) && Monotone(samples) && PinDown(b, samples, f, k)
    ensures After(b, st, samples, k).active == b.pressedLevel
    ensures After(b, st, samples, k).lastChange <= samples[f].time
    decreases k
  {
    hide After, LastedDown, LastedUp, Fresh;
    Reports(b, st, samples, k - 1);
    if f < k - 1 {
      DownReported(b, st, samples, f, k - 1);
    } else {
      ChangeBefore(b, st, samples, f);
    }
  }

  lemma {:induction false} ChangeBefore(b: Button, st: State, samples: seq<Sample>, k: nat)
    requires Fresh(b, st) && Monotone(samples) && k < |samples|
    ensures After(b, st, samples, k).lastChange <= samples[k].time
  {
    hide OnSample;
    if k > 0 {
      ChangeBefore(b, st, samples, k - 1);
      ChangeStamped(b, st, samples, k - 1);
    }
  }

  /** A reported press goes back to one of the pin, since the time of the last change. */
  lemma {:induction false} DownFrom(b: Button, st: State, samples: seq<Sample>, k: nat) returns (f: nat)
    requires Fresh(b, st) && Monotone(samples) && k <= |samples|
    requires After(b, st, samples, k).active == b.pressedLevel
    ensures PinDown(b, samples, f, k) && After(b, st, samples, k).lastChange == samples[f].time
    ensures After(b, st, samples, f).active != b.pressedLevel
  {
    hide OnSample, LastedDown, LastedUp, Monotone;
    assert k > 0;
    Reports(b, st, samples, k - 1);
    if After(b, st, samples, k - 1).active == b.pressedLevel {
      f := DownFrom(b, st, samples, k - 1);
    } else {
      f := k - 1;
    }
  }

  /** The button is reported as pressed exactly when its pin went down, debounced, and has not been up for the
      debounce time since. */
  lemma {:induction false} PressedExactlyWhen(b: Button, st: State, samples: seq<Sample>, k: nat)
    requires Fresh(b, st) && Monotone(samples) && k <= |samples|
    ensures After(b, st, samples, k).active == b.pressedLevel <==> PinPressed(b, samples, k)
  {
    hide After, Fresh, Monotone, PinDown;
    if After(b, st, samples, k).active == b.pressedLevel {
      var f := DownFrom(b, st, samples, k);
    }
    if PinPressed(b, samples, k) {
      var f: nat :| PinDown(b, samples, f, k);
      DownReported(b, st, samples, f, k);
    }
  }

  /** It is reported as pressed for longer than `hold` exactly when that was more than that long ago. */
  lemma {:induction false} HeldExactlyWhen(b: Button, st: State, samples: seq<Sample>, k: nat, now: uint32, hold: nat)
    requires Fresh(b, st) && Monotone(samples) && k <= |samples| && (k > 0 ==> samples[k - 1].time <= now)
    ensures var st' := After(b, st, samples, k);
            st'.active == b.pressedLevel && Since(now, st'.lastChange) > hold <==> PinHeld(b, samples, k, now, hold)
  {
    hide After, Since, Fresh;
    var st' := After(b, st, samples, k);
    if st'.active == b.pressedLevel {
      var f := DownFrom(b, st, samples, k);
      SinceOrdered(now, samples[f].time);
    }
    if PinHeld(b, samples, k, now, hold) {
      var f: nat :| PinDown(b, samples, f, k) && now - samples[f].time > hold;
      DownReported(b, st, samples, f, k);
      SinceOrdered(now, st'.lastChange);
    }
  }

  /** The last press among the first `k` samples: the pin went down at `f`, not being down before, and up at `g`,
      each debounced, and has not gone down since. */
  ghost predicate LastPressed(b: Button, samples: seq<Sample>, f: nat, g: nat, k: nat) {
    && f < g < k <= |samples| && !PinPressed(b, samples, f) && PinDown(b, samples, f, g) && LastedUp(b, samples, g)
    && forall j :: g <= j < k ==> !LastedDown(b, samples, j)
  }

  /** Released, the button reports the duration of the last press. */
  lemma {:induction false} PressDuration(b: Button, st: State, samples: seq<Sample>, f: nat, g: nat, k: nat)
    requires Fresh(b, st) && Monotone(samples) && LastPressed(b, samples, f, g, k)
    ensures After(b, st, samples, k).active != b.pressedLevel
    ensures After(b, st, samples, k).lastDuration == samples[g].time - samples[f].time
    decreases k
  {
    hide OnSample, LastedDown, LastedUp, Monotone;
    Reports(b, st, samples, k - 1);
    DurationStamped(b, st, samples, k - 1);
    if g < k - 1 {
      PressDuration(b, st, samples, f, g, k - 1);
    } else {
      PressedExactlyWhen(b, st, samples, f);
      ChangedAtDown(b, st, samples, f, g);
      assert samples[f].time <= samples[g].time by { InOrder(samples, f, g); }
      SinceOrdered(samples[g].time, samples[f].time);
    }
  }

  lemma InOrder(samples: seq<Sample>, i: nat, j: nat)
    requires Monotone(samples) && i <= j < |samples|
    ensures samples[i].time <= samples[j].time
  {}

  lemma DurationStamped(b: Button, st: State, samples: seq<Sample>, j: nat)
    requires j < |samples|
    ensures var before, after := After(b, st, samples, j), After(b, st, samples, j + 1);
            after.lastDuration == if after.active != before.active then Since(samples[j].time, before.lastChange)
                                  else before.lastDuration
  {
    hide Since;
  }

  /** While the pin is down the last change is when it went down. */
  lemma {:induction false} ChangedAtDown(b: Button, st: State, samples: seq<Sample>, f: nat, k: nat)
    requires Fresh(b, st) && Monotone(samples) && PinDown(b, samples, f, k)
    requires After(b, st, samples, f).active != b.pressedLevel
    ensures After(b, st, samples, k).active == b.pressedLevel
    ensures After(b, st, samples, k).lastChange == samples[f].time
    decreases k
  {
    hide OnSample, LastedDown, LastedUp, Monotone;
    Reports(b, st, samples, k - 1);
    if f < k - 1 { ChangedAtDown(b, st, samples, f, k - 1); }
  }

  /** A button that is up, and was down before, has a last press. */
  lemma {:induction false} LastPress(b: Button, st: State, samples: seq<Sample>, q: nat, k: nat)
      returns (f: nat, g: nat)
    requires Fresh(b, st) && Monotone(samples) && q < k <= |samples|
    requires PinPressed(b, samples, q) && !PinPressed(b, samples, k)
    ensures LastPressed(b, samples, f, g, k)
    decreases k
  {
    hide OnSample, After, LastedDown, LastedUp, Monotone, PinPressed, Fresh;
    PressedExactlyWhen(b, st, samples, k);
    PressedExactlyWhen(b, st, samples, k - 1);
    Reports(b, st, samples, k - 1);
    if After(b, st, samples, k - 1).active == b.pressedLevel {
      f := DownFrom(b, st, samples, k - 1);
      PressedExactlyWhen(b, st, samples, f);
      g := k - 1;
      NotBoth(b, samples, g);
    } else {
      f, g := LastPress(b, st, samples, q, k - 1);
    }
  }

  lemma NotBoth(b: Button, samples: seq<Sample>, j: nat)
    requires j < |samples|
    ensures !(LastedDown(b, samples, j) && LastedUp(b, samples, j))
  {}

  // ---- What else the button reports ----

  /** Sample `j` turns a press of the pin on or off. */
  ghost predicate Turns(b: Button, samples: seq<Sample>, j: nat)
    requires j < |samples|
  {
    if PinPressed(b, samples, j) then LastedUp(b, samples, j) else LastedDown(b, samples, j)
  }

  lemma TurnsExactlyWhen(b: Button, st: State, samples: seq<Sample>, j: nat)
    requires Fresh(b, st) && Monotone(samples) && j < |samples|
    ensures Turns(b, samples, j) <==> After(b, st, samples, j + 1).active != After(b, st, samples, j).active
  {
    hide After, LastedDown, LastedUp, Monotone, PinPressed, Fresh;
    PressedExactlyWhen(b, st, samples, j);
    Reports(b, st, samples, j);
  }

  /** Sample `j` turned a press on or off, and up to the `k`-th no other level has lasted for the debounce time. */
  ghost predicate JustTurned(b: Button, samples: seq<Sample>, j: nat, k: nat) {
    && j < k <= |samples| && Turns(b, samples, j)
    && forall i :: j < i < k ==> !LastedDown(b, samples, i) && !LastedUp(b, samples, i)
  }

  lemma {:induction false} QuietAtFirst(b: Button, st: State, samples: seq<Sample>, k: nat)
    requires Fresh(b, st) && k <= |samples| && forall i :: 0 <= i < k ==> samples[i].level != b.pressedLevel
    ensures !After(b, st, samples, k).changed && After(b, st, samples, k).active != b.pressedLevel
  {
    hide Since;
    if k > 0 { QuietAtFirst(b, st, samples, k - 1); }
  }

  lemma ChangedStep(b: Button, st: State, samples: seq<Sample>, j: nat)
    requires Fresh(b, st) && Monotone(samples) && j < |samples|
    ensures var before, after := After(b, st, samples, j), After(b, st, samples, j + 1);
            after.changed == (Turns(b, samples, j)
                              || (before.changed && !LastedDown(b, samples, j) && !LastedUp(b, samples, j)))
  {
    hide Since, Turns;
    var w := WindowStart(samples, j);
    InOrder(samples, w, j);
    hide Monotone;
    TurnsExactlyWhen(b, st, samples, j);
    if w == 0 && samples[j].level != b.pressedLevel {
      QuietAtFirst(b, st, samples, j);
      QuietAtFirst(b, st, samples, j + 1);
    } else {
      hide Fresh, WindowStart;
      Tracked(b, st, samples, j);
      SinceOrdered(samples[j].time, samples[w].time);
    }
  }

  /** A change of the state is signalled from the sample that turned it to the next one at which a level has
      lasted for the debounce time. */
  lemma {:induction false} ChangedExactlyWhen(b: Button, st: State, samples: seq<Sample>, k: nat)
    requires Fresh(b, st) && Monotone(samples) && k <= |samples|
    ensures After(b, st, samples, k).changed <==> exists j :: JustTurned(b, samples, j, k)
  {
    hide OnSample, LastedDown, LastedUp, Monotone, Turns;
    if k > 0 {
      ChangedExactlyWhen(b, st, samples, k - 1);
      ChangedStep(b, st, samples, k - 1);
      if Turns(b, samples, k - 1) {
        assert JustTurned(b, samples, k - 1, k);
      } else {
        forall j: nat | JustTurned(b, samples, j, k)
          ensures JustTurned(b, samples, j, k - 1) && !LastedDown(b, samples, k - 1) && !LastedUp(b, samples, k - 1)
        {
        }
        if After(b, st, samples, k).changed {
          var j :| JustTurned(b, samples, j, k - 1);
          assert JustTurned(b, samples, j, k);
        }
      }
    }
  }

  /** When the last press among the first `k` samples ended, or zero before there was one. */
  ghost function LastRelease(b: Button, samples: seq<Sample>, k: nat): uint32
    requires k <= |samples|
  {
    if k == 0 then 0
    else if PinPressed(b, samples, k - 1) && LastedUp(b, samples, k - 1) then samples[k - 1].time
    else LastRelease(b, samples, k - 1)
  }

  lemma {:induction false} ReleaseRemembered(b: Button, st: State, samples: seq<Sample>, k: nat)
    requires Fresh(b, st) && Monotone(samples) && k <= |samples|
    ensures After(b, st, samples, k).prevRelease == LastRelease(b, samples, k)
  {
    hide LastedDown, LastedUp, Monotone, PinPressed, Since;
    if k > 0 {
      ReleaseRemembered(b, st, samples, k - 1);
      PressedExactlyWhen(b, st, samples, k - 1);
      Reports(b, st, samples, k - 1);
    }
  }
}
