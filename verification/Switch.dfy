/** CBUSSwitch: a push button on a pin, sampled and debounced. The pin level and the clock are inputs. */
module Switches {
  import opened Can
  import opened Debounce

  class Switch {
    var configured: bool
    var pressedState: bool
    var currentState: bool
    var lastState: bool
    var activeState: bool
    var stateChanged: bool
    var debounceStartTime: uint32
    var lastStateChangeTime: uint32
    var lastStateDuration: uint32
    var prevReleaseTime: uint32
    var prevStateDuration: uint32
    var debounceDuration: uint32

    ghost function Wiring(): Button
      reads this
    {
      Button(pressedState, debounceDuration)
    }

    ghost function Now(): State
      reads this
    {
      State(currentState, lastState, activeState, stateChanged, debounceStartTime, lastStateChangeTime,
            lastStateDuration, prevReleaseTime, prevStateDuration)
    }

    constructor ()
      ensures Wiring() == Button(false, 20) && Now() == State(true, false, true, false, 0, 0, 0, 0, 0) && !configured
    {
      configured, pressedState, currentState, lastState := false, false, true, false;
      activeState, stateChanged, debounceStartTime := true, false, 0;
      lastStateChangeTime, lastStateDuration, prevReleaseTime, prevStateDuration := 0, 0, 0, 0;
      debounceDuration := 20;
    }

    method Reset()
      modifies this
      ensures Wiring() == old(Wiring()) && configured == old(configured)
      ensures Now() ==
                State(old(currentState), !pressedState, old(activeState), false, old(debounceStartTime), 0, 0, 0, 0)
    {
      lastState := !pressedState;
      stateChanged := false;
      lastStateChangeTime, lastStateDuration, prevReleaseTime, prevStateDuration := 0, 0, 0, 0;
    }

    method SetPin(pressedLevel: bool, level: bool)
      modifies this
      ensures Wiring() == Button(pressedLevel, old(debounceDuration)) && Fresh(Wiring(), Now()) && configured
      ensures currentState == level
    {
      pressedState := pressedLevel;
      activeState := !pressedState;
      configured := true;
      Reset();
      currentState := level;
    }

    /** The pin, or true as long as none is set. */
    function ReadPin(level: bool): bool
      reads this`configured
    {
      if configured then level else true
    }

    method Run(level: bool, now: uint32)
      modifies this
      ensures Wiring() == old(Wiring()) && configured == old(configured)
      ensures Now() == OnSample(Wiring(), old(Now()), Sample(old(ReadPin(level)), now))
    {
      currentState := ReadPin(level);
      if currentState != lastState {
        debounceStartTime := now;
      }
      if Since(now, debounceStartTime) >= debounceDuration {
        if currentState != activeState {
          activeState := currentState;
          prevStateDuration := lastStateDuration;
          lastStateDuration := Since(now, lastStateChangeTime);
          lastStateChangeTime := now;
          stateChanged := true;
          if currentState != pressedState {
            prevReleaseTime := lastStateChangeTime;
          }
        } else {
          stateChanged := false;
        }
      }
      lastState := currentState;
    }

    /** A whole history of samples, one after the other. */
    method RunAll(samples: seq<Sample>)
      requires configured
      modifies this
      ensures Wiring() == old(Wiring()) && configured
      ensures Now() == After(Wiring(), old(Now()), samples, |samples|)
    {
      hide OnSample;
      for i := 0 to |samples|
        invariant Wiring() == old(Wiring()) && configured
        invariant Now() == After(Wiring(), old(Now()), samples, i)
      {
        Run(samples[i].level, samples[i].time);
      }
    }

    method IsPressed() returns (pressed: bool)
      ensures pressed == (Now().active == Wiring().pressedLevel)
    {
      pressed := activeState == pressedState;
    }

    method GetCurrentStateDuration(now: uint32) returns (d: uint32)
      ensures d == Since(now, Now().lastChange)
    {
      d := Since(now, lastStateChangeTime);
    }

    method GetLastStateDuration() returns (d: uint32)
      ensures d == Now().lastDuration
    {
      d := lastStateDuration;
    }
  }
}
