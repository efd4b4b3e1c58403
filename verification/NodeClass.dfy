/** CBUSbase: learn mode, the FLiM button and the commands, on top of a ModuleConfig. */
module Nodes {
  import opened Can
  import opened FlashCache
  import opened EventTable
  import opened EventStore
  import opened EventRuns
  import opened ModuleConfigs
  import opened NodeMachine

  class CBUSbase {
    const config: ModuleConfig
    var learn: bool
    var thisNn: bool
    var nodeNumber: word
    var eventNumber: word
    var mode: Mode
    var prev: Mode
    var hasEventHandler: bool
    var hasEventHandlerEx: bool
    var eventCalls: seq<EventCall>  // every call of a user's event handler, in order

    ghost function State(): (n: Node)
      reads this`learn, this`mode, this`prev, config, config.buf, config.chip, config.table
    {
      Node(config.State(), learn, mode, prev)
    }

    /** The store is sound. */
    ghost predicate Ready()
      reads config, config.buf, config.chip, config.table
    {
      config.Ready()
    }

    constructor (config: ModuleConfig)
      ensures this.config == config && !learn && mode == Unknown && prev == Unknown && eventCalls == []
    {
      this.config := config;
      learn, thisNn, nodeNumber, eventNumber := false, false, 0, 0;
      mode, prev := Unknown, Unknown;
      hasEventHandler, hasEventHandlerEx, eventCalls := false, false, [];
    }

    /** The mode that the stored flag stands for. */
    method IndicateFLiMMode(flim: bool)
      modifies this`mode
      ensures mode == if flim then Flim else Slim
    {
      if flim {
        mode := Flim;
      } else {
        mode := Slim;
      }
    }

    // ---- The button ----

    method SetSLiM()
      requires Ready()
      modifies this`mode, config.buf, config.chip, config`flashModified, config`flashZeroToOne
      modifies config`canId, config`flim, config`nodeNum
      ensures Sized(old(State()).store.mem) && State() == SetSlim(old(State()))
    {
      hide Sound, Write, Flush, HighByte, LowByte;
      config.SetNodeNum(0);
      config.SetFlim(false);
      var _ := config.SetCanId(1);
      IndicateFLiMMode(config.flim);
    }

    /** The button was let go: from SLiM into setup, from FLiM back to SLiM. */
    method EndFlashing()
      requires Ready() && mode == Flashing
      modifies this`mode, config.buf, config.chip, config`flashModified, config`flashZeroToOne
      modifies config`canId, config`flim, config`nodeNum
      ensures Sized(old(State()).store.mem)
      ensures State() == if prev == Slim then old(State()).(mode := Setup) else SetSlim(old(State()))
    {
      hide Sound, SetFlim, EventStore.SetCanId, SetNodeNum;
      SoundIsSized(config.l, config.State());
      if prev == Slim {
        mode := Setup;
      } else {
        mode := Slim;
        SetSLiM();
      }
    }

    method FLiMSWCheck(s: Look)
      requires Ready()
      modifies this`mode, this`prev, config.buf, config.chip, config`flashModified, config`flashZeroToOne
      modifies config`canId, config`flim, config`nodeNum
      ensures Sized(old(State()).store.mem) && State() == OnLook(old(State()), s)
    {
      hide Sound, SetSlim;
      SoundIsSized(config.l, config.State());
      match mode {
        case Flim | Slim =>
          if s.pressed {
            prev := mode;
            mode := Pressed;
          }
        case Pressed =>
          if s.pressed {
            if s.current > HOLD_TIME {
              mode := Flashing;
            }
          } else if prev == Flim && s.last > DEBOUNCE_TIME {
            mode := Setup;
          } else {
            mode := prev;
          }
        case Flashing =>
          if !s.pressed {
            EndFlashing();
          }
        case Setup =>
          if s.pressed {
            mode := PressedSetup;
          }
        case PressedSetup =>
          if !s.pressed {
            if s.last > DEBOUNCE_TIME {
              mode := prev;
            } else {
              mode := Setup;
            }
          }
        case Unknown =>
          SetSLiM();
      }
    }

    // ---- Commands ----

    method DoSnn()
      requires Ready()
      modifies this`mode, config.buf, config.chip, config`flashModified, config`flashZeroToOne, config`flim
      modifies config`nodeNum
      ensures Sized(old(State()).store.mem)
      ensures State() == old(State()).(store := SetFlim(SetNodeNum(old(State()).store, nodeNumber), true), mode := Flim)
    {
      hide Sound, Write, Flush, HighByte, LowByte;
      config.SetNodeNum(nodeNumber);
      config.SetFlim(true);
      IndicateFLiMMode(config.flim);
    }

    method DoNnclr()
      requires Ready()
      modifies config.buf, config.chip, config.table, config`flashModified, config`flashZeroToOne, config`hashCollisions
      ensures Formed(config.l, old(State()).store)
      ensures State() == if learn then old(State()).(store := ClearAll(config.l, old(State()).store)) else old(State())
    {
      hide Sound, Flush, ClearKeys;
      SoundIsSized(config.l, config.State());
      if learn {
        config.ClearEventsEeprom();
        config.ClearEvHashTable();
      }
    }

    /** The slot an event has, or else the first free one. */
    method SlotToTeach() returns (index: nat)
      requires Ready()
      ensures Formed(config.l, config.State())
      ensures index == LearnSlot(config.l, config.State(), Key(nodeNumber, eventNumber))
    {
      hide Sound, Scan, FirstFree;
      SoundIsSized(config.l, config.State());
      index := config.FindExistingEvent(nodeNumber, eventNumber);
      if index >= config.l.maxEvents {
        index := config.FindEventSpace();
      }
    }

    /** Write the event, but only with its first variable, and the variable. */
    method TeachInto(index: nat, evNum: byte, evVal: byte)
      requires config.Valid() && index < config.l.maxEvents
      modifies config.buf, config.chip, config`flashModified, config`flashZeroToOne
      ensures Sized(old(config.Mem()))
      ensures config.Mem() == TeachSlot(config.l, old(config.Mem()), index, Key(nodeNumber, eventNumber), evNum, evVal)
    {
      hide Write, WriteKey;
      if evNum < 2 {
        config.WriteEvent(index, Key(nodeNumber, eventNumber), true);
      }
      config.WriteEventEv(index, evNum, evVal);
    }

    method DoEvlrn(evNum: byte, evVal: byte)
      requires Ready()
      modifies config.buf, config.chip, config.table, config`flashModified, config`flashZeroToOne, config`hashCollisions
      ensures Formed(config.l, old(State()).store)
      ensures State() == old(State()).(store := if evNum == 0 then old(State()).store
                           else Learn(config.l, old(State()).store, Key(nodeNumber, eventNumber), evNum, evVal))
    {
      hide Sound, LearnSlot, TeachSlot, Reindexed;
      SoundIsSized(config.l, config.State());
      if evNum != 0 {
        var index := SlotToTeach();
        if index < config.l.maxEvents {
          TeachInto(index, evNum, evVal);
          config.UpdateEvHashEntry(index);
        }
      }
    }

    method DoEvuln()
      requires Ready()
      modifies config.buf, config.chip, config.table, config`flashModified, config`flashZeroToOne, config`hashCollisions
      ensures Formed(config.l, old(State()).store)
      ensures State() == old(State()).(store := Unlearn(config.l, old(State()).store, Key(nodeNumber, eventNumber)))
    {
      hide Sound, WriteKey, Scan, Reindexed;
      SoundIsSized(config.l, config.State());
      var index := config.FindExistingEvent(nodeNumber, eventNumber);
      if index < config.l.maxEvents {
        config.WriteEvent(index, UNUSED, true);
        config.UpdateEvHashEntry(index);
      }
    }

    method DoNvset(index: byte, value: byte)
      requires Ready()
      modifies config.buf, config.chip, config`flashModified, config`flashZeroToOne
      ensures Formed(config.l, old(State()).store)
      ensures State() == old(State()).(store := NvSet(config.l, old(State()).store, index, value))
    {
      hide Sound, Write;
      SoundIsSized(config.l, config.State());
      if (if index == 0 then 1 else 0) <= config.l.numNvs {
        config.WriteNv(index, value);
      }
    }

    /** The number of free slots. */
    method DoNnevn() returns (free: nat)
      requires Ready()
      ensures config.table.Length == config.l.maxEvents && free == FreeUpTo(config.table[..], config.l.maxEvents)
    {
      hide Sound;
      SoundIsSized(config.l, config.State());
      free := 0;
      for i := 0 to config.l.maxEvents
        invariant free == FreeUpTo(config.table[..], i)
      {
        if config.table[i] == 0 {
          free := free + 1;
        }
      }
    }

    // ---- Dispatch ----

    /** The numbers that the commands work on, as the frame carries them. */
    predicate Cached(f: Frame)
      reads this`nodeNumber, this`eventNumber
    {
      nodeNumber == NodeOf(f) && eventNumber == EventOf(f).en
    }

    method ParseLearnCmd(f: Frame) returns (processed: bool)
      requires Ready() && Cached(f) && learn && thisNn == ThisNode(State(), f)
      modifies this`learn, config.buf, config.chip, config.table
      modifies config`flashModified, config`flashZeroToOne, config`hashCollisions
      ensures Formed(config.l, old(State()).store)
      ensures (State(), processed) == OnLearnFrame(config.l, old(State()), f)
    {
      hide Sound, Formed, Learn, Unlearn, ClearAll, ThisNode, Word;
      SoundIsSized(config.l, config.State());
      processed := true;
      var opc := Opcode(f);
      if opc == OPC_NNLRN && thisNn {
      } else if opc == OPC_NNLRN || opc == OPC_NNULN {
        learn := false;
      } else if opc == OPC_NNCLR {
        DoNnclr();
      } else if opc == OPC_EVULN {
        DoEvuln();
      } else if opc == OPC_EVLRN {
        DoEvlrn(f.data[5], f.data[6]);
      } else if opc == OPC_EVLRNI {
        DoEvlrn(f.data[6], f.data[7]);
      } else {
        processed := opc == OPC_REQEV;
      }
    }

    method ParseOwnCmd(f: Frame) returns (processed: bool)
      requires Ready()
      modifies this`learn, config.buf, config.chip, config`flashModified, config`flashZeroToOne, config`canId
      ensures Formed(config.l, old(State()).store)
      ensures processed == OwnCommand(Opcode(f))
      ensures State() == OnOwnFrame(config.l, old(State()), f)
    {
      hide Sound, Formed, NvSet, EventStore.SetCanId;
      SoundIsSized(config.l, config.State());
      processed := true;
      var opc := Opcode(f);
      if opc == OPC_NNLRN {
        if config.flim {
          learn := true;
        }
      } else if opc == OPC_NVSET {
        DoNvset(f.data[3], f.data[4]);
      } else if opc == OPC_CANID {
        var _ := config.SetCanId(f.data[3]);
      } else {
        processed := OwnCommand(opc);
      }
    }

    method ParseOtherCmd(f: Frame) returns (processed: bool)
      requires Ready() && nodeNumber == NodeOf(f) && thisNn == ThisNode(State(), f)
      modifies this`learn, this`mode, config.buf, config.chip
      modifies config`flashModified, config`flashZeroToOne, config`canId, config`flim, config`nodeNum
      ensures Formed(config.l, old(State()).store)
      ensures State() == OnOtherFrame(config.l, old(State()), f) && processed == DealtWith(old(State()), f)
    {
      hide Sound, Formed, OnOwnFrame, ThisNode, Word, SetFlim, SetNodeNum, OwnCommand;
      SoundIsSized(config.l, config.State());
      LeftForLater(config.l, State(), f);
      OwnIsNotSetup(Opcode(f));
      processed := false;
      if thisNn {
        processed := ParseOwnCmd(f);
      }
      if !processed && Opcode(f) == OPC_QNN {
        processed := true;
      }
      if !processed && mode == Setup {
        processed := SetupCommand(Opcode(f));
        if Opcode(f) == OPC_SNN {
          DoSnn();
        }
      }
    }

    method ParseFLiMCmd(f: Frame) returns (processed: bool)
      requires Ready() && thisNn == ThisNode(State(), f) && !IsEvent(Opcode(f))
      modifies this`learn, this`mode, this`nodeNumber, this`eventNumber, config.buf, config.chip, config.table
      modifies config`flashModified, config`flashZeroToOne, config`hashCollisions, config`canId, config`flim
      modifies config`nodeNum
      ensures Formed(config.l, old(State()).store)
      ensures State() == OnFrame(config.l, old(State()), f) && processed == Consumed(config.l, old(State()), f)
    {
      hide Sound, Formed, OnLearnFrame, OnOtherFrame, ThisNode, IsEvent, Word, DealtWith;
      SoundIsSized(config.l, config.State());
      LeftForLater(config.l, State(), f);
      nodeNumber := NodeOf(f);
      eventNumber := Word(f.data[3], f.data[4]);
      processed := false;
      if learn {
        processed := ParseLearnCmd(f);
      }
      if !processed {
        processed := ParseOtherCmd(f);
      }
    }

    /** The event that the frame is about, looked up with node number zero when it is a short one. */
    method FindEvent(f: Frame) returns (index: nat)
      requires Ready()
      modifies this`nodeNumber, this`eventNumber
      ensures config.Valid() && Fits(config.l, config.buf[..])
      ensures index == Scan(config.l, config.buf[..], EventKey(f), 0)
    {
      hide Sound, Scan, Word;
      SoundIsSized(config.l, config.State());
      nodeNumber := if Opcode(f) / 8 % 2 == 1 then 0 else NodeOf(f);
      eventNumber := Word(f.data[3], f.data[4]);
      index := config.FindExistingEvent(nodeNumber, eventNumber);
    }

    /** An event frame is looked up, and a stored event is given to the user's handler. */
    method ParseCbusEvent(f: Frame) returns (processed: bool)
      requires Ready()
      modifies this`nodeNumber, this`eventNumber, this`eventCalls
      ensures Fits(config.l, config.buf[..])
      ensures var calls := CallFor(config.l, config.buf[..], hasEventHandler, hasEventHandlerEx, f);
              eventCalls == old(eventCalls) + calls && processed == (calls != [])
    {
      hide Sound, Scan, Word, EvAt, EventKey, CBUSbase.Ready, Opcode;
      var index := FindEvent(f);
      var calls := [];
      if index < config.l.maxEvents {
        if hasEventHandler {
          calls := [Plain(index, f)];
        } else if hasEventHandlerEx {
          var ev := 0;
          if config.l.numEvs > 0 {
            ev := config.GetEventEv(index, 1);
          }
          calls := [Extended(index, f, Opcode(f) % 2 == 0, ev)];
        }
      }
      eventCalls := eventCalls + calls;
      processed := calls != [];
    }

    /** One received frame: an event goes to the user, a command to the node. */
    method ProcessFrame(f: Frame) returns (consumed: bool)
      requires Ready()
      modifies this`thisNn, this`learn, this`mode, this`nodeNumber, this`eventNumber, this`eventCalls
      modifies config.buf, config.chip, config.table
      modifies config`flashModified, config`flashZeroToOne, config`hashCollisions, config`canId, config`flim
      modifies config`nodeNum
      ensures Formed(config.l, old(State()).store) && State() == OnFrame(config.l, old(State()), f)
      ensures var calls := if IsEvent(Opcode(f))
                then CallFor(config.l, old(State()).store.mem.ram, hasEventHandler, hasEventHandlerEx, f) else [];
              && eventCalls == old(eventCalls) + calls
              && consumed == if IsEvent(Opcode(f)) then calls != [] else Consumed(config.l, old(State()), f)
    {
      hide Sound, Formed, OnLearnFrame, OnOtherFrame, IsEvent, Word, CallFor, Consumed;
      SoundIsSized(config.l, config.State());
      thisNn := Opcode(f) / 0x20 >= 2 && NodeOf(f) == config.nodeNum;
      if IsEvent(Opcode(f)) {
        consumed := ParseCbusEvent(f);
      } else {
        consumed := ParseFLiMCmd(f);
      }
    }
  }

  lemma SoundIsSized(l: Layout, st: Store)
    requires Sound(l, st)
    ensures Formed(l, st) && Indexed(l, st.mem.ram, st.index, st.collisions)
  {}

  lemma OwnIsNotSetup(opc: byte)
    ensures OwnCommand(opc) ==> opc != OPC_SNN && opc != OPC_QNN
  {}
}
