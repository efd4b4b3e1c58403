/** CBUSbase on values: which received frames change the event store or the identity, and the FLiM button. */
module NodeMachine {
  import opened Can
  import opened FlashCache
  import opened EventTable
  import opened EventStore

  const OPC_QNN: byte := 0x0D
  const OPC_RQNP: byte := 0x10
  const OPC_RQMN: byte := 0x11
  const OPC_SNN: byte := 0x42
  const OPC_NNLRN: byte := 0x53
  const OPC_NNULN: byte := 0x54
  const OPC_NNCLR: byte := 0x55
  const OPC_NNEVN: byte := 0x56
  const OPC_NERD: byte := 0x57
  const OPC_RQEVN: byte := 0x58
  const OPC_ENUM: byte := 0x5D
  const OPC_NVRD: byte := 0x71
  const OPC_NENRD: byte := 0x72
  const OPC_RQNPN: byte := 0x73
  const OPC_CANID: byte := 0x75
  const OPC_EVULN: byte := 0x95
  const OPC_NVSET: byte := 0x96
  const OPC_REVAL: byte := 0x9C
  const OPC_REQEV: byte := 0xB2
  const OPC_EVLRN: byte := 0xD2
  const OPC_EVLRNI: byte := 0xF5

  const HOLD_TIME: nat := 4000
  const DEBOUNCE_TIME: nat := 100

  datatype Mode = Slim | Flim | Pressed | Flashing | Setup | PressedSetup | Unknown

  datatype Node = Node(store: Store, learn: bool, mode: Mode, prev: Mode)

  predicate Formed(l: Layout, st: Store) {
    Fits(l, st.mem.ram) && Sized(st.mem) && |st.index| == l.maxEvents
  }

  // ---- The FLiM button ----

  /** What the switch reports at one look: pressed or not, and how long its present and its last state lasted. */
  datatype Look = Look(pressed: bool, current: uint32, last: uint32)

  /** Back to SLiM, whatever the mode was. */
  function SetSlim(n: Node): (n': Node)
    requires Sized(n.store.mem)
    ensures Sized(n'.store.mem)
  {
    n.(store := EventStore.SetCanId(SetFlim(SetNodeNum(n.store, 0), false), 1), mode := Slim)
  }

  function OnLook(n: Node, s: Look): (n': Node)
    requires Sized(n.store.mem)
    ensures Sized(n'.store.mem)
  {
    match n.mode
    case Slim | Flim => if s.pressed then n.(prev := n.mode, mode := Pressed) else n
    case Pressed =>
      if s.pressed then (if s.current > HOLD_TIME then n.(mode := Flashing) else n)
      else if n.prev == Flim && s.last > DEBOUNCE_TIME then n.(mode := Setup)
      else n.(mode := n.prev)
    case Flashing => if s.pressed then n else if n.prev == Slim then n.(mode := Setup) else SetSlim(n)
    case Setup => if s.pressed then n.(mode := PressedSetup) else n
    case PressedSetup => if s.pressed then n else n.(mode := if s.last > DEBOUNCE_TIME then n.prev else Setup)
    case Unknown => SetSlim(n)
  }

  // ---- Frames ----

  function Opcode(f: Frame): byte { f.data[0] }

  function NodeOf(f: Frame): word { Word(f.data[1], f.data[2]) }

  function EventOf(f: Frame): Key { Key(NodeOf(f), Word(f.data[3], f.data[4])) }

  /** Bits 7 and 4 set, bits 2 and 1 clear: an event, which no command is. */
  predicate IsEvent(opc: byte) {
    opc / 0x80 == 1 && opc / 0x10 % 2 == 1 && opc / 4 % 2 == 0 && opc / 2 % 2 == 0
  }

  /** The frame is a command for this node. */
  predicate ThisNode(n: Node, f: Frame) { Opcode(f) / 0x20 >= 2 && NodeOf(f) == n.store.nodeNum }

  function OnTeach(l: Layout, n: Node, f: Frame, evNum: byte, evVal: byte): Node
    requires Formed(l, n.store)
  {
    if evNum == 0 then n else n.(store := Learn(l, n.store, EventOf(f), evNum, evVal))
  }

  /** The commands that are open only in learn mode; the flag says whether the frame is dealt with. */
  function OnLearnFrame(l: Layout, n: Node, f: Frame): (Node, bool)
    requires Formed(l, n.store)
  {
    var opc := Opcode(f);
    if opc == OPC_NNLRN && ThisNode(n, f) then (n, true)
    else if opc == OPC_NNLRN || opc == OPC_NNULN then (n.(learn := false), true)
    else if opc == OPC_NNCLR then (n.(store := ClearAll(l, n.store)), true)
    else if opc == OPC_EVULN then (n.(store := Unlearn(l, n.store, EventOf(f))), true)
    else if opc == OPC_EVLRN then (OnTeach(l, n, f, f.data[5], f.data[6]), true)
    else if opc == OPC_EVLRNI then (OnTeach(l, n, f, f.data[6], f.data[7]), true)
    else (n, opc == OPC_REQEV)
  }

  /** A node variable is refused only when its index is zero and there are none: the range test compares the
      outcome of `index == 0` with the number of variables. Any other index is written. */
  predicate NvRefused(l: Layout, index: byte) { (if index == 0 then 1 else 0) > l.numNvs }

  function NvSet(l: Layout, st: Store, index: byte, v: byte): Store
    requires Sized(st.mem) && l.Valid()
  {
    if NvRefused(l, index) then st else SetNv(l, st, index, v)
  }

  /** The commands addressed to this node that change anything. */
  function OnOwnFrame(l: Layout, n: Node, f: Frame): Node
    requires Formed(l, n.store)
  {
    var opc := Opcode(f);
    if opc == OPC_NNLRN then (if n.store.flim then n.(learn := true) else n)
    else if opc == OPC_NVSET then n.(store := NvSet(l, n.store, f.data[3], f.data[4]))
    else if opc == OPC_CANID then n.(store := EventStore.SetCanId(n.store, f.data[3]))
    else n
  }

  /** The commands addressed to this node; most of them only reply. */
  predicate OwnCommand(opc: byte) {
    opc in {OPC_NNLRN, OPC_NVSET, OPC_CANID, OPC_RQNPN, OPC_NNEVN, OPC_NERD, OPC_NENRD,
            OPC_RQEVN, OPC_NVRD, OPC_REVAL, OPC_ENUM}
  }

  predicate SetupCommand(opc: byte) { opc in {OPC_RQNP, OPC_RQMN, OPC_SNN} }

  /** A node number assigned in setup mode ends it in FLiM. */
  function OnSnn(n: Node, f: Frame): Node
    requires Sized(n.store.mem)
  {
    n.(store := SetFlim(SetNodeNum(n.store, NodeOf(f)), true), mode := Flim)
  }

  /** What a frame does that learn mode has not dealt with. */
  function OnOtherFrame(l: Layout, n: Node, f: Frame): Node
    requires Formed(l, n.store)
  {
    if ThisNode(n, f) && OwnCommand(Opcode(f)) then OnOwnFrame(l, n, f)
    else if n.mode == Setup && Opcode(f) == OPC_SNN then OnSnn(n, f)
    else n
  }

  /** ... and whether that deals with it. */
  predicate DealtWith(n: Node, f: Frame) {
    (ThisNode(n, f) && OwnCommand(Opcode(f))) || Opcode(f) == OPC_QNN || (n.mode == Setup && SetupCommand(Opcode(f)))
  }

  function OnFrame(l: Layout, n: Node, f: Frame): Node
    requires Formed(l, n.store)
  {
    if IsEvent(Opcode(f)) then n else
    var (n1, done) := if n.learn then OnLearnFrame(l, n, f) else (n, false);
    if done then n1 else OnOtherFrame(l, n, f)
  }

  /** A frame that was not dealt with has changed nothing. */
  lemma {:induction false} LeftForLater(l: Layout, n: Node, f: Frame)
    requires Formed(l, n.store)
    ensures !OnLearnFrame(l, n, f).1 ==> OnLearnFrame(l, n, f).0 == n
    ensures !OwnCommand(Opcode(f)) ==> OnOwnFrame(l, n, f) == n
  {}

  /** Whether the library consumes a command frame. */
  predicate Consumed(l: Layout, n: Node, f: Frame)
    requires Formed(l, n.store)
  {
    (n.learn && OnLearnFrame(l, n, f).1) || DealtWith(n, f)
  }

  // ---- Event frames ----

  /** One call of a user's event handler: of the plain one, or of the one that also gets the state of the event
      and its first variable. */
  datatype EventCall = Plain(index: nat, frame: Frame) | Extended(index: nat, frame: Frame, on: bool, ev: byte)

  /** The event that a frame is about: a short one has node number zero. */
  function EventKey(f: Frame): Key { Key(if Opcode(f) / 8 % 2 == 1 then 0 else NodeOf(f), EventOf(f).en) }

  /** The handler call for an event frame, if the event is stored and there is a handler; the plain one goes
      first. */
  function CallFor(l: Layout, ram: seq<byte>, plain: bool, extended: bool, f: Frame): (calls: seq<EventCall>)
    requires Fits(l, ram)
  {
    var i := Scan(l, ram, EventKey(f), 0);
    if i == l.maxEvents then [] else
    if plain then [Plain(i, f)] else
    if extended then [Extended(i, f, Opcode(f) % 2 == 0, if l.numEvs > 0 then EvAt(l, ram, i, 1) else 0)] else []
  }

  // ---- Runs ----

  /** A look at the button, a frame, or the end of an enumeration that picked a CAN id. */
  datatype Event = Button(look: Look) | Receive(frame: Frame) | Enumerated(id: byte)

  function Step(l: Layout, n: Node, e: Event): Node
    requires Formed(l, n.store)
  {
    match e
    case Button(s) => OnLook(n, s)
    case Receive(f) => OnFrame(l, n, f)
    case Enumerated(id) => n.(store := EventStore.SetCanId(n.store, id))
  }

  /** An event variable number from one to the number of variables, and a node variable index in range. */
  predicate InRange(l: Layout, e: Event) {
    e.Receive? ==>
      var f := e.frame;
      && (Opcode(f) == OPC_EVLRN ==> f.data[5] <= l.numEvs)
      && (Opcode(f) == OPC_EVLRNI ==> f.data[6] <= l.numEvs)
      && (Opcode(f) == OPC_NVSET ==> 1 <= f.data[3] <= l.numNvs)
  }
}
