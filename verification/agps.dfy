/**
 The AGPS resource state machines of gps/libloc_api_50001/loc_eng_agps.cpp and
 loc_eng_agps.h on values: subscribers, notifications, and the reaction of each
 state to each event. AgpsStateMachine and DSStateMachine share the four state
 handlers; they differ in sendRsrcRequest and in the translation of RELEASED.
 */
module Agps {

  type Id = x: int | 0 <= x < 0x1_0000_0000

  const INADDR_NONE: Id := 0xFFFF_FFFF

  datatype Kind = BIT | ATL | WIFI | DS

  /** What equals() compares; addr is the IPv6 text of a BIT subscriber without an IPv4 address. */
  datatype Key = Key(id: Id, addr: string)

  function KeyOf(kind: Kind, id: Id, ipv6: string): Key {
    Key(id, if kind == BIT && id == INADDR_NONE then ipv6 else "")
  }

  datatype Subscription = Subscription(kind: Kind, key: Key, inactive: bool)

  predicate WaitForCloseComplete(kind: Kind) {
    kind == WIFI || kind == DS
  }

  datatype RsrcStatus = UNSUBSCRIBE | GRANTED | RELEASED | DENIED

  /** rcver or groupID of a Notification. */
  datatype Target = One(key: Key) | All | Active | Inactive

  predicate ForMe(s: Subscription, target: Target) {
    match target
    case One(key) => s.key == key
    case All => true
    case Active => !s.inactive
    case Inactive => s.inactive
  }

  datatype Action = REQUEST | RELEASE

  /** What requestRsrc returns to a DSStateMachine; BUSY carries whether the retry timer starts. */
  datatype Answer = SUCCESS | BUSY(timerStarts: bool) | UNSUPPORTED | FAILED | OTHER

  datatype State = Released | Pending | Acquired | Releasing

  /** The history of a machine: what it heard and what it did. */
  datatype Mark =
    | Subscribing(key: Key)                                  // SUBSCRIBE reaches the current state
    | Heard(state: State, status: RsrcStatus)                // a framework event, and the state that handles it
    | Told(kind: Kind, key: Key, status: RsrcStatus)         // a subscriber accepts a notification
    | Sent(action: Action)                                   // requestRsrc
    | Busy                                                   // ... answers ENGINE_BUSY
    | TimerStarted
    | FellBack(id: int)                                      // informStatus(RSRC_DENIED, id) by sendRsrcRequest

  datatype Machine = Machine(ds: bool, single: bool, state: State, subs: seq<Subscription>, retries: nat, log: seq<Mark>)

  const MAX_START_DATA_CALL_RETRIES := 4

  // ---------- The subscriber list ----------

  /** The subscribers a notification is for, in list order. */
  function Matching(subs: seq<Subscription>, target: Target): (r: seq<Subscription>)
  {
    if subs == [] then []
    else (if ForMe(subs[0], target) then [subs[0]] else []) + Matching(subs[1..], target)
  }

  /** The others, in list order. */
  function Others(subs: seq<Subscription>, target: Target): (r: seq<Subscription>)
  {
    if subs == [] then []
    else (if ForMe(subs[0], target) then [] else [subs[0]]) + Others(subs[1..], target)
  }

  function Notices(told: seq<Subscription>, status: RsrcStatus): (r: seq<Mark>)
    ensures |r| == |told|
    ensures forall i :: 0 <= i < |told| ==> r[i] == Told(told[i].kind, told[i].key, status)
  {
    seq(|told|, i requires 0 <= i < |told| => Told(told[i].kind, told[i].key, status))
  }

  predicate HasActive(subs: seq<Subscription>) {
    exists i :: 0 <= i < |subs| && !subs[i].inactive
  }

  /** The first subscriber with the key, as linked_list_search finds it. */
  function IndexOf(subs: seq<Subscription>, key: Key): (i: nat)
    ensures i <= |subs|
    ensures forall j :: 0 <= j < i ==> subs[j].key != key
    ensures i < |subs| ==> subs[i].key == key
  {
    if subs == [] || subs[0].key == key then 0 else 1 + IndexOf(subs[1..], key)
  }

  // ---------- Operations of the machine ----------

  function AddSubscriber(m: Machine, kind: Kind, key: Key): Machine {
    if IndexOf(m.subs, key) < |m.subs| then m
    else m.(subs := [Subscription(kind, key, false)] + m.subs)
  }

  /** The effect of telling some subscribers: a data-services DENIED also resets the retry count. */
  function Tell(m: Machine, told: seq<Subscription>, status: RsrcStatus): Machine {
    m.(log := m.log + Notices(told, status),
       retries := if m.ds && status == DENIED && told != [] then 0 else m.retries)
  }

  function NotifySubscribers(m: Machine, target: Target, status: RsrcStatus, delete: bool): Machine {
    var n := Tell(m, Matching(m.subs, target), status);
    if delete then n.(subs := Others(m.subs, target)) else n
  }

  /** The ID of the first active subscriber, or -1. */
  function ActiveId(subs: seq<Subscription>): int {
    if subs == [] then -1 else if !subs[0].inactive then subs[0].key.id else ActiveId(subs[1..])
  }

  function FallBack(m: Machine): Machine {
    m.(retries := 0, log := m.log + [FellBack(ActiveId(m.subs))])
  }

  /** What DSStateMachine does with the answer of requestRsrc. */
  function TakeAnswer(m: Machine, answer: Answer): Machine {
    match answer
    case SUCCESS => m
    case BUSY(timerStarts) =>
      var b := m.(log := m.log + [Busy], retries := (m.retries + 1) % 256);
      if b.retries > MAX_START_DATA_CALL_RETRIES then FallBack(b)
      else if timerStarts then b.(log := b.log + [TimerStarted])
      else b
    case UNSUPPORTED => FallBack(m)
    case FAILED => FallBack(m)
    case OTHER => m
  }

  /** sendRsrcRequest of either class, and whether it returns 0. */
  function SendRsrcRequest(m: Machine, action: Action, answer: Answer): (Machine, bool) {
    if !m.ds then
      (if !HasActive(m.subs) == (action == RELEASE) then m.(log := m.log + [Sent(action)]) else m, true)
    else
      (TakeAnswer(m.(log := m.log + [Sent(action)]), answer), answer == SUCCESS)
  }

  /** setInactive of the entry at i; a DSSubscriber also reports the close. */
  function SetInactive(m: Machine, i: nat): Machine
    requires i < |m.subs|
  {
    var s := m.subs[i];
    m.(subs := m.subs[i := s.(inactive := true)],
       log := m.log + if s.kind == DS then [Told(DS, s.key, UNSUBSCRIBE)] else [])
  }

  // ---------- The four state handlers ----------

  /** SUBSCRIBE in state Released: a failed request leaves the state, and the subscriber for a retry. */
  function StartRequest(m: Machine, kind: Kind, key: Key, answer: Answer): Machine {
    var (r, ok) := SendRsrcRequest(AddSubscriber(m, kind, key), REQUEST, answer);
    if ok then r.(state := Pending) else r
  }

  /** What each state does with a subscriber that has arrived. */
  function Join(m: Machine, kind: Kind, key: Key, answer: Answer): Machine {
    match m.state
    case Released => StartRequest(m, kind, key, answer)
    case Pending => AddSubscriber(m, kind, key)
    case Acquired => AddSubscriber(Tell(m, [Subscription(kind, key, false)], GRANTED), kind, key)
    case Releasing => AddSubscriber(m, kind, key)
  }

  function OnSubscribe(m: Machine, kind: Kind, key: Key, answer: Answer): Machine {
    Join(m.(log := m.log + [Subscribing(key)]), kind, key, answer)
  }

  /** The subscriber leaves the list, or is marked when its close has to be awaited. */
  function Leave(m: Machine, i: nat): Machine
    requires i < |m.subs|
  {
    if WaitForCloseComplete(m.subs[i].kind) then SetInactive(m, i)
    else NotifySubscribers(m, One(m.subs[i].key), UNSUBSCRIBE, true)
  }

  /** What Pending and Acquired do after a subscriber has left. */
  function ReleaseIfIdle(m: Machine, answer: Answer): Machine {
    if m.subs == [] then SendRsrcRequest(m.(state := Released), RELEASE, answer).0
    else if !HasActive(m.subs) then SendRsrcRequest(m.(state := Releasing), RELEASE, answer).0
    else m
  }

  /** RSRC_UNSUBSCRIBE for the list entry at i. */
  function OnUnsubscribe(m: Machine, i: nat, answer: Answer): Machine
    requires i < |m.subs|
  {
    match m.state
    case Released => Tell(m, [m.subs[i]], UNSUBSCRIBE)
    case Releasing =>
      var n := Leave(m, i);
      if n.subs == [] then n.(state := Released) else n
    case _ => ReleaseIfIdle(Leave(m, i), answer)
  }

  function OnGranted(m: Machine): Machine {
    var n := m.(log := m.log + [Heard(m.state, GRANTED)]);
    if m.state == Pending then NotifySubscribers(n, Active, GRANTED, false).(state := Acquired) else n
  }

  /** RELEASED or DENIED in state Releasing. */
  function OnReleasingDone(m: Machine, status: RsrcStatus, answer: Answer): Machine {
    var n := NotifySubscribers(m, Inactive, status, true);
    if HasActive(n.subs) then SendRsrcRequest(n.(state := Pending), REQUEST, answer).0
    else n.(state := Released)
  }

  function OnReleased(m: Machine, answer: Answer): Machine {
    var n := m.(log := m.log + [Heard(m.state, RELEASED)]);
    match m.state
    case Released => n
    case Pending => n
    case Acquired => NotifySubscribers(n, All, RELEASED, true).(state := Released)
    case Releasing => OnReleasingDone(n, RELEASED, answer)
  }

  function OnDenied(m: Machine, answer: Answer): Machine {
    var n := m.(log := m.log + [Heard(m.state, DENIED)]);
    match m.state
    case Released => n
    case Pending => NotifySubscribers(n, All, DENIED, true).(state := Released)
    case Acquired => n
    case Releasing => OnReleasingDone(n, DENIED, answer)
  }

  // ---------- The machine's interface ----------

  /** What can happen to a machine. */
  datatype Input =
    | Subscribe(kind: Kind, key: Key, answer: Answer)
    | Unsubscribe(key: Key, answer: Answer)
    | FrameworkEvent(status: RsrcStatus, answer: Answer)
    | DropAll

  function SubscribeRsrc(m: Machine, kind: Kind, key: Key, answer: Answer): Machine {
    if m.single && m.subs != [] then Tell(m, [Subscription(kind, key, false)], DENIED)
    else OnSubscribe(m, kind, key, answer)
  }

  function UnsubscribeRsrc(m: Machine, key: Key, answer: Answer): (Machine, bool) {
    var i := IndexOf(m.subs, key);
    if i < |m.subs| then (OnUnsubscribe(m, i, answer), true) else (m, false)
  }

  /** onRsrcEvent; a DSStateMachine that RELEASED leaves in the same state takes it for DENIED. */
  function OnRsrcEvent(m: Machine, status: RsrcStatus, answer: Answer): Machine {
    match status
    case GRANTED => OnGranted(m)
    case RELEASED =>
      var n := OnReleased(m, answer);
      if m.ds && n.state == m.state then OnDenied(n, answer) else n
    case DENIED => OnDenied(m, answer)
    case UNSUBSCRIBE => m
  }

  function Step(m: Machine, input: Input): Machine {
    match input
    case Subscribe(kind, key, answer) => SubscribeRsrc(m, kind, key, answer)
    case Unsubscribe(key, answer) => UnsubscribeRsrc(m, key, answer).0
    case FrameworkEvent(status, answer) => OnRsrcEvent(m, status, answer)
    case DropAll => m.(subs := [])
  }

  /** DSSubscribers are made for a DSStateMachine, and only for it; keys are made by KeyOf. */
  predicate FitsMachine(m: Machine, input: Input) {
    input.Subscribe? ==>
      (input.kind == DS) == m.ds && input.key == KeyOf(input.kind, input.key.id, input.key.addr)
  }

  function Run(m: Machine, inputs: seq<Input>): Machine
    decreases |inputs|
  {
    if inputs == [] then m else Run(Step(m, inputs[0]), inputs[1..])
  }

  predicate FitsRun(m: Machine, inputs: seq<Input>) {
    forall i :: 0 <= i < |inputs| ==> FitsMachine(m, inputs[i])
  }

  function NewMachine(ds: bool, single: bool): Machine {
    Machine(ds, single, Released, [], 0, [])
  }

  // ---------- What the outside sees of a history ----------

  datatype AdapterCall =
    | AtlOpenStatus(id: int, success: bool)
    | AtlCloseStatus(id: int, success: bool)
    | ServerDataConn(bit: bool, sender: Id, result: RsrcStatus)   // to the GPSONE daemon for BIT, else to the sender
    | RequestAtl(id: int)
    | CloseDataCall

  /** notifyRsrcStatus of each subscriber kind, and informStatus of the data machine. */
  function CallsOf(mark: Mark): seq<AdapterCall> {
    match mark
    case Told(ATL, key, status) =>
      if status == UNSUBSCRIBE || status == RELEASED then [AtlCloseStatus(key.id, true)]
      else [AtlOpenStatus(key.id, status == GRANTED)]
    case Told(DS, key, UNSUBSCRIBE) => [AtlCloseStatus(key.id, true)]
    case Told(DS, key, RELEASED) => [CloseDataCall]
    case Told(DS, key, DENIED) => [RequestAtl(key.id)]
    case Told(DS, key, GRANTED) => [AtlOpenStatus(key.id, true)]
    case Told(BIT, key, status) => [ServerDataConn(true, 0, if status == UNSUBSCRIBE then RELEASED else status)]
    case Told(WIFI, key, status) => if status == UNSUBSCRIBE then [] else [ServerDataConn(false, key.id, status)]
    case FellBack(id) => [RequestAtl(id)]
    case _ => []
  }

  function Calls(log: seq<Mark>): seq<AdapterCall> {
    if log == [] then [] else Calls(log[..|log| - 1]) + CallsOf(log[|log| - 1])
  }
}
