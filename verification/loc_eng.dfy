/**
 The messages of gps/libloc_api_50001/loc_eng.cpp that drive the NIF machines:
 ATL requests and releases, SUPL ES requests, framework events, engine restart.
 */
module LocEng {
  import opened LinkedLists
  import opened Sequences
  import opened Agps
  import opened AgpsRuns
  import opened AgpsDsRuns
  import AgpsReports

  datatype Engine = Engine(agnss: Option<Machine>, internet: Option<Machine>, data: Option<Machine>,
                           calls: seq<AdapterCall>)

  datatype Nif = AGNSS | INTERNET | DATA

  function AtlKey(id: Id): Key {
    Key(id, "")
  }

  predicate Holds(m: Option<Machine>, id: Id) {
    m.Some? && IndexOf(m.value.subs, AtlKey(id)) < |m.value.subs|
  }

  /** The adapter calls a machine made on its way from m to n. */
  function Made(m: Machine, n: Machine): seq<AdapterCall> {
    if |m.log| <= |n.log| then Calls(n.log[|m.log|..]) else []
  }

  /** LocEngReleaseATL: the first of the three machines that holds the handle unsubscribes it. */
  function ReleaseAtl(e: Engine, id: Id, answer: Answer): Engine {
    if Holds(e.agnss, id) then
      var n := UnsubscribeRsrc(e.agnss.value, AtlKey(id), answer).0;
      e.(agnss := Some(n), calls := e.calls + Made(e.agnss.value, n))
    else if Holds(e.internet, id) then
      var n := UnsubscribeRsrc(e.internet.value, AtlKey(id), answer).0;
      e.(internet := Some(n), calls := e.calls + Made(e.internet.value, n))
    else if Holds(e.data, id) then
      var n := UnsubscribeRsrc(e.data.value, AtlKey(id), answer).0;
      e.(data := Some(n), calls := e.calls + Made(e.data.value, n))
    else e.(calls := e.calls + [AtlCloseStatus(id, false)])
  }

  function Get(e: Engine, nif: Nif): Option<Machine> {
    match nif case AGNSS => e.agnss case INTERNET => e.internet case DATA => e.data
  }

  /** One machine takes a step. */
  function StepNif(e: Engine, nif: Nif, input: Input): Engine
    requires Get(e, nif).Some?
  {
    var m := Get(e, nif).value;
    var n := Step(m, input);
    var f := e.(calls := e.calls + Made(m, n));
    match nif
    case AGNSS => f.(agnss := Some(n))
    case INTERNET => f.(internet := Some(n))
    case DATA => f.(data := Some(n))
  }

  datatype EngineInput =
    | RequestATL(supl: bool, id: Id, answer: Answer)   // LocEngRequestATL for the AGNSS or the internet machine
    | RequestSuplES(id: Id, answer: Answer)
    | ReleaseATL(id: Id, answer: Answer)
    | NifEvent(nif: Nif, status: RsrcStatus, answer: Answer)
    | DataClientUp
    | EngineUp

  function Drop(m: Option<Machine>): Option<Machine> {
    if m.Some? then Some(Step(m.value, DropAll)) else m
  }

  function EngineStep(e: Engine, input: EngineInput): Engine {
    match input
    case RequestATL(supl, id, answer) =>
      var nif := if supl then AGNSS else INTERNET;
      if Get(e, nif).Some? then StepNif(e, nif, Subscribe(ATL, AtlKey(id), answer))
      else e.(calls := e.calls + [AtlOpenStatus(id, false)])
    case RequestSuplES(id, answer) =>
      if e.data.Some? then StepNif(e, DATA, Subscribe(DS, AtlKey(id), answer))
      else if e.agnss.Some? then StepNif(e, AGNSS, Subscribe(ATL, AtlKey(id), answer))
      else e.(calls := e.calls + [AtlOpenStatus(id, false)])
    case ReleaseATL(id, answer) => ReleaseAtl(e, id, answer)
    case NifEvent(nif, status, answer) =>
      if Get(e, nif).Some? then StepNif(e, nif, FrameworkEvent(status, answer)) else e
    case DataClientUp => e.(data := Some(NewMachine(true, false)))
    case EngineUp => e.(agnss := Drop(e.agnss), internet := Drop(e.internet))
  }

  function EngineRun(e: Engine, inputs: seq<EngineInput>): Engine
    decreases |inputs|
  {
    if inputs == [] then e else EngineRun(EngineStep(e, inputs[0]), inputs[1..])
  }

  /** After loc_eng_agps_init; some targets have no AGNSS machine. */
  function NewEngine(hasAgnss: bool): Engine {
    Engine(if hasAgnss then Some(NewMachine(false, false)) else None, Some(NewMachine(false, false)), None, [])
  }

  // ---------- What a run keeps ----------

  predicate AtlOnly(subs: seq<Subscription>) {
    forall s :: s in subs ==> s.kind == ATL && s.key.addr == ""
  }

  ghost predicate AtlMachine(m: Machine) {
    BaseInv(m) && !m.single && AtlOnly(m.subs)
  }

  ghost predicate EngineInv(e: Engine) {
    && (e.agnss.Some? ==> AtlMachine(e.agnss.value))
    && (e.internet.Some? ==> AtlMachine(e.internet.value))
    && (e.data.Some? ==> DsInv(e.data.value))
  }

  lemma UnsubscribeSubs(m: Machine, i: nat, answer: Answer)
    requires i < |m.subs|
    ensures OnUnsubscribe(m, i, answer).subs == if m.state == Released then m.subs else Leave(m, i).subs
  {}

  lemma AtlOnlyLeave(m: Machine, i: nat)
    requires AtlOnly(m.subs) && i < |m.subs|
    ensures AtlOnly(Leave(m, i).subs)
  {
    assert m.subs[i] in m.subs;
    SplitMembers(m.subs, One(m.subs[i].key));
  }

  lemma AtlOnlyNotify(m: Machine, target: Target, status: RsrcStatus, delete: bool)
    requires AtlOnly(m.subs)
    ensures AtlOnly(NotifySubscribers(m, target, status, delete).subs)
  {
    SplitMembers(m.subs, target);
  }

  lemma AtlOnlyReleasingDone(m: Machine, status: RsrcStatus, answer: Answer)
    requires AtlOnly(m.subs) && !m.ds
    ensures AtlOnly(OnReleasingDone(m, status, answer).subs)
  {
    AtlOnlyNotify(m, Inactive, status, true);
    SendKeepsState(NotifySubscribers(m, Inactive, status, true).(state := Pending), REQUEST, answer);
  }

  lemma AtlOnlyOnEvent(m: Machine, status: RsrcStatus, answer: Answer)
    requires AtlOnly(m.subs) && !m.ds
    ensures AtlOnly(OnRsrcEvent(m, status, answer).subs)
  {
    var h := m.(log := m.log + [Heard(m.state, status)]);
    match m.state
    case Releasing => AtlOnlyReleasingDone(h, status, answer);
    case _ => AtlOnlyNotify(h, All, status, true);
  }

  lemma AtlOnlyKept(m: Machine, input: Input)
    requires AtlOnly(m.subs) && !m.ds && (input.Subscribe? ==> input.kind == ATL && input.key.addr == "")
    ensures AtlOnly(Step(m, input).subs)
  {
    match input
    case Subscribe(kind, key, answer) =>
    case Unsubscribe(key, answer) =>
      if IndexOf(m.subs, key) < |m.subs| {
        AtlOnlyLeave(m, IndexOf(m.subs, key));
        UnsubscribeSubs(m, IndexOf(m.subs, key), answer);
      }
    case FrameworkEvent(status, answer) => AtlOnlyOnEvent(m, status, answer);
    case DropAll =>
  }

  lemma AtlMachineKept(m: Machine, input: Input)
    requires AtlMachine(m) && (input.Subscribe? ==> input.kind == ATL && input.key.addr == "")
    ensures AtlMachine(Step(m, input))
  {
    StepKeepsInv(m, input);
    AtlOnlyKept(m, input);
  }

  lemma EngineStepKeepsInv(e: Engine, input: EngineInput)
    requires EngineInv(e)
    ensures EngineInv(EngineStep(e, input))
  {
    match input
    case RequestATL(supl, id, answer) =>
      var nif := if supl then AGNSS else INTERNET;
      if Get(e, nif).Some? {
        AtlMachineKept(Get(e, nif).value, Subscribe(ATL, AtlKey(id), answer));
      }
    case RequestSuplES(id, answer) =>
      if e.data.Some? {
        StepKeeps(e.data.value, Subscribe(DS, AtlKey(id), answer));
      } else if e.agnss.Some? {
        AtlMachineKept(e.agnss.value, Subscribe(ATL, AtlKey(id), answer));
      }
    case ReleaseATL(id, answer) => ReleaseKeepsInv(e, id, answer);
    case NifEvent(nif, status, answer) =>
      if Get(e, nif).Some? {
        if nif == DATA {
          StepKeeps(e.data.value, FrameworkEvent(status, answer));
        } else {
          AtlMachineKept(Get(e, nif).value, FrameworkEvent(status, answer));
        }
      }
    case DataClientUp =>
    case EngineUp =>
      if e.agnss.Some? { AtlMachineKept(e.agnss.value, DropAll); }
      if e.internet.Some? { AtlMachineKept(e.internet.value, DropAll); }
  }

  lemma ReleaseKeepsInv(e: Engine, id: Id, answer: Answer)
    requires EngineInv(e)
    ensures EngineInv(ReleaseAtl(e, id, answer))
  {
    var input := Unsubscribe(AtlKey(id), answer);
    if Holds(e.agnss, id) {
      AtlMachineKept(e.agnss.value, input);
    } else if Holds(e.internet, id) {
      AtlMachineKept(e.internet.value, input);
    } else if Holds(e.data, id) {
      StepKeeps(e.data.value, input);
    }
  }

  lemma {:induction false} EngineRunKeepsInv(e: Engine, inputs: seq<EngineInput>)
    requires EngineInv(e)
    ensures EngineInv(EngineRun(e, inputs))
    decreases |inputs|
  {
    if inputs != [] {
      EngineStepKeepsInv(e, inputs[0]);
      EngineRunKeepsInv(EngineStep(e, inputs[0]), inputs[1..]);
    }
  }

  // ---------- Which machine a message reaches ----------

  /** One machine has taken a step; the others are as they were, and its new history is what was called. */
  ghost predicate Stepped(e: Engine, f: Engine, nif: Nif, input: Input) {
    && Get(e, nif).Some? && Get(f, nif) == Some(Step(Get(e, nif).value, input))
    && (nif != AGNSS ==> f.agnss == e.agnss)
    && (nif != INTERNET ==> f.internet == e.internet)
    && (nif != DATA ==> f.data == e.data)
    && f.calls == e.calls + Made(Get(e, nif).value, Get(f, nif).value)
  }

  /** The request fails at once: nothing changes but the report to the modem. */
  predicate Refused(e: Engine, f: Engine, id: Id) {
    f == e.(calls := e.calls + [AtlOpenStatus(id, false)])
  }

  /** A SUPL request goes to the AGNSS machine, any other to the internet machine; without the machine it fails. */
  lemma RequestReaches(e: Engine, supl: bool, id: Id, answer: Answer)
    ensures var f := EngineStep(e, RequestATL(supl, id, answer));
      && (supl && e.agnss.Some? ==> Stepped(e, f, AGNSS, Subscribe(ATL, Key(id, ""), answer)))
      && (!supl && e.internet.Some? ==> Stepped(e, f, INTERNET, Subscribe(ATL, Key(id, ""), answer)))
      && ((if supl then e.agnss else e.internet) == None ==> Refused(e, f, id))
  {
  }

  /** An emergency request goes to the data-services machine if there is one, else to the AGNSS machine. */
  lemma EmergencyReaches(e: Engine, id: Id, answer: Answer)
    ensures var f := EngineStep(e, RequestSuplES(id, answer));
      && (e.data.Some? ==> Stepped(e, f, DATA, Subscribe(DS, Key(id, ""), answer)))
      && (e.data == None && e.agnss.Some? ==> Stepped(e, f, AGNSS, Subscribe(ATL, Key(id, ""), answer)))
      && (e.data == None && e.agnss == None ==> Refused(e, f, id))
  {
  }

  /** The machine has a subscriber with the handle. */
  predicate Listed(m: Option<Machine>, id: Id) {
    m.Some? && exists s :: s in m.value.subs && s.key == Key(id, "")
  }

  lemma HoldsIffListed(m: Option<Machine>, id: Id)
    ensures Holds(m, id) <==> Listed(m, id)
  {
    if m.Some? {
      var subs := m.value.subs;
      var i := IndexOf(subs, AtlKey(id));
      if i < |subs| {
        assert subs[i] in subs;
      }
    }
  }

  /** A release goes to the first of the three machines that has a subscriber with the handle. */
  lemma ReleaseReaches(e: Engine, id: Id, answer: Answer)
    ensures var f := EngineStep(e, ReleaseATL(id, answer));
      var input := Unsubscribe(Key(id, ""), answer);
      && (Listed(e.agnss, id) ==> Stepped(e, f, AGNSS, input))
      && (!Listed(e.agnss, id) && Listed(e.internet, id) ==> Stepped(e, f, INTERNET, input))
      && (!Listed(e.agnss, id) && !Listed(e.internet, id) && Listed(e.data, id) ==> Stepped(e, f, DATA, input))
      && (!Listed(e.agnss, id) && !Listed(e.internet, id) && !Listed(e.data, id) ==>
            f == e.(calls := e.calls + [AtlCloseStatus(id, false)]))
  {
    HoldsIffListed(e.agnss, id);
    HoldsIffListed(e.internet, id);
    HoldsIffListed(e.data, id);
  }

  /** An event reaches its machine alone; a data client replaces the data-services machine by a new one. */
  lemma EventReaches(e: Engine, nif: Nif, status: RsrcStatus, answer: Answer)
    ensures var f := EngineStep(e, NifEvent(nif, status, answer));
      if Get(e, nif).Some? then Stepped(e, f, nif, FrameworkEvent(status, answer)) else f == e
    ensures EngineStep(e, DataClientUp) == e.(data := Some(Machine(true, false, Released, [], 0, [])))
  {
  }

  /** After initialization every machine there is is Released without subscribers, and none is for data services. */
  lemma NewEngineMachines(hasAgnss: bool)
    ensures var e, m := NewEngine(hasAgnss), Machine(false, false, Released, [], 0, []);
      && e.agnss == (if hasAgnss then Some(m) else None)
      && e.internet == Some(m) && e.data == None && e.calls == []
  {
  }

  /** An engine restart empties the lists of the AGNSS and internet machines and changes nothing else. */
  lemma RestartDrops(e: Engine)
    ensures var f := EngineStep(e, EngineUp);
      && f.data == e.data && f.calls == e.calls
      && (e.agnss == None ==> f.agnss == None) && (e.internet == None ==> f.internet == None)
      && (e.agnss.Some? ==> f.agnss == Some(e.agnss.value.(subs := [])))
      && (e.internet.Some? ==> f.internet == Some(e.internet.value.(subs := [])))
  {
  }

  /** What a machine calls in a step is what its history has gained. */
  lemma CallsGained(m: Machine, n: Machine)
    requires m.log <= n.log
    ensures Calls(n.log) == Calls(m.log) + Made(m, n)
  {
    AgpsReports.CallsConcat(m.log, n.log[|m.log|..]);
    assert n.log == m.log + n.log[|m.log|..];
  }

  // ---------- Close reports ----------

  function CloseReports(calls: seq<AdapterCall>): seq<AdapterCall> {
    if calls == [] then []
    else (if calls[0].AtlCloseStatus? then [calls[0]] else []) + CloseReports(calls[1..])
  }

  lemma {:induction false} CloseReportsConcat(a: seq<AdapterCall>, b: seq<AdapterCall>)
    ensures CloseReports(a + b) == CloseReports(a) + CloseReports(b)
  {
    if a == [] {
      assert a + b == b;
    } else {
      var first := if a[0].AtlCloseStatus? then [a[0]] else [];
      CloseReportsConcat(a[1..], b);
      assert (a + b)[1..] == a[1..] + b;
      Assoc(first, CloseReports(a[1..]), CloseReports(b));
    }
  }

  /** The close reports of a history, mark by mark. */
  function Closes(log: seq<Mark>): seq<AdapterCall> {
    if log == [] then [] else Closes(log[..|log| - 1]) + CloseReports(CallsOf(log[|log| - 1]))
  }

  lemma {:induction false} ClosesAreReports(log: seq<Mark>)
    ensures CloseReports(Calls(log)) == Closes(log)
    decreases |log|
  {
    if log != [] {
      ClosesAreReports(log[..|log| - 1]);
      CloseReportsConcat(Calls(log[..|log| - 1]), CallsOf(log[|log| - 1]));
    }
  }

  lemma ClosesQuietMark(log: seq<Mark>, mark: Mark)
    requires !mark.Told?
    ensures Closes(log + [mark]) == Closes(log)
  {
    assert (log + [mark])[..|log|] == log;
    assert CloseReports(CallsOf(mark)) == [];
  }

  lemma ShiftOne(log: seq<Mark>, tail: seq<Mark>)
    requires tail != []
    ensures log + tail == (log + [tail[0]]) + tail[1..]
  {}

  lemma {:induction false} QuietTail(log: seq<Mark>, tail: seq<Mark>)
    requires forall j :: 0 <= j < |tail| ==> !tail[j].Told?
    ensures Closes(log + tail) == Closes(log)
    decreases |tail|
  {
    if tail == [] {
      assert log + tail == log;
    } else {
      ClosesQuietMark(log, tail[0]);
      QuietTail(log + [tail[0]], tail[1..]);
      ShiftOne(log, tail);
    }
  }

  /** A request, whatever its answer, tells no subscriber anything. */
  lemma SendIsQuiet(m: Machine, action: Action, answer: Answer) returns (tail: seq<Mark>)
    ensures Agps.SendRsrcRequest(m, action, answer).0.log == m.log + tail
    ensures forall j :: 0 <= j < |tail| ==> !tail[j].Told?
  {
    var n := Agps.SendRsrcRequest(m, action, answer).0;
    tail := n.log[|m.log|..];
  }

  /** Leaving tells the subscriber, and only it, of the unsubscription. */
  lemma LeaveClosesOne(m: Machine, i: nat)
    requires DistinctKeys(m.subs) && i < |m.subs| && (m.subs[i].kind == ATL || m.subs[i].kind == DS)
    ensures Leave(m, i).log == m.log + [Told(m.subs[i].kind, m.subs[i].key, UNSUBSCRIBE)]
  {
    if m.subs[i].kind == ATL {
      MatchingOne(m.subs, i);
    }
  }

  /** An unsubscription tells the one subscriber, and then at most sends a request. */
  lemma UnsubscribeLog(m: Machine, i: nat, answer: Answer) returns (tail: seq<Mark>)
    requires DistinctKeys(m.subs) && i < |m.subs| && (m.subs[i].kind == ATL || m.subs[i].kind == DS)
    ensures OnUnsubscribe(m, i, answer).log == m.log + [Told(m.subs[i].kind, m.subs[i].key, UNSUBSCRIBE)] + tail
    ensures forall j :: 0 <= j < |tail| ==> !tail[j].Told?
  {
    tail := [];
    if m.state != Released {
      LeaveClosesOne(m, i);
      var n := Leave(m, i);
      if m.state != Releasing && n.subs == [] {
        tail := SendIsQuiet(n.(state := Released), RELEASE, answer);
      } else if m.state != Releasing && !HasActive(n.subs) {
        tail := SendIsQuiet(n.(state := Releasing), RELEASE, answer);
      }
    }
  }

  lemma HolderClosesOne(m: Machine, id: Id, answer: Answer)
    requires AtlMachine(m) || DsInv(m)
    requires Holds(Some(m), id)
    ensures var n := UnsubscribeRsrc(m, AtlKey(id), answer).0;
      CloseReports(Made(m, n)) == [AtlCloseStatus(id, true)]
  {
    var i := IndexOf(m.subs, AtlKey(id));
    assert m.subs[i] in m.subs;
    var told := Told(m.subs[i].kind, m.subs[i].key, UNSUBSCRIBE);
    var tail := UnsubscribeLog(m, i, answer);
    TailAfter(m.log, told, tail);
    ClosesTold(told);
    QuietTail([told], tail);
    ClosesAreReports([told] + tail);
  }

  lemma TailAfter(log: seq<Mark>, mark: Mark, tail: seq<Mark>)
    ensures (log + [mark] + tail)[|log|..] == [mark] + tail
  {}

  lemma ClosesTold(told: Mark)
    requires told.Told? && told.status == UNSUBSCRIBE && (told.kind == ATL || told.kind == DS)
    ensures Closes([told]) == [AtlCloseStatus(told.key.id, true)]
  {
    assert CloseReports(CallsOf(told)) == [AtlCloseStatus(told.key.id, true)];
    assert [told][..0] == [];
  }

  /**
   Each release reports exactly one close, for its own handle, successful iff some
   machine holds the handle; only the first machine that holds it changes.
   */
  lemma ReleaseReportsOnce(e: Engine, id: Id, answer: Answer)
    requires EngineInv(e)
    ensures var f := ReleaseAtl(e, id, answer);
      && e.calls <= f.calls
      && CloseReports(f.calls[|e.calls|..]) ==
         [AtlCloseStatus(id, Holds(e.agnss, id) || Holds(e.internet, id) || Holds(e.data, id))]
      && (!Holds(e.agnss, id) ==> f.agnss == e.agnss)
      && (!Holds(e.internet, id) || Holds(e.agnss, id) ==> f.internet == e.internet)
      && (!Holds(e.data, id) || Holds(e.agnss, id) || Holds(e.internet, id) ==> f.data == e.data)
  {
    var f := ReleaseAtl(e, id, answer);
    if Holds(e.agnss, id) {
      HolderClosesOne(e.agnss.value, id, answer);
      assert f.calls[|e.calls|..] == Made(e.agnss.value, f.agnss.value);
    } else if Holds(e.internet, id) {
      HolderClosesOne(e.internet.value, id, answer);
      assert f.calls[|e.calls|..] == Made(e.internet.value, f.internet.value);
    } else if Holds(e.data, id) {
      HolderClosesOne(e.data.value, id, answer);
      assert f.calls[|e.calls|..] == Made(e.data.value, f.data.value);
    } else {
      assert f.calls[|e.calls|..] == [AtlCloseStatus(id, false)];
    }
  }

  /** So does every release after any run of the engine. */
  lemma EveryReleaseReportsOnce(hasAgnss: bool, inputs: seq<EngineInput>, id: Id, answer: Answer)
    ensures var e := EngineRun(NewEngine(hasAgnss), inputs);
      var f := EngineStep(e, ReleaseATL(id, answer));
      && e.calls <= f.calls
      && CloseReports(f.calls[|e.calls|..]) ==
         [AtlCloseStatus(id, Holds(e.agnss, id) || Holds(e.internet, id) || Holds(e.data, id))]
  {
    EngineRunKeepsInv(NewEngine(hasAgnss), inputs);
    ReleaseReportsOnce(EngineRun(NewEngine(hasAgnss), inputs), id, answer);
  }
}
