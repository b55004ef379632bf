/**
 What the machines of gps/libloc_api_50001/loc_eng_agps.cpp tell the outside: the answers of each
 kind of subscriber, and what a data-services machine does with each answer to its request.
 */
module AgpsReports {
  import opened Sequences
  import opened Agps
  import opened AgpsRuns
  import opened AgpsDsRuns

  // ---------- Who is meant ----------

  /** Subscribers are equal when their IDs are, and for BIT without an IPv4 address their IPv6 texts. */
  lemma KeysAgree(kind: Kind, id: Id, addr: string, id': Id, addr': string)
    ensures KeyOf(kind, id, addr) == KeyOf(kind, id', addr') <==>
      id == id' && (kind == BIT && id == 0xFFFF_FFFF ==> addr == addr')
  {
  }

  /** The ID of the first subscriber that is not inactive, or -1 when all are. */
  ghost predicate FirstActive(subs: seq<Subscription>, id: int) {
    || (exists i :: 0 <= i < |subs| && !subs[i].inactive && subs[i].key.id == id && forall j :: 0 <= j < i ==> subs[j].inactive)
    || ((forall j :: 0 <= j < |subs| ==> subs[j].inactive) && id == -1)
  }

  lemma {:induction false} ActiveIdIsFirst(subs: seq<Subscription>)
    ensures FirstActive(subs, ActiveId(subs))
  {
    if subs != [] && subs[0].inactive {
      var rest := subs[1..];
      ActiveIdIsFirst(rest);
      if i: nat :| 0 <= i < |rest| && !rest[i].inactive && rest[i].key.id == ActiveId(rest) && forall j :: 0 <= j < i ==> rest[j].inactive {
        assert !subs[i + 1].inactive && subs[i + 1].key.id == ActiveId(subs);
        assert forall j :: 0 < j < i + 1 ==> subs[j] == rest[j - 1];
      } else {
        assert forall j :: 0 < j < |subs| ==> subs[j] == rest[j - 1];
      }
    }
  }

  lemma OnlyOneFirst(subs: seq<Subscription>, id: int, other: int)
    requires FirstActive(subs, id) && FirstActive(subs, other)
    ensures id == other
  {
  }

  // ---------- The answer to a request ----------

  lemma Appended(log: seq<Mark>, a: Mark, b: Mark, c: Mark)
    ensures log + [a] + [b] == log + [a, b] && log + [a] + [b] + [c] == log + [a, b, c]
  {
  }

  /** A fallback is reported for the first active subscriber, and ends the retries. */
  lemma FallsBack(m: Machine, action: Action, answer: Answer, id: int)
    requires m.ds && FirstActive(m.subs, id) && (answer == UNSUPPORTED || answer == FAILED)
    ensures SendRsrcRequest(m, action, answer) == (m.(log := m.log + [Sent(action), FellBack(id)], retries := 0), false)
  {
    ActiveIdIsFirst(m.subs);
    OnlyOneFirst(m.subs, id, ActiveId(m.subs));
    Appended(m.log, Sent(action), FellBack(id), Busy);
  }

  /** Below four retries a busy answer is counted, and the timer starts if it can. */
  lemma BusyRetries(m: Machine, action: Action, timerStarts: bool)
    requires m.ds && m.retries < 4
    ensures var marks := if timerStarts then [Sent(action), Busy, TimerStarted] else [Sent(action), Busy];
      SendRsrcRequest(m, action, BUSY(timerStarts)) == (m.(log := m.log + marks, retries := m.retries + 1), false)
  {
    Appended(m.log, Sent(action), Busy, TimerStarted);
  }

  /** At four retries a busy answer makes the machine fall back, for the first active subscriber. */
  lemma BusyFallsBack(m: Machine, action: Action, timerStarts: bool, id: int)
    requires m.ds && m.retries == 4 && FirstActive(m.subs, id)
    ensures SendRsrcRequest(m, action, BUSY(timerStarts)) ==
      (m.(log := m.log + [Sent(action), Busy, FellBack(id)], retries := 0), false)
  {
    ActiveIdIsFirst(m.subs);
    OnlyOneFirst(m.subs, id, ActiveId(m.subs));
    Appended(m.log, Sent(action), Busy, FellBack(id));
  }

  /** Any other answer leaves the request as it is; only success is success. */
  lemma OtherAnswers(m: Machine, action: Action, answer: Answer)
    requires m.ds && (answer == SUCCESS || answer == OTHER)
    ensures SendRsrcRequest(m, action, answer) == (m.(log := m.log + [Sent(action)]), answer == SUCCESS)
  {
  }

  /** In every run of a data-services machine: what it does with the answer to a request. */
  lemma AnswerExact(inputs: seq<Input>, action: Action, answer: Answer, id: int)
    requires FitsRun(NewMachine(true, false), inputs)
    requires FirstActive(Run(NewMachine(true, false), inputs).subs, id)
    ensures var m := Run(NewMachine(true, false), inputs);
      var (n, ok) := SendRsrcRequest(m, action, answer);
      && n == m.(log := n.log, retries := n.retries) && (ok <==> answer == SUCCESS)
      && match answer
         case SUCCESS => n.log == m.log + [Sent(action)] && n.retries == m.retries
         case OTHER => n.log == m.log + [Sent(action)] && n.retries == m.retries
         case UNSUPPORTED => n.log == m.log + [Sent(action), FellBack(id)] && n.retries == 0
         case FAILED => n.log == m.log + [Sent(action), FellBack(id)] && n.retries == 0
         case BUSY(timerStarts) =>
           if m.retries == 4 then n.log == m.log + [Sent(action), Busy, FellBack(id)] && n.retries == 0
           else
             && n.log == m.log + (if timerStarts then [Sent(action), Busy, TimerStarted] else [Sent(action), Busy])
             && n.retries == m.retries + 1
  {
    var m := Run(NewMachine(true, false), inputs);
    DsRunKeeps(NewMachine(true, false), inputs);
    match answer
    case BUSY(timerStarts) =>
      if m.retries == 4 {
        BusyFallsBack(m, action, timerStarts, id);
      } else {
        BusyRetries(m, action, timerStarts);
      }
    case UNSUPPORTED => FallsBack(m, action, answer, id);
    case FAILED => FallsBack(m, action, answer, id);
    case _ => OtherAnswers(m, action, answer);
  }

  // ---------- Leaving, by kind ----------

  /** BIT and ATL subscribers are deleted and told; WIFI ones are marked; DS ones are marked and told. */
  lemma LeaveByKind(m: Machine, i: nat)
    requires DistinctKeys(m.subs) && i < |m.subs|
    ensures var n, s := Leave(m, i), m.subs[i];
      && (s.kind == BIT || s.kind == ATL ==> forall x :: x in n.subs <==> x in m.subs && x != s)
      && (s.kind == WIFI || s.kind == DS ==> n.subs == m.subs[i := Subscription(s.kind, s.key, true)])
      && n.log == m.log + if s.kind == WIFI then [] else [Told(s.kind, s.key, UNSUBSCRIBE)]
  {
    var s := m.subs[i];
    if s.kind == BIT || s.kind == ATL {
      SplitMembers(m.subs, One(s.key));
      MatchingOne(m.subs, i);
      assert Notices([s], UNSUBSCRIBE) == [Told(s.kind, s.key, UNSUBSCRIBE)];
    }
  }

  /** An unsubscription is found exactly when a subscriber with the key is listed, and changes nothing otherwise. */
  lemma UnsubscribeFinds(m: Machine, key: Key, answer: Answer)
    ensures var (n, found) := UnsubscribeRsrc(m, key, answer);
      (found <==> exists s :: s in m.subs && s.key == key) && (!found ==> n == m)
  {
    var i := IndexOf(m.subs, key);
    if i < |m.subs| {
      assert m.subs[i] in m.subs;
    }
  }

  // ---------- What each kind of subscriber reports ----------

  lemma CallsNext(log: seq<Mark>, mark: Mark)
    ensures Calls(log + [mark]) == Calls(log) + CallsOf(mark)
  {
    assert (log + [mark])[..|log|] == log;
  }

  lemma LastApart(a: seq<Mark>, b: seq<Mark>)
    requires b != []
    ensures var n := |b| - 1; b == b[..n] + [b[n]] && a + b == (a + b[..n]) + [b[n]]
  {
  }

  lemma {:induction false} CallsConcat(a: seq<Mark>, b: seq<Mark>)
    ensures Calls(a + b) == Calls(a) + Calls(b)
    decreases |b|
  {
    if b == [] {
      assert a + b == a;
    } else {
      var n := |b| - 1;
      CallsConcat(a, b[..n]);
      LastApart(a, b);
      CallsNext(a + b[..n], b[n]);
      CallsNext(b[..n], b[n]);
      Assoc(Calls(a), Calls(b[..n]), CallsOf(b[n]));
    }
  }

  /** If each notice is one adapter call, the notices are these calls, in order. */
  lemma {:induction false} OneCallEach(told: seq<Subscription>, status: RsrcStatus, calls: seq<AdapterCall>)
    requires |calls| == |told|
    requires forall i :: 0 <= i < |told| ==> CallsOf(Told(told[i].kind, told[i].key, status)) == [calls[i]]
    ensures Calls(Notices(told, status)) == calls
    decreases |told|
  {
    var notices := Notices(told, status);
    if told == [] {
      assert notices == [];
    } else {
      var n := |told| - 1;
      OneCallEach(told[..n], status, calls[..n]);
      assert notices[..n] == Notices(told[..n], status);
      assert calls == calls[..n] + [calls[n]];
    }
  }

  function Opens(told: seq<Subscription>, success: bool): (r: seq<AdapterCall>) {
    seq(|told|, i requires 0 <= i < |told| => AtlOpenStatus(told[i].key.id, success))
  }

  function Closes(told: seq<Subscription>): (r: seq<AdapterCall>) {
    seq(|told|, i requires 0 <= i < |told| => AtlCloseStatus(told[i].key.id, true))
  }

  function AtlRequests(told: seq<Subscription>): (r: seq<AdapterCall>) {
    seq(|told|, i requires 0 <= i < |told| => RequestAtl(told[i].key.id))
  }

  function DataCloses(told: seq<Subscription>): (r: seq<AdapterCall>) {
    seq(|told|, i requires 0 <= i < |told| => CloseDataCall)
  }

  /** To the GPSONE daemon, or to each sender. */
  function ServerCalls(told: seq<Subscription>, daemon: bool, result: RsrcStatus): (r: seq<AdapterCall>) {
    seq(|told|, i requires 0 <= i < |told| => ServerDataConn(daemon, if daemon then 0 else told[i].key.id, result))
  }

  lemma {:induction false} NoCalls(log: seq<Mark>)
    requires forall i :: 0 <= i < |log| ==> CallsOf(log[i]) == []
    ensures Calls(log) == []
  {
    if log != [] {
      NoCalls(log[..|log| - 1]);
    }
  }

  predicate AllOf(subs: seq<Subscription>, kind: Kind) {
    forall s :: s in subs ==> s.kind == kind
  }

  /** ATL subscribers report an open that succeeded or failed, and a close. */
  lemma AtlReports(told: seq<Subscription>, status: RsrcStatus)
    requires AllOf(told, ATL)
    ensures Calls(Notices(told, status)) ==
      match status
      case GRANTED => Opens(told, true)
      case DENIED => Opens(told, false)
      case RELEASED => Closes(told)
      case UNSUBSCRIBE => Closes(told)
  {
    var calls := match status
      case GRANTED => Opens(told, true)
      case DENIED => Opens(told, false)
      case RELEASED => Closes(told)
      case UNSUBSCRIBE => Closes(told);
    OneCallEach(told, status, calls);
  }

  /** A denied DS subscriber asks for an ordinary connection; a release closes the data call. */
  lemma DsReports(told: seq<Subscription>, status: RsrcStatus)
    requires AllOf(told, DS)
    ensures Calls(Notices(told, status)) ==
      match status
      case GRANTED => Opens(told, true)
      case DENIED => AtlRequests(told)
      case RELEASED => DataCloses(told)
      case UNSUBSCRIBE => Closes(told)
  {
    var calls := match status
      case GRANTED => Opens(told, true)
      case DENIED => AtlRequests(told)
      case RELEASED => DataCloses(told)
      case UNSUBSCRIBE => Closes(told);
    OneCallEach(told, status, calls);
  }

  /** BIT subscribers report to the GPSONE daemon, the end of a subscription as a release. */
  lemma BitReports(told: seq<Subscription>, status: RsrcStatus)
    requires AllOf(told, BIT)
    ensures Calls(Notices(told, status)) ==
      match status
      case GRANTED => ServerCalls(told, true, GRANTED)
      case DENIED => ServerCalls(told, true, DENIED)
      case RELEASED => ServerCalls(told, true, RELEASED)
      case UNSUBSCRIBE => ServerCalls(told, true, RELEASED)
  {
    var calls := match status
      case GRANTED => ServerCalls(told, true, GRANTED)
      case DENIED => ServerCalls(told, true, DENIED)
      case RELEASED => ServerCalls(told, true, RELEASED)
      case UNSUBSCRIBE => ServerCalls(told, true, RELEASED);
    OneCallEach(told, status, calls);
  }

  /** WIFI subscribers report to their senders, and not the end of a subscription. */
  lemma WifiReports(told: seq<Subscription>, status: RsrcStatus)
    requires AllOf(told, WIFI)
    ensures Calls(Notices(told, status)) ==
      match status
      case GRANTED => ServerCalls(told, false, GRANTED)
      case DENIED => ServerCalls(told, false, DENIED)
      case RELEASED => ServerCalls(told, false, RELEASED)
      case UNSUBSCRIBE => []
  {
    if status == UNSUBSCRIBE {
      NoCalls(Notices(told, status));
    } else {
      OneCallEach(told, status, ServerCalls(told, false, status));
    }
  }

  lemma FallBackReports(log: seq<Mark>, id: int)
    ensures Calls(log + [FellBack(id)]) == Calls(log) + [RequestAtl(id)]
  {
    CallsNext(log, FellBack(id));
  }

  /** Requests, their busy answers, timers and what a machine hears are reported to nobody. */
  lemma OtherMarksQuiet(log: seq<Mark>, mark: Mark)
    requires !mark.Told? && !mark.FellBack?
    ensures Calls(log + [mark]) == Calls(log)
  {
    CallsNext(log, mark);
  }

  // ---------- Whole steps ----------

  lemma StepCalls(log: seq<Mark>, mark: Mark, told: seq<Subscription>, status: RsrcStatus)
    requires mark.Heard?
    ensures Calls(log + [mark] + Notices(told, status)) == Calls(log) + Calls(Notices(told, status))
  {
    CallsConcat(log + [mark], Notices(told, status));
    OtherMarksQuiet(log, mark);
  }

  /** A grant reports to the modem one successful open for each active subscriber of an ATL machine, in order. */
  lemma GrantReported(m: Machine)
    requires m.state == Pending && AllOf(m.subs, ATL)
    ensures Calls(OnGranted(m).log) ==
      Calls(m.log) + Opens(Matching(m.subs, Active), true)
  {
    SplitMembers(m.subs, Active);
    AtlReports(Matching(m.subs, Active), GRANTED);
    StepCalls(m.log, Heard(Pending, GRANTED), Matching(m.subs, Active), GRANTED);
  }

  /** A denial reports one failed open for every subscriber. */
  lemma DenialReported(m: Machine, answer: Answer)
    requires m.state == Pending && AllOf(m.subs, ATL)
    ensures Calls(OnDenied(m, answer).log) == Calls(m.log) + Opens(m.subs, false)
  {
    AllMatch(m.subs);
    AtlReports(m.subs, DENIED);
    StepCalls(m.log, Heard(Pending, DENIED), m.subs, DENIED);
  }

  /** A release in Acquired reports one close for every subscriber. */
  lemma ReleaseReported(m: Machine, answer: Answer)
    requires m.state == Acquired && AllOf(m.subs, ATL)
    ensures Calls(OnReleased(m, answer).log) == Calls(m.log) + Closes(m.subs)
  {
    AllMatch(m.subs);
    AtlReports(m.subs, RELEASED);
    StepCalls(m.log, Heard(Acquired, RELEASED), m.subs, RELEASED);
  }

  /** A data-services machine that is denied asks for an ordinary connection for every subscriber. */
  lemma DsDenialReported(m: Machine, answer: Answer)
    requires m.state == Pending && AllOf(m.subs, DS)
    ensures Calls(OnDenied(m, answer).log) == Calls(m.log) + AtlRequests(m.subs)
  {
    AllMatch(m.subs);
    DsReports(m.subs, DENIED);
    StepCalls(m.log, Heard(Pending, DENIED), m.subs, DENIED);
  }
}
