/**
 When a subscription is lost for good, in either class of machine: it found an inactive entry
 with its key, and the events that follow delete that entry without an answer.
 */
module AgpsLostSubscriptions {
  import opened Agps
  import opened AgpsRuns
  import opened AgpsSubscriptions
  import opened AgpsSubscriptionSteps
  import opened AgpsSubscriptionRuns

  // ---------- A released machine has no inactive entry ----------

  predicate AllActive(subs: seq<Subscription>) {
    forall s :: s in subs ==> !s.inactive
  }

  predicate IdleInv(m: Machine) {
    m.state == Released ==> AllActive(m.subs)
  }

  lemma SubscribeIdle(m: Machine, kind: Kind, key: Key, answer: Answer)
    requires IdleInv(m)
    ensures IdleInv(OnSubscribe(m, kind, key, answer))
  {
    SubscribeSubs(m, kind, key, answer);
  }

  lemma UnsubscribeIdle(m: Machine, i: nat, answer: Answer)
    requires IdleInv(m) && i < |m.subs|
    ensures IdleInv(OnUnsubscribe(m, i, answer))
  {
    var n := Leave(m, i);
    SendLeaves(n.(state := Released), RELEASE, answer);
    SendLeaves(n.(state := Releasing), RELEASE, answer);
  }

  lemma ReleasingDoneIdle(m: Machine, status: RsrcStatus, answer: Answer)
    ensures IdleInv(OnReleasingDone(m, status, answer))
  {
    SplitMembers(m.subs, Inactive);
    SendLeaves(NotifySubscribers(m, Inactive, status, true).(state := Pending), REQUEST, answer);
  }

  lemma ReleasedIdle(m: Machine, answer: Answer)
    requires IdleInv(m)
    ensures IdleInv(OnReleased(m, answer))
  {
    SplitMembers(m.subs, All);
    ReleasingDoneIdle(m.(log := m.log + [Heard(m.state, RELEASED)]), RELEASED, answer);
  }

  lemma DeniedIdle(m: Machine, answer: Answer)
    requires IdleInv(m)
    ensures IdleInv(OnDenied(m, answer))
  {
    SplitMembers(m.subs, All);
    ReleasingDoneIdle(m.(log := m.log + [Heard(m.state, DENIED)]), DENIED, answer);
  }

  lemma StepIdle(m: Machine, input: Input)
    requires IdleInv(m)
    ensures IdleInv(Step(m, input))
  {
    match input
    case Subscribe(kind, key, answer) => SubscribeIdle(m, kind, key, answer);
    case Unsubscribe(key, answer) =>
      if IndexOf(m.subs, key) < |m.subs| {
        UnsubscribeIdle(m, IndexOf(m.subs, key), answer);
      }
    case FrameworkEvent(status, answer) =>
      ReleasedIdle(m, answer);
      DeniedIdle(m, answer);
      DeniedIdle(OnReleased(m, answer), answer);
    case DropAll =>
  }

  lemma {:induction false} RunIdle(m: Machine, inputs: seq<Input>)
    requires IdleInv(m)
    ensures IdleInv(Run(m, inputs))
    decreases |inputs|
  {
    if inputs != [] {
      StepIdle(m, inputs[0]);
      RunIdle(Step(m, inputs[0]), inputs[1..]);
    }
  }

  // ---------- Nothing is said to a key without an entry ----------

  predicate NoEntry(subs: seq<Subscription>, key: Key) {
    forall s :: s in subs ==> s.key != key
  }

  /** The history grows by marks that do not answer the key. */
  predicate Quiet(log: seq<Mark>, more: seq<Mark>, key: Key) {
    log <= more && forall i :: |log| <= i < |more| ==> !IsAnswer(more[i], key)
  }

  lemma QuietTwice(a: seq<Mark>, b: seq<Mark>, c: seq<Mark>, key: Key)
    requires Quiet(a, b, key) && Quiet(b, c, key)
    ensures Quiet(a, c, key)
  {
    forall i | |a| <= i < |c| ensures !IsAnswer(c[i], key) {
      if i < |b| {
        assert c[i] == b[i];
      }
    }
  }

  lemma QuietMark(log: seq<Mark>, mark: Mark, key: Key)
    requires !IsAnswer(mark, key)
    ensures Quiet(log, log + [mark], key)
  {
  }

  /** Notices that are no answers, or are for others. */
  lemma QuietNotices(log: seq<Mark>, told: seq<Subscription>, status: RsrcStatus, key: Key)
    requires (status != GRANTED && status != DENIED) || NoEntry(told, key)
    ensures Quiet(log, log + Notices(told, status), key)
  {
    var notices := Notices(told, status);
    forall i | |log| <= i < |log + notices| ensures !IsAnswer((log + notices)[i], key) {
      assert (log + notices)[i] == notices[i - |log|];
      assert told[i - |log|] in told;
    }
  }

  lemma SendQuiet(m: Machine, action: Action, answer: Answer, key: Key)
    ensures Quiet(m.log, SendRsrcRequest(m, action, answer).0.log, key)
  {
    SendLeaves(m, action, answer);
  }

  /** A step that says nothing to the key, and makes no entry for it. */
  predicate Silent(m: Machine, n: Machine, key: Key) {
    Quiet(m.log, n.log, key) && NoEntry(n.subs, key)
  }

  lemma NotifySilent(m: Machine, target: Target, status: RsrcStatus, delete: bool, key: Key)
    requires NoEntry(m.subs, key)
    ensures Silent(m, NotifySubscribers(m, target, status, delete), key)
  {
    SplitMembers(m.subs, target);
    QuietNotices(m.log, Matching(m.subs, target), status, key);
  }

  lemma JoinSilent(m: Machine, kind: Kind, k: Key, answer: Answer, key: Key)
    requires NoEntry(m.subs, key) && k != key
    ensures Silent(m, Join(m, kind, k, answer), key)
  {
    var me := [Subscription(kind, k, false)];
    JoinSubs(m, kind, k, answer);
    SendQuiet(AddSubscriber(m, kind, k), REQUEST, answer, key);
    QuietNotices(m.log, me, GRANTED, key);
  }

  lemma SubscribeSilent(m: Machine, kind: Kind, k: Key, answer: Answer, key: Key)
    requires NoEntry(m.subs, key) && k != key
    ensures Silent(m, SubscribeRsrc(m, kind, k, answer), key)
  {
    var h := m.(log := m.log + [Subscribing(k)]);
    QuietMark(m.log, Subscribing(k), key);
    JoinSilent(h, kind, k, answer, key);
    QuietTwice(m.log, h.log, Join(h, kind, k, answer).log, key);
    QuietNotices(m.log, [Subscription(kind, k, false)], DENIED, key);
  }

  lemma LeaveSilent(m: Machine, i: nat, key: Key)
    requires NoEntry(m.subs, key) && i < |m.subs|
    ensures Silent(m, Leave(m, i), key)
  {
    var s := m.subs[i];
    assert s in m.subs;
    QuietMark(m.log, Told(DS, s.key, UNSUBSCRIBE), key);
    NotifySilent(m, One(s.key), UNSUBSCRIBE, true, key);
    assert m.log + [] == m.log;
  }

  lemma UnsubscribeSilent(m: Machine, i: nat, answer: Answer, key: Key)
    requires NoEntry(m.subs, key) && i < |m.subs|
    ensures Silent(m, OnUnsubscribe(m, i, answer), key)
  {
    var n := Leave(m, i);
    LeaveSilent(m, i, key);
    QuietNotices(m.log, [m.subs[i]], UNSUBSCRIBE, key);
    forall state: State ensures
      var r := SendRsrcRequest(n.(state := state), RELEASE, answer).0; r.subs == n.subs && Quiet(m.log, r.log, key)
    {
      var r := SendRsrcRequest(n.(state := state), RELEASE, answer).0;
      SendLeaves(n.(state := state), RELEASE, answer);
      SendQuiet(n.(state := state), RELEASE, answer, key);
      QuietTwice(m.log, n.log, r.log, key);
    }
  }

  lemma ReleasingDoneSilent(m: Machine, status: RsrcStatus, answer: Answer, key: Key)
    requires NoEntry(m.subs, key)
    ensures Silent(m, OnReleasingDone(m, status, answer), key)
  {
    var n := NotifySubscribers(m, Inactive, status, true).(state := Pending);
    NotifySilent(m, Inactive, status, true, key);
    SendLeaves(n, REQUEST, answer);
    SendQuiet(n, REQUEST, answer, key);
    QuietTwice(m.log, n.log, SendRsrcRequest(n, REQUEST, answer).0.log, key);
  }

  /** RELEASED or DENIED, heard by the state. */
  lemma HeardSilent(m: Machine, status: RsrcStatus, answer: Answer, key: Key)
    requires NoEntry(m.subs, key) && (status == RELEASED || status == DENIED)
    ensures Silent(m, if status == RELEASED then OnReleased(m, answer) else OnDenied(m, answer), key)
  {
    var h := m.(log := m.log + [Heard(m.state, status)]);
    var n := if status == RELEASED then OnReleased(m, answer) else OnDenied(m, answer);
    QuietMark(m.log, Heard(m.state, status), key);
    NotifySilent(h, All, status, true, key);
    ReleasingDoneSilent(h, status, answer, key);
    assert Quiet(h.log, n.log, key);
    QuietTwice(m.log, h.log, n.log, key);
  }

  lemma GrantedSilent(m: Machine, key: Key)
    requires NoEntry(m.subs, key)
    ensures Silent(m, OnGranted(m), key)
  {
    var h := m.(log := m.log + [Heard(m.state, GRANTED)]);
    QuietMark(m.log, Heard(m.state, GRANTED), key);
    NotifySilent(h, Active, GRANTED, false, key);
    QuietTwice(m.log, h.log, NotifySubscribers(h, Active, GRANTED, false).log, key);
  }

  /** The input is not a subscription with the key. */
  predicate NotFor(input: Input, key: Key) {
    input.Subscribe? ==> input.key != key
  }

  lemma StepSilent(m: Machine, input: Input, key: Key)
    requires NoEntry(m.subs, key) && NotFor(input, key)
    ensures Silent(m, Step(m, input), key)
  {
    match input
    case Subscribe(kind, k, answer) => SubscribeSilent(m, kind, k, answer, key);
    case Unsubscribe(k, answer) =>
      if IndexOf(m.subs, k) < |m.subs| {
        UnsubscribeSilent(m, IndexOf(m.subs, k), answer, key);
      }
    case FrameworkEvent(GRANTED, answer) => GrantedSilent(m, key);
    case FrameworkEvent(DENIED, answer) => HeardSilent(m, DENIED, answer, key);
    case FrameworkEvent(RELEASED, answer) =>
      var n := OnReleased(m, answer);
      HeardSilent(m, RELEASED, answer, key);
      HeardSilent(n, DENIED, answer, key);
      QuietTwice(m.log, n.log, OnDenied(n, answer).log, key);
    case FrameworkEvent(UNSUBSCRIBE, answer) =>
    case DropAll =>
  }

  predicate NoneFor(inputs: seq<Input>, key: Key) {
    forall i :: 0 <= i < |inputs| ==> NotFor(inputs[i], key)
  }

  /** No entry with the key, and no answer to it since that place of the history. */
  predicate Lost(m: Machine, from: nat, key: Key) {
    NoEntry(m.subs, key) && !Answered(m.log, from, key)
  }

  lemma LostStays(m: Machine, n: Machine, from: nat, key: Key)
    requires Lost(m, from, key) && Silent(m, n, key)
    ensures Lost(n, from, key)
  {
    forall i | from <= i < |n.log| ensures !IsAnswer(n.log[i], key) {
      if i < |m.log| {
        assert n.log[i] == m.log[i];
      }
    }
  }

  lemma {:induction false} RunSilent(m: Machine, rest: seq<Input>, from: nat, key: Key)
    requires Lost(m, from, key) && NoneFor(rest, key)
    ensures Lost(Run(m, rest), from, key)
    decreases |rest|
  {
    if rest != [] {
      StepSilent(m, rest[0], key);
      LostStays(m, Step(m, rest[0]), from, key);
      RunSilent(Step(m, rest[0]), rest[1..], from, key);
    }
  }

  /** Whatever comes, the subscription made at that place is never answered, short of a new one with its key. */
  ghost predicate LostForGood(m: Machine, from: nat, key: Key) {
    forall rest: seq<Input> :: NoneFor(rest, key) ==> Lost(Run(m, rest), from, key)
  }

  // ---------- How a subscription is lost ----------

  /** All entries with the key are inactive. */
  predicate OnlyClosing(subs: seq<Subscription>, key: Key) {
    forall s :: s in subs && s.key == key ==> s.inactive
  }

  lemma ClosingAlone(subs: seq<Subscription>, key: Key)
    requires DistinctKeys(subs) && Closing(subs, key)
    ensures OnlyClosing(subs, key) && IndexOf(subs, key) < |subs|
  {
    var c :| c in subs && c.key == key && c.inactive;
    var i :| 0 <= i < |subs| && subs[i] == c;
    assert forall j :: 0 <= j < |subs| && subs[j].key == key ==> j == i;
  }

  /** A subscription that finds the inactive entry leaves a mark and nothing else. */
  lemma SubscribeUnseen(m: Machine, kind: Kind, key: Key, answer: Answer)
    requires IndexOf(m.subs, key) < |m.subs| && (m.state == Pending || m.state == Releasing)
    ensures OnSubscribe(m, kind, key, answer) == m.(log := m.log + [Subscribing(key)])
  {
  }

  lemma ReleasingLoses(m: Machine, key: Key)
    requires m.state == Releasing && OnlyClosing(m.subs, key)
    ensures Silent(m, Step(m, FrameworkEvent(RELEASED, SUCCESS)), key)
  {
    var h := m.(log := m.log + [Heard(Releasing, RELEASED)]);
    var n := NotifySubscribers(h, Inactive, RELEASED, true);
    QuietMark(m.log, Heard(Releasing, RELEASED), key);
    SplitMembers(m.subs, Inactive);
    QuietNotices(h.log, Matching(m.subs, Inactive), RELEASED, key);
    QuietTwice(m.log, h.log, n.log, key);
    SendLeaves(n.(state := Pending), REQUEST, SUCCESS);
    SendQuiet(n.(state := Pending), REQUEST, SUCCESS, key);
    QuietTwice(m.log, n.log, OnReleasingDone(h, RELEASED, SUCCESS).log, key);
  }

  lemma PendingGrants(m: Machine, key: Key)
    requires m.state == Pending && OnlyClosing(m.subs, key)
    ensures var n := Step(m, FrameworkEvent(GRANTED, SUCCESS));
      n.state == Acquired && n.subs == m.subs && Quiet(m.log, n.log, key)
  {
    var h := m.(log := m.log + [Heard(Pending, GRANTED)]);
    QuietMark(m.log, Heard(Pending, GRANTED), key);
    SplitMembers(m.subs, Active);
    QuietNotices(h.log, Matching(m.subs, Active), GRANTED, key);
    QuietTwice(m.log, h.log, OnGranted(m).log, key);
  }

  lemma AcquiredDrops(m: Machine, key: Key)
    requires m.state == Acquired
    ensures Silent(m, Step(m, FrameworkEvent(RELEASED, SUCCESS)), key)
  {
    var h := m.(log := m.log + [Heard(Acquired, RELEASED)]);
    QuietMark(m.log, Heard(Acquired, RELEASED), key);
    SplitMembers(m.subs, All);
    QuietNotices(h.log, Matching(m.subs, All), RELEASED, key);
    QuietTwice(m.log, h.log, OnReleased(m, SUCCESS).log, key);
  }

  lemma RunOne(m: Machine, x: Input)
    ensures Run(m, [x]) == Step(m, x)
  {
    assert [x][1..] == [];
  }

  lemma RunTwo(m: Machine, x: Input, y: Input)
    ensures Run(m, [x, y]) == Step(Step(m, x), y)
  {
    assert [x, y][1..] == [y];
    RunOne(Step(m, x), y);
  }

  /** The events that delete the inactive entry without an answer. */
  function Losing(m: Machine): seq<Input> {
    if m.state == Pending then [FrameworkEvent(GRANTED, SUCCESS), FrameworkEvent(RELEASED, SUCCESS)]
    else [FrameworkEvent(RELEASED, SUCCESS)]
  }

  lemma LosingLoses(m: Machine, key: Key)
    requires (m.state == Pending || m.state == Releasing) && OnlyClosing(m.subs, key)
    ensures Silent(m, Run(m, Losing(m)), key) && AllLeave(Losing(m), key)
  {
    var granted, released := FrameworkEvent(GRANTED, SUCCESS), FrameworkEvent(RELEASED, SUCCESS);
    if m.state == Pending {
      var n := Step(m, granted);
      PendingGrants(m, key);
      AcquiredDrops(n, key);
      QuietTwice(m.log, n.log, Step(n, released).log, key);
      RunTwo(m, granted, released);
    } else {
      ReleasingLoses(m, key);
      RunOne(m, released);
    }
  }

  /** After a subscription that finds an inactive entry, those events lose it for good. */
  lemma ClosingLoses(m: Machine, kind: Kind, key: Key, answer: Answer)
    requires GrantInv(m) && IdleInv(m) && Closing(m.subs, key) && m.state != Acquired
    ensures var n := OnSubscribe(m, kind, key, answer);
      AllLeave(Losing(n), key) && LostForGood(Run(n, Losing(n)), |m.log|, key)
  {
    var n := OnSubscribe(m, kind, key, answer);
    ClosingAlone(m.subs, key);
    SubscribeUnseen(m, kind, key, answer);
    LosingLoses(n, key);
    var r := Run(n, Losing(n));
    QuietMark(m.log, Subscribing(key), key);
    QuietTwice(m.log, n.log, r.log, key);
    forall rest: seq<Input> | NoneFor(rest, key) ensures Lost(Run(r, rest), |m.log|, key) {
      RunSilent(r, rest, |m.log|, key);
    }
  }

  // ---------- Results on runs ----------

  /** The subscription made at the end of a history is listed or answered, whatever comes before its end. */
  ghost predicate NeverLost(n: Machine, from: nat, key: Key) {
    forall later: seq<Input> :: AllLeave(later, key) ==>
      Listed(Run(n, later).subs, key) || Answered(Run(n, later).log, from, key)
  }

  /** Some continuation loses it for good. */
  ghost predicate CanBeLost(n: Machine, from: nat, key: Key) {
    exists later: seq<Input> :: AllLeave(later, key) && LostForGood(Run(n, later), from, key)
  }

  lemma LostNow(m: Machine, from: nat, key: Key)
    requires LostForGood(m, from, key)
    ensures Lost(m, from, key)
  {
    assert NoneFor([], key) && Run(m, []) == m;
  }

  lemma NotBoth(n: Machine, from: nat, key: Key)
    ensures CanBeLost(n, from, key) ==> !NeverLost(n, from, key)
  {
    if CanBeLost(n, from, key) {
      var later: seq<Input> :| AllLeave(later, key) && LostForGood(Run(n, later), from, key);
      LostNow(Run(n, later), from, key);
      assert !Listed(Run(n, later).subs, key);
    }
  }

  /**
   In every reachable machine of either class: a subscription that is not refused is never lost, that
   is, whatever comes until it unsubscribes or is dropped, it is listed or has been granted or denied,
   if and only if no inactive entry with its key is listed or the machine is in Acquired. In all other
   cases, and only in them, some events lose it for good: its key has no entry and is never answered
   until it subscribes anew.
   */
  lemma NeverLostIff(ds: bool, single: bool, inputs: seq<Input>, kind: Kind, key: Key, answer: Answer)
    requires var m := After(ds, single, inputs); !(m.single && m.subs != [])
    ensures var m := After(ds, single, inputs);
      var n := SubscribeRsrc(m, kind, key, answer);
      && (NeverLost(n, |m.log|, key) <==> !Closing(m.subs, key) || m.state == Acquired)
      && (CanBeLost(n, |m.log|, key) <==> Closing(m.subs, key) && m.state != Acquired)
  {
    var m := After(ds, single, inputs);
    var n := SubscribeRsrc(m, kind, key, answer);
    RunGrows(NewMachine(ds, single), inputs);
    NotBoth(n, |m.log|, key);
    if !Closing(m.subs, key) || m.state == Acquired {
      SubscribeGrows(m, kind, key, answer);
      SubscribeLists(m, kind, key, answer);
      SubscribeMarks(m, kind, key, answer);
      forall later: seq<Input> | AllLeave(later, key) ensures Served(Run(n, later), |m.log|, key) {
        RunServes(n, later, |m.log|, key);
      }
    } else {
      RunIdle(NewMachine(ds, single), inputs);
      ClosingLoses(m, kind, key, answer);
    }
  }

  // ---------- A run that loses one ----------

  lemma OneEntry(s: Subscription, target: Target)
    ensures Matching([s], target) == if ForMe(s, target) then [s] else []
    ensures Others([s], target) == if ForMe(s, target) then [] else [s]
    ensures HasActive([s]) <==> !s.inactive
  {
    assert [s][1..] == [];
    assert [s][0] == s;
  }

  lemma RunThree(m: Machine, x: Input, y: Input, z: Input)
    ensures Run(m, [x, y, z]) == Step(Step(Step(m, x), y), z)
  {
    assert [x, y, z][1..] == [y, z] && [y, z][1..] == [z] && [z][1..] == [];
    assert Run(Step(Step(m, x), y), [z]) == Step(Step(Step(m, x), y), z);
  }

  lemma FirstSubscribed(key: Key)
    ensures var a := Step(NewMachine(true, false), Subscribe(DS, key, SUCCESS));
      a.ds && !a.single && a.state == Pending && a.subs == [Subscription(DS, key, false)]
  {
    var h := NewMachine(true, false).(log := [] + [Subscribing(key)]);
    assert AddSubscriber(h, DS, key).subs == [Subscription(DS, key, false)];
  }

  lemma OnlyGranted(a: Machine)
    requires a.state == Pending
    ensures OnGranted(a) == a.(state := Acquired, log := OnGranted(a).log, retries := OnGranted(a).retries)
  {
  }

  lemma OnlyCloses(b: Machine, s: Subscription)
    requires b.ds && b.state == Acquired && b.subs == [s] && s.kind == DS && !s.inactive
    ensures var m := OnUnsubscribe(b, 0, SUCCESS);
      m.ds && m.single == b.single && m.state == Releasing && m.subs == [s.(inactive := true)]
  {
    var n := Leave(b, 0);
    assert n.subs == [s.(inactive := true)];
    OneEntry(s.(inactive := true), Active);
    SendLeaves(n.(state := Releasing), RELEASE, SUCCESS);
  }

  /** The first part of the run: subscribed, granted, unsubscribed, and not yet closed. */
  lemma ClosingRun(key: Key) returns (inputs: seq<Input>)
    ensures inputs == [Subscribe(DS, key, SUCCESS), FrameworkEvent(GRANTED, SUCCESS), Unsubscribe(key, SUCCESS)]
    ensures var m := After(true, false, inputs);
      m.state == Releasing && m.subs == [Subscription(DS, key, true)] && m.ds && !m.single
  {
    var x, y, z := Subscribe(DS, key, SUCCESS), FrameworkEvent(GRANTED, SUCCESS), Unsubscribe(key, SUCCESS);
    inputs := [x, y, z];
    var a := Step(NewMachine(true, false), x);
    FirstSubscribed(key);
    OnlyGranted(a);
    assert a.subs[0].key == key;
    OnlyCloses(Step(a, y), Subscription(DS, key, false));
    RunThree(NewMachine(true, false), x, y, z);
  }

  /**
   A data-services run that loses a subscription: subscribe, GRANTED, unsubscribe, subscribe
   again before the close, RELEASED. The second subscription is told RELEASED and nothing else.
   */
  lemma SecondSubscriptionLost(key: Key) returns (inputs: seq<Input>)
    ensures inputs == [Subscribe(DS, key, SUCCESS), FrameworkEvent(GRANTED, SUCCESS), Unsubscribe(key, SUCCESS)]
    ensures var m := After(true, false, inputs);
      var n := Step(Step(m, Subscribe(DS, key, SUCCESS)), FrameworkEvent(RELEASED, SUCCESS));
      && m.state == Releasing && Closing(m.subs, key)
      && n.state == Released && n.subs == []
      && n.log == m.log + [Subscribing(key)] + [Heard(Releasing, RELEASED)] + [Told(DS, key, RELEASED)]
  {
    inputs := ClosingRun(key);
    LostAfter(After(true, false, inputs), key);
  }

  lemma LostAfter(m: Machine, key: Key)
    requires m.ds && !m.single && m.state == Releasing && m.subs == [Subscription(DS, key, true)]
    ensures var n := Step(Step(m, Subscribe(DS, key, SUCCESS)), FrameworkEvent(RELEASED, SUCCESS));
      && Closing(m.subs, key) && n.state == Released && n.subs == []
      && n.log == m.log + [Subscribing(key)] + [Heard(Releasing, RELEASED)] + [Told(DS, key, RELEASED)]
  {
    var me := Subscription(DS, key, true);
    assert m.subs[0] == me;
    var c := Step(m, Subscribe(DS, key, SUCCESS));
    assert c == m.(log := m.log + [Subscribing(key)]);
    OneEntry(me, Inactive);
    assert Notices([me], RELEASED) == [Told(DS, key, RELEASED)];
    var h := c.(log := c.log + [Heard(Releasing, RELEASED)]);
    assert OnReleased(c, SUCCESS) == h.(state := Released, subs := [], log := h.log + [Told(DS, key, RELEASED)]);
  }
}
