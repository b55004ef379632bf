/** What every run of an AGPS state machine keeps. */
module AgpsRuns {
  import opened Agps

  // ---------- Measures of a history ----------

  /**
   Requests sent count +1; releases sent, a DENIED heard while Pending and a
   RELEASED heard while Acquired count -1.
   */
  function Weight(mark: Mark): int {
    match mark
    case Sent(REQUEST) => 1
    case Sent(RELEASE) => -1
    case Heard(Pending, DENIED) => -1
    case Heard(Acquired, RELEASED) => -1
    case _ => 0
  }

  function Balance(log: seq<Mark>): int {
    if log == [] then 0 else Balance(log[..|log| - 1]) + Weight(log[|log| - 1])
  }

  /** The key has been told GRANTED since it last subscribed. */
  predicate GrantedSince(log: seq<Mark>, key: Key) {
    log != [] &&
    match log[|log| - 1]
    case Told(_, k, GRANTED) => k == key || GrantedSince(log[..|log| - 1], key)
    case Subscribing(k) => k != key && GrantedSince(log[..|log| - 1], key)
    case _ => GrantedSince(log[..|log| - 1], key)
  }

  lemma OneMore(log: seq<Mark>, mark: Mark)
    ensures Balance(log + [mark]) == Balance(log) + Weight(mark)
    ensures forall key :: GrantedSince(log + [mark], key) <==>
      match mark
      case Told(_, k, GRANTED) => k == key || GrantedSince(log, key)
      case Subscribing(k) => k != key && GrantedSince(log, key)
      case _ => GrantedSince(log, key)
  {
    assert (log + [mark])[..|log|] == log;
  }

  /** Notifications move no request, and grant exactly to those told GRANTED. */
  lemma {:induction false} NoticesMeasured(log: seq<Mark>, told: seq<Subscription>, status: RsrcStatus)
    ensures Balance(log + Notices(told, status)) == Balance(log)
    ensures forall key :: GrantedSince(log + Notices(told, status), key) <==>
      GrantedSince(log, key) || (status == GRANTED && exists s :: s in told && s.key == key)
    decreases |told|
  {
    if told == [] {
      assert log + Notices(told, status) == log;
    } else {
      var n := |told| - 1;
      var before := log + Notices(told[..n], status);
      NoticesMeasured(log, told[..n], status);
      assert log + Notices(told, status) == before + [Told(told[n].kind, told[n].key, status)];
      OneMore(before, Told(told[n].kind, told[n].key, status));
      assert forall s :: s in told <==> s in told[..n] || s == told[n];
    }
  }

  // ---------- Facts about the subscriber list ----------

  predicate DistinctKeys(subs: seq<Subscription>) {
    forall i, j :: 0 <= i < j < |subs| ==> subs[i].key != subs[j].key
  }

  /** Matching and Others split the list. */
  lemma {:induction false} SplitMembers(subs: seq<Subscription>, target: Target)
    ensures forall s :: s in Matching(subs, target) <==> s in subs && ForMe(s, target)
    ensures forall s :: s in Others(subs, target) <==> s in subs && !ForMe(s, target)
    ensures |Matching(subs, target)| + |Others(subs, target)| == |subs|
    ensures target == All ==> Others(subs, target) == []
  {
    if subs != [] {
      SplitMembers(subs[1..], target);
    }
  }

  lemma {:induction false} OthersDistinct(subs: seq<Subscription>, target: Target)
    requires DistinctKeys(subs)
    ensures DistinctKeys(Others(subs, target))
  {
    if subs != [] {
      OthersDistinct(subs[1..], target);
      SplitMembers(subs[1..], target);
      assert forall s :: s in subs[1..] ==> s.key != subs[0].key;
    }
  }

  /** With distinct keys a key picks out at most one subscriber. */
  lemma {:induction false} MatchingOne(subs: seq<Subscription>, i: nat)
    requires DistinctKeys(subs) && i < |subs|
    ensures Matching(subs, One(subs[i].key)) == [subs[i]]
  {
    if i == 0 {
      MatchingNone(subs[1..], subs[0].key);
    } else {
      MatchingOne(subs[1..], i - 1);
    }
  }

  lemma {:induction false} MatchingNone(subs: seq<Subscription>, key: Key)
    requires forall s :: s in subs ==> s.key != key
    ensures Matching(subs, One(key)) == []
  {
    if subs != [] {
      MatchingNone(subs[1..], key);
    }
  }

  function Times(log: seq<Mark>, mark: Mark): nat {
    multiset(log)[mark]
  }

  /** Telling one more leaves the count of a mark with another key alone. */
  lemma TimesCons(s: Subscription, rest: seq<Subscription>, status: RsrcStatus, mark: Mark)
    ensures Times(Notices([s] + rest, status), mark) ==
      Times(Notices(rest, status), mark) + if mark == Told(s.kind, s.key, status) then 1 else 0
  {
    assert Notices([s] + rest, status) == [Told(s.kind, s.key, status)] + Notices(rest, status);
  }

  lemma {:induction false} NotTold(told: seq<Subscription>, status: RsrcStatus, s: Subscription)
    requires forall x :: x in told ==> x.key != s.key
    ensures Times(Notices(told, status), Told(s.kind, s.key, status)) == 0
  {
    assert Told(s.kind, s.key, status) !in Notices(told, status);
  }

  lemma {:induction false} ToldTimes(subs: seq<Subscription>, target: Target, status: RsrcStatus, s: Subscription)
    requires DistinctKeys(subs) && s in subs
    ensures Times(Notices(Matching(subs, target), status), Told(s.kind, s.key, status)) == if ForMe(s, target) then 1 else 0
  {
    var rest := Matching(subs[1..], target);
    TimesCons(subs[0], rest, status, Told(s.kind, s.key, status));
    assert Matching(subs, target) == if ForMe(subs[0], target) then [subs[0]] + rest else rest;
    if s == subs[0] {
      SplitMembers(subs[1..], target);
      NotTold(rest, status, s);
    } else {
      assert s in subs[1..] && s.key != subs[0].key;
      ToldTimes(subs[1..], target, status, s);
    }
  }

  /** Whom a notice went to. */
  lemma NoticeOf(told: seq<Subscription>, status: RsrcStatus, x: Mark) returns (s: Subscription)
    requires x in Notices(told, status)
    ensures s in told && x == Told(s.kind, s.key, status)
  {
    var i :| 0 <= i < |told| && Notices(told, status)[i] == x;
    s := told[i];
  }

  /**
   A broadcast tells each subscriber it is for exactly once and nobody else;
   with deletion the list becomes those it was not for, otherwise it is unchanged.
   */
  lemma BroadcastExact(m: Machine, target: Target, status: RsrcStatus, delete: bool)
    requires DistinctKeys(m.subs)
    ensures var n := NotifySubscribers(m, target, status, delete);
      var told := n.log[|m.log|..];
      && n.log == m.log + told
      && (forall s :: s in m.subs ==> Times(told, Told(s.kind, s.key, status)) == if ForMe(s, target) then 1 else 0)
      && (forall x :: x in told ==> exists s :: s in m.subs && ForMe(s, target) && x == Told(s.kind, s.key, status))
      && (forall s :: s in n.subs <==> s in m.subs && (delete ==> !ForMe(s, target)))
      && (!delete ==> n.subs == m.subs)
  {
    var n := NotifySubscribers(m, target, status, delete);
    var notices := Notices(Matching(m.subs, target), status);
    assert n.log[|m.log|..] == notices;
    SplitMembers(m.subs, target);
    forall s | s in m.subs
      ensures Times(notices, Told(s.kind, s.key, status)) == if ForMe(s, target) then 1 else 0
    {
      ToldTimes(m.subs, target, status, s);
    }
    forall x | x in notices
      ensures exists s :: s in m.subs && ForMe(s, target) && x == Told(s.kind, s.key, status)
    {
      var s := NoticeOf(Matching(m.subs, target), status, x);
    }
  }

  // ---------- Base machines ----------

  /**
   Released means no subscribers; keys are distinct; requests balance; an active
   subscriber has been granted exactly in Acquired; a single-subscriber machine
   holds at most one.
   */
  ghost predicate BaseInv(m: Machine) {
    && !m.ds
    && (m.state == Released ==> m.subs == [])
    && DistinctKeys(m.subs)
    && Balance(m.log) == (if m.state == Pending || m.state == Acquired then 1 else 0)
    && (forall s :: s in m.subs && !s.inactive ==> (GrantedSince(m.log, s.key) <==> m.state == Acquired))
    && (m.single ==> |m.subs| <= 1)
    && (forall s :: s in m.subs ==> s.kind != DS)
  }

  /** What holds besides as long as the list is never dropped. */
  predicate Occupied(m: Machine) {
    && (m.state == Pending || m.state == Acquired ==> HasActive(m.subs))
    && (m.state == Releasing ==> m.subs != [])
  }

  /** A request of a base machine is sent exactly when it fits the list. */
  lemma BaseRequest(m: Machine, action: Action, answer: Answer)
    requires !m.ds && !HasActive(m.subs) == (action == RELEASE)
    ensures var (n, ok) := SendRsrcRequest(m, action, answer);
      && ok && n == m.(log := m.log + [Sent(action)])
      && Balance(n.log) == Balance(m.log) + (if action == REQUEST then 1 else -1)
      && forall key :: GrantedSince(n.log, key) <==> GrantedSince(m.log, key)
  {
    OneMore(m.log, Sent(action));
  }

  /** Any other request of a base machine is not sent, and reported as success all the same. */
  lemma BaseRequestUnfit(m: Machine, action: Action, answer: Answer)
    requires !m.ds && HasActive(m.subs) == (action == RELEASE)
    ensures SendRsrcRequest(m, action, answer) == (m, true)
  {
  }

  lemma AddKeeps(m: Machine, kind: Kind, key: Key)
    requires DistinctKeys(m.subs)
    ensures var n := AddSubscriber(m, kind, key);
      && DistinctKeys(n.subs) && n.subs != []
      && (HasActive(m.subs) ==> HasActive(n.subs))
      && (forall s :: s in m.subs ==> s in n.subs)
      && (forall s :: s in n.subs ==> s in m.subs || s == Subscription(kind, key, false))
      && (exists s :: s in n.subs && s.key == key)
  {
    var i := IndexOf(m.subs, key);
    var subs := AddSubscriber(m, kind, key).subs;
    assert if i < |m.subs| then m.subs[i] in subs else subs[0] in subs;
    assert forall s :: s in m.subs ==> s in [Subscription(kind, key, false)] + m.subs;
    if HasActive(m.subs) {
      var i :| 0 <= i < |m.subs| && !m.subs[i].inactive;
      assert if subs == m.subs then !subs[i].inactive else !subs[i + 1].inactive;
    }
  }

  lemma SubscribeReleased(m: Machine, kind: Kind, key: Key, answer: Answer)
    requires BaseInv(m) && kind != DS && m.state == Released
    ensures var n := OnSubscribe(m, kind, key, answer);
      && BaseInv(n) && n.single == m.single && Occupied(n)
      && n.state == Pending && n.subs == [Subscription(kind, key, false)]
      && n.log == m.log + [Subscribing(key)] + [Sent(REQUEST)]
  {
    var a := AddSubscriber(m.(log := m.log + [Subscribing(key)]), kind, key);
    OneMore(m.log, Subscribing(key));
    assert a.subs == [Subscription(kind, key, false)] && !a.subs[0].inactive;
    BaseRequest(a, REQUEST, answer);
  }

  lemma SubscribeAcquired(m: Machine, kind: Kind, key: Key, answer: Answer)
    requires BaseInv(m) && kind != DS && m.state == Acquired && (m.single ==> m.subs == [])
    ensures var n := OnSubscribe(m, kind, key, answer);
      && BaseInv(n) && n.single == m.single && (Occupied(m) ==> Occupied(n))
      && n.state == Acquired && (forall s :: s in m.subs ==> s in n.subs)
      && n.log == m.log + [Subscribing(key)] + [Told(kind, key, GRANTED)]
  {
    var me := Subscription(kind, key, false);
    OneMore(m.log, Subscribing(key));
    NoticesMeasured(m.log + [Subscribing(key)], [me], GRANTED);
    assert Notices([me], GRANTED) == [Told(kind, key, GRANTED)];
    assert me in [me];
    AddKeeps(m, kind, key);
  }

  lemma SubscribeWaiting(m: Machine, kind: Kind, key: Key, answer: Answer)
    requires BaseInv(m) && kind != DS && (m.state == Pending || m.state == Releasing) && (m.single ==> m.subs == [])
    ensures var n := OnSubscribe(m, kind, key, answer);
      && BaseInv(n) && n.single == m.single && (Occupied(m) ==> Occupied(n))
      && n.state == m.state && (forall s :: s in m.subs ==> s in n.subs)
      && n.log == m.log + [Subscribing(key)]
  {
    var h := m.(log := m.log + [Subscribing(key)]);
    OneMore(m.log, Subscribing(key));
    AddKeeps(h, kind, key);
    assert OnSubscribe(m, kind, key, answer) == AddSubscriber(h, kind, key);
  }

  lemma SubscribeKeepsInv(m: Machine, kind: Kind, key: Key, answer: Answer)
    requires BaseInv(m) && kind != DS && (m.single ==> m.subs == [])
    ensures var n := OnSubscribe(m, kind, key, answer);
      BaseInv(n) && n.single == m.single && (Occupied(m) ==> Occupied(n))
  {
    match m.state
    case Released => SubscribeReleased(m, kind, key, answer);
    case Acquired => SubscribeAcquired(m, kind, key, answer);
    case _ => SubscribeWaiting(m, kind, key, answer);
  }

  /** What leaving adds to the history of a base machine: a subscriber that waits for its close is not told yet. */
  function LeaveNotice(s: Subscription): seq<Mark> {
    if WaitForCloseComplete(s.kind) then [] else [Told(s.kind, s.key, UNSUBSCRIBE)]
  }

  /** Leaving: the entry is gone or inactive, nobody else changes. */
  lemma LeaveKeeps(m: Machine, i: nat)
    requires BaseInv(m) && i < |m.subs|
    ensures var n := Leave(m, i);
      && n == m.(subs := n.subs, log := n.log)
      && Balance(n.log) == Balance(m.log)
      && (forall key :: GrantedSince(n.log, key) <==> GrantedSince(m.log, key))
      && DistinctKeys(n.subs) && |n.subs| <= |m.subs|
      && (forall s :: s in n.subs && !s.inactive ==> s in m.subs)
      && (forall s :: s in n.subs ==> s.kind != DS)
  {
    var s := m.subs[i];
    assert s in m.subs;
    if WaitForCloseComplete(s.kind) {
      assert m.log + [] == m.log;
    } else {
      SplitMembers(m.subs, One(s.key));
      OthersDistinct(m.subs, One(s.key));
      NoticesMeasured(m.log, Matching(m.subs, One(s.key)), UNSUBSCRIBE);
    }
  }

  /** The entry that leaves is gone or inactive, the others stay as they are, and it alone is told. */
  lemma LeaveExact(m: Machine, i: nat)
    requires BaseInv(m) && i < |m.subs|
    ensures var n := Leave(m, i);
      && n.log == m.log + LeaveNotice(m.subs[i])
      && (forall s :: s in n.subs && s.key == m.subs[i].key ==> s.inactive)
      && (forall s :: s in m.subs && s.key != m.subs[i].key ==> s in n.subs)
  {
    var s, n := m.subs[i], Leave(m, i);
    assert s in m.subs;
    if WaitForCloseComplete(s.kind) {
      assert m.log + [] == m.log;
      forall x | x in m.subs && x.key != s.key ensures x in n.subs {
        var j :| 0 <= j < |m.subs| && m.subs[j] == x;
        assert n.subs[j] == x;
      }
    } else {
      SplitMembers(m.subs, One(s.key));
      MatchingOne(m.subs, i);
      assert Notices([s], UNSUBSCRIBE) == LeaveNotice(s);
    }
  }

  /** The release goes out when the machine holds or awaits the resource and no active subscriber is left. */
  predicate Releases(m: Machine, subs: seq<Subscription>) {
    (m.state == Pending || m.state == Acquired) && !HasActive(subs)
  }

  lemma ReleaseSent(m: Machine, log: seq<Mark>, state: State, subs: seq<Subscription>, answer: Answer)
    requires !m.ds && !HasActive(subs)
    ensures var n := m.(state := state, subs := subs, log := log);
      SendRsrcRequest(n, RELEASE, answer).0 == n.(log := log + [Sent(RELEASE)])
  {
  }

  /** The last subscriber has left a machine that held or awaited the resource. */
  lemma LastGone(n: Machine, answer: Answer)
    requires !n.ds && n.subs == [] && Balance(n.log) == 1
    ensures var r := ReleaseIfIdle(n, answer); BaseInv(r) && r.single == n.single && Occupied(r) && r.subs == []
  {
    BaseRequest(n.(state := Released), RELEASE, answer);
  }

  /** Only subscribers that wait for their close are left. */
  lemma NobodyLeft(n: Machine, answer: Answer)
    requires !n.ds && n.subs != [] && !HasActive(n.subs) && Balance(n.log) == 1
    requires DistinctKeys(n.subs) && (n.single ==> |n.subs| <= 1) && forall s :: s in n.subs ==> s.kind != DS
    ensures var r := ReleaseIfIdle(n, answer); BaseInv(r) && r.single == n.single && Occupied(r) && r.subs == n.subs
  {
    BaseRequest(n.(state := Releasing), RELEASE, answer);
    assert forall s :: s in n.subs ==> s.inactive;
  }

  lemma LeaveKeepsInv(m: Machine, i: nat)
    requires BaseInv(m) && i < |m.subs|
    ensures BaseInv(Leave(m, i)) && Leave(m, i).single == m.single && Leave(m, i).state == m.state != Released
  {
    LeaveKeeps(m, i);
    var n := Leave(m, i);
    forall s | s in n.subs && !s.inactive ensures GrantedSince(n.log, s.key) <==> n.state == Acquired {
      assert s in m.subs;
    }
  }

  lemma UnsubscribeKeepsInv(m: Machine, i: nat, answer: Answer)
    requires BaseInv(m) && i < |m.subs|
    ensures var n := OnUnsubscribe(m, i, answer);
      && BaseInv(n) && n.single == m.single && (Occupied(m) ==> Occupied(n))
      && n.subs == Leave(m, i).subs
  {
    LeaveKeepsInv(m, i);
    var n := Leave(m, i);
    if m.state == Releasing {
    } else if n.subs == [] {
      LastGone(n, answer);
    } else if !HasActive(n.subs) {
      NobodyLeft(n, answer);
    }
  }

  /**
   An unsubscription tells the leaving subscriber at most, and sends exactly one RELEASE
   exactly when the state was Pending or Acquired and no active subscriber is left.
   */
  lemma UnsubscribeExact(m: Machine, i: nat, answer: Answer)
    requires BaseInv(m) && i < |m.subs|
    ensures var n := OnUnsubscribe(m, i, answer);
      && n.log == m.log + LeaveNotice(m.subs[i]) + (if Releases(m, n.subs) then [Sent(RELEASE)] else [])
      && n.state == (if n.subs == [] then Released else if HasActive(n.subs) then m.state else Releasing)
  {
    LeaveKeeps(m, i);
    LeaveExact(m, i);
    var n := Leave(m, i);
    if Releases(m, n.subs) {
      ReleaseSent(m, n.log, if n.subs == [] then Released else Releasing, n.subs, answer);
    } else {
      assert n.log + [] == n.log;
    }
  }

  lemma GrantedKeepsInv(m: Machine)
    requires BaseInv(m)
    ensures var n := OnGranted(m);
      && BaseInv(n) && n.single == m.single && (Occupied(m) ==> Occupied(n))
      && n.subs == m.subs && n.state == (if m.state == Pending then Acquired else m.state)
      && n.log == m.log + [Heard(m.state, GRANTED)]
                  + (if m.state == Pending then Notices(Matching(m.subs, Active), GRANTED) else [])
  {
    var h := m.(log := m.log + [Heard(m.state, GRANTED)]);
    OneMore(m.log, Heard(m.state, GRANTED));
    if m.state == Pending {
      SplitMembers(m.subs, Active);
      NoticesMeasured(h.log, Matching(m.subs, Active), GRANTED);
    } else {
      assert h.log + [] == h.log;
    }
  }

  lemma {:induction false} AllMatch(subs: seq<Subscription>)
    ensures Matching(subs, All) == subs
  {
    if subs != [] {
      AllMatch(subs[1..]);
    }
  }

  /** A broadcast to all with deletion empties the list and tells everyone in it, in order. */
  lemma BroadcastToAll(m: Machine, status: RsrcStatus)
    requires status != GRANTED
    ensures var n := NotifySubscribers(m, All, status, true);
      && n.subs == []
      && n.log == m.log + Notices(m.subs, status)
      && Balance(n.log) == Balance(m.log)
  {
    AllMatch(m.subs);
    SplitMembers(m.subs, All);
    NoticesMeasured(m.log, Matching(m.subs, All), status);
  }

  /** After the inactive ones are told and deleted, only active ones are left. */
  lemma BroadcastToInactive(m: Machine, status: RsrcStatus)
    requires BaseInv(m) && m.state == Releasing && status != GRANTED
    ensures var n := NotifySubscribers(m, Inactive, status, true);
      && n == m.(subs := n.subs, log := n.log)
      && Balance(n.log) == 0
      && (forall s :: s in n.subs <==> s in m.subs && !s.inactive)
      && (forall s :: s in n.subs ==> !GrantedSince(n.log, s.key))
      && DistinctKeys(n.subs) && |n.subs| <= |m.subs|
      && (n.subs != [] ==> HasActive(n.subs))
  {
    SplitMembers(m.subs, Inactive);
    OthersDistinct(m.subs, Inactive);
    NoticesMeasured(m.log, Matching(m.subs, Inactive), status);
    var rest := Others(m.subs, Inactive);
    assert rest != [] ==> rest[0] in rest;
  }

  /** With active subscribers and no request out, asking again restores the invariant. */
  lemma RequestAgain(m: Machine, answer: Answer)
    requires !m.ds && DistinctKeys(m.subs) && (m.single ==> |m.subs| <= 1)
    requires Balance(m.log) == 0 && HasActive(m.subs)
    requires forall s :: s in m.subs ==> s.kind != DS && !GrantedSince(m.log, s.key)
    ensures var n := SendRsrcRequest(m.(state := Pending), REQUEST, answer).0;
      && BaseInv(n) && n.single == m.single && Occupied(n)
      && n == m.(state := Pending, log := m.log + [Sent(REQUEST)])
  {
    BaseRequest(m.(state := Pending), REQUEST, answer);
  }

  lemma ReleasingDoneKeepsInv(m: Machine, status: RsrcStatus, answer: Answer)
    requires BaseInv(m) && m.state == Releasing && status != GRANTED
    ensures var n := OnReleasingDone(m, status, answer);
      && BaseInv(n) && n.single == m.single && Occupied(n)
      && (forall s :: s in n.subs <==> s in m.subs && !s.inactive)
      && n.state == (if n.subs == [] then Released else Pending)
      && n.log == m.log + Notices(Matching(m.subs, Inactive), status)
                  + (if n.subs == [] then [] else [Sent(REQUEST)])
  {
    BroadcastToInactive(m, status);
    var n := NotifySubscribers(m, Inactive, status, true);
    if HasActive(n.subs) {
      RequestAgain(n, answer);
    } else {
      assert n.subs == [] && n.log + [] == n.log;
    }
  }

  /** The end of a held or awaited resource: everyone is told, in order, and the list is empty. */
  lemma EveryoneTold(m: Machine, status: RsrcStatus)
    requires BaseInv(m)
    requires (m.state == Acquired && status == RELEASED) || (m.state == Pending && status == DENIED)
    ensures var h := m.(log := m.log + [Heard(m.state, status)]);
      var n := NotifySubscribers(h, All, status, true).(state := Released);
      BaseInv(n) && n.subs == [] && n.log == h.log + Notices(m.subs, status)
  {
    OneMore(m.log, Heard(m.state, status));
    BroadcastToAll(m.(log := m.log + [Heard(m.state, status)]), status);
  }

  lemma ReleasedKeepsInv(m: Machine, answer: Answer)
    requires BaseInv(m)
    ensures var n := OnReleased(m, answer);
      && BaseInv(n) && n.single == m.single && (Occupied(m) ==> Occupied(n))
      && (m.state == Acquired ==>
            (n.state == Released && n.subs == []
             && n.log == m.log + [Heard(Acquired, RELEASED)] + Notices(m.subs, RELEASED)))
      && (m.state != Acquired && m.state != Releasing ==> n == m.(log := m.log + [Heard(m.state, RELEASED)]))
  {
    OneMore(m.log, Heard(m.state, RELEASED));
    match m.state
    case Acquired => EveryoneTold(m, RELEASED);
    case Releasing => ReleasingDoneKeepsInv(m.(log := m.log + [Heard(m.state, RELEASED)]), RELEASED, answer);
    case _ =>
  }

  lemma DeniedKeepsInv(m: Machine, answer: Answer)
    requires BaseInv(m)
    ensures var n := OnDenied(m, answer);
      && BaseInv(n) && n.single == m.single && (Occupied(m) ==> Occupied(n))
      && (m.state == Pending ==>
            (n.state == Released && n.subs == []
             && n.log == m.log + [Heard(Pending, DENIED)] + Notices(m.subs, DENIED)))
      && (m.state != Pending && m.state != Releasing ==> n == m.(log := m.log + [Heard(m.state, DENIED)]))
  {
    OneMore(m.log, Heard(m.state, DENIED));
    match m.state
    case Pending => EveryoneTold(m, DENIED);
    case Releasing => ReleasingDoneKeepsInv(m.(log := m.log + [Heard(m.state, DENIED)]), DENIED, answer);
    case _ =>
  }

  lemma SubscribeRsrcKeepsInv(m: Machine, kind: Kind, key: Key, answer: Answer)
    requires BaseInv(m) && kind != DS
    ensures var n := SubscribeRsrc(m, kind, key, answer);
      && BaseInv(n) && n.single == m.single && (Occupied(m) ==> Occupied(n))
      && (m.single && m.subs != [] ==> n == m.(log := m.log + [Told(kind, key, DENIED)]))
  {
    if m.single && m.subs != [] {
      NoticesMeasured(m.log, [Subscription(kind, key, false)], DENIED);
      assert Notices([Subscription(kind, key, false)], DENIED) == [Told(kind, key, DENIED)];
    } else {
      SubscribeKeepsInv(m, kind, key, answer);
    }
  }

  lemma EventKeepsInv(m: Machine, status: RsrcStatus, answer: Answer)
    requires BaseInv(m)
    ensures var n := OnRsrcEvent(m, status, answer);
      BaseInv(n) && n.single == m.single && (Occupied(m) ==> Occupied(n))
  {
    match status
    case GRANTED => GrantedKeepsInv(m);
    case RELEASED => ReleasedKeepsInv(m, answer);
    case DENIED => DeniedKeepsInv(m, answer);
    case UNSUBSCRIBE =>
  }

  lemma StepKeepsInv(m: Machine, input: Input)
    requires BaseInv(m) && FitsMachine(m, input)
    ensures var n := Step(m, input);
      BaseInv(n) && n.single == m.single && (Occupied(m) && input != DropAll ==> Occupied(n))
  {
    match input
    case Subscribe(kind, key, answer) => SubscribeRsrcKeepsInv(m, kind, key, answer);
    case Unsubscribe(key, answer) =>
      var i := IndexOf(m.subs, key);
      if i < |m.subs| {
        UnsubscribeKeepsInv(m, i, answer);
      }
    case FrameworkEvent(status, answer) =>
      EventKeepsInv(m, status, answer);
    case DropAll =>
  }

  lemma {:induction false} RunKeepsInv(m: Machine, inputs: seq<Input>)
    requires BaseInv(m) && FitsRun(m, inputs)
    ensures var n := Run(m, inputs);
      BaseInv(n) && n.single == m.single && (Occupied(m) && DropAll !in inputs ==> Occupied(n))
    decreases |inputs|
  {
    if inputs != [] {
      StepKeepsInv(m, inputs[0]);
      RunKeepsInv(Step(m, inputs[0]), inputs[1..]);
    }
  }

  // ---------- Results on runs ----------

  /**
   In every run of a base machine: requests sent, minus releases sent, minus
   DENIEDs handled in Pending, minus RELEASEDs handled in Acquired, is 1 in
   Pending and Acquired and 0 otherwise.
   */
  lemma RequestsConserved(single: bool, inputs: seq<Input>)
    requires FitsRun(NewMachine(false, single), inputs)
    ensures var m := Run(NewMachine(false, single), inputs);
      Balance(m.log) == (if m.state == Pending || m.state == Acquired then 1 else 0)
  {
    RunKeepsInv(NewMachine(false, single), inputs);
  }

  /** In every run an active subscriber has been told GRANTED since it subscribed iff the state is Acquired. */
  lemma GrantAgreement(single: bool, inputs: seq<Input>)
    requires FitsRun(NewMachine(false, single), inputs)
    ensures var m := Run(NewMachine(false, single), inputs);
      forall s :: s in m.subs && !s.inactive ==> (GrantedSince(m.log, s.key) <==> m.state == Acquired)
  {
    RunKeepsInv(NewMachine(false, single), inputs);
  }

  /** State and list agree in every run, the second half as long as subscribers are never dropped. */
  lemma StateListAgreement(single: bool, inputs: seq<Input>)
    requires FitsRun(NewMachine(false, single), inputs)
    ensures var m := Run(NewMachine(false, single), inputs);
      && (m.state == Released ==> m.subs == [])
      && DistinctKeys(m.subs)
      && (single ==> |m.subs| <= 1)
      && (DropAll !in inputs ==>
        && (m.state == Pending || m.state == Acquired ==> HasActive(m.subs))
        && (m.state == Releasing ==> m.subs != []))
  {
    RunKeepsInv(NewMachine(false, single), inputs);
  }
}
