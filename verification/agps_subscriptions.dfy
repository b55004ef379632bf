/**
 What becomes of a new subscription, for both classes of machine: one that finds an
 inactive entry with its key is not added to the list, and may never be answered.
 */
module AgpsSubscriptions {
  import opened Agps
  import opened AgpsRuns

  /** An entry with the key that still waits for notifications. */
  predicate Listed(subs: seq<Subscription>, key: Key) {
    exists s :: s in subs && s.key == key && !s.inactive
  }

  /** An entry with the key that has unsubscribed and waits for its close. */
  predicate Closing(subs: seq<Subscription>, key: Key) {
    exists s :: s in subs && s.key == key && s.inactive
  }

  predicate IsAnswer(mark: Mark, key: Key) {
    mark.Told? && mark.key == key && (mark.status == GRANTED || mark.status == DENIED)
  }

  /** Somebody with the key has been told GRANTED or DENIED after the first marks of the history. */
  predicate Answered(log: seq<Mark>, from: nat, key: Key) {
    exists i :: from <= i < |log| && IsAnswer(log[i], key)
  }

  // ---------- What every machine keeps ----------

  /** Keys are distinct, and in Acquired every active subscriber has been granted. */
  ghost predicate GrantInv(m: Machine) {
    && DistinctKeys(m.subs)
    && (m.state == Acquired ==> forall s :: s in m.subs && !s.inactive ==> GrantedSince(m.log, s.key))
  }

  /** What a step that only sends a request leaves alone. */
  lemma SendLeaves(m: Machine, action: Action, answer: Answer)
    ensures var n := SendRsrcRequest(m, action, answer).0;
      && n.subs == m.subs && n.state == m.state && m.log <= n.log
      && forall i :: |m.log| <= i < |n.log| ==> !n.log[i].Told?
  {
  }

  lemma NotifyLeaves(m: Machine, target: Target, status: RsrcStatus, delete: bool)
    requires DistinctKeys(m.subs)
    ensures var n := NotifySubscribers(m, target, status, delete);
      && DistinctKeys(n.subs) && n.state == m.state && m.log <= n.log
      && forall s :: s in n.subs <==> s in m.subs && (delete ==> !ForMe(s, target))
  {
    SplitMembers(m.subs, target);
    OthersDistinct(m.subs, target);
  }

  /** Whoever a notification is for is told it in this step. */
  lemma NotifyTells(m: Machine, target: Target, status: RsrcStatus, delete: bool, s: Subscription)
    requires s in m.subs && ForMe(s, target)
    ensures var n := NotifySubscribers(m, target, status, delete);
      exists i :: |m.log| <= i < |n.log| && n.log[i] == Told(s.kind, s.key, status)
  {
    SplitMembers(m.subs, target);
    var told := Matching(m.subs, target);
    var k :| 0 <= k < |told| && told[k] == s;
    var log, notices, i := NotifySubscribers(m, target, status, delete).log, Notices(told, status), |m.log| + k;
    assert log[i] == notices[k];
  }

  lemma AddLeaves(m: Machine, kind: Kind, key: Key)
    requires DistinctKeys(m.subs)
    ensures var n := AddSubscriber(m, kind, key);
      && DistinctKeys(n.subs) && n == m.(subs := n.subs)
      && (forall s :: s in m.subs ==> s in n.subs)
      && (Listed(n.subs, key) <==> !Closing(m.subs, key))
  {
    AddKeeps(m, kind, key);
    var i := IndexOf(m.subs, key);
    if i < |m.subs| {
      assert m.subs[i] in m.subs;
      assert forall s :: s in m.subs && s.key == key ==> s == m.subs[i];
    } else {
      assert AddSubscriber(m, kind, key).subs[0] == Subscription(kind, key, false);
    }
  }

  lemma LeaveLeaves(m: Machine, i: nat)
    requires DistinctKeys(m.subs) && i < |m.subs|
    ensures var n := Leave(m, i);
      && DistinctKeys(n.subs) && n.state == m.state && m.log <= n.log
      && (forall s :: s in m.subs && s.key != m.subs[i].key ==> s in n.subs)
      && (forall s :: s in n.subs && !s.inactive ==> s in m.subs)
      && forall key :: GrantedSince(m.log, key) ==> GrantedSince(n.log, key)
  {
    var s, n := m.subs[i], Leave(m, i);
    if WaitForCloseComplete(s.kind) {
      forall x | x in m.subs && x.key != s.key ensures x in n.subs {
        var j :| 0 <= j < |m.subs| && m.subs[j] == x;
        assert n.subs[j] == x;
      }
      if s.kind == DS {
        OneMore(m.log, Told(DS, s.key, UNSUBSCRIBE));
      } else {
        assert m.log + [] == m.log;
      }
    } else {
      NotifyLeaves(m, One(s.key), UNSUBSCRIBE, true);
      NoticesMeasured(m.log, Matching(m.subs, One(s.key)), UNSUBSCRIBE);
    }
  }

  // ---------- A new subscription ----------

  lemma RequestSubs(m: Machine, kind: Kind, key: Key, answer: Answer)
    ensures StartRequest(m, kind, key, answer).subs == AddSubscriber(m, kind, key).subs
  {
    SendLeaves(AddSubscriber(m, kind, key), REQUEST, answer);
  }

  lemma JoinSubs(m: Machine, kind: Kind, key: Key, answer: Answer)
    ensures Join(m, kind, key, answer).subs == AddSubscriber(m, kind, key).subs
  {
    RequestSubs(m, kind, key, answer);
  }

  lemma SubscribeSubs(m: Machine, kind: Kind, key: Key, answer: Answer)
    ensures OnSubscribe(m, kind, key, answer).subs == AddSubscriber(m, kind, key).subs
  {
    JoinSubs(m.(log := m.log + [Subscribing(key)]), kind, key, answer);
  }

  lemma SubscribeLists(m: Machine, kind: Kind, key: Key, answer: Answer)
    requires DistinctKeys(m.subs)
    ensures Listed(OnSubscribe(m, kind, key, answer).subs, key) <==> !Closing(m.subs, key)
  {
    SubscribeSubs(m, kind, key, answer);
    AddLeaves(m, kind, key);
  }

  /** The subscription's mark stands at that place, and whether an answer follows. */
  predicate Marked(log: seq<Mark>, at: nat, key: Key, answered: bool) {
    at < |log| && log[at] == Subscribing(key) && Answered(log, at, key) == answered
  }

  lemma GrantMarked(log: seq<Mark>, kind: Kind, key: Key)
    ensures Marked(log + [Subscribing(key)] + Notices([Subscription(kind, key, false)], GRANTED), |log|, key, true)
  {
    var notices := Notices([Subscription(kind, key, false)], GRANTED);
    var all := log + [Subscribing(key)] + notices;
    assert all[|log| + 1] == notices[0];
    assert IsAnswer(all[|log| + 1], key);
  }

  lemma RequestMarked(m: Machine, kind: Kind, key: Key, answer: Answer)
    ensures Marked(StartRequest(m.(log := m.log + [Subscribing(key)]), kind, key, answer).log, |m.log|, key, false)
  {
    var h := AddSubscriber(m.(log := m.log + [Subscribing(key)]), kind, key);
    SendLeaves(h, REQUEST, answer);
    assert h.log[|m.log|] == Subscribing(key);
  }

  lemma WaitMarked(log: seq<Mark>, key: Key)
    ensures Marked(log + [Subscribing(key)], |log|, key, false)
  {
  }

  /** The first mark of a subscription, and its answer, which comes at once in Acquired only. */
  lemma SubscribeMarks(m: Machine, kind: Kind, key: Key, answer: Answer)
    ensures Marked(OnSubscribe(m, kind, key, answer).log, |m.log|, key, m.state == Acquired)
  {
    RequestMarked(m, kind, key, answer);
    GrantMarked(m.log, kind, key);
    WaitMarked(m.log, key);
  }

  /** What is known about a step: the history grows, the invariant stays. */
  ghost predicate Grows(m: Machine, n: Machine) {
    m.log <= n.log && GrantInv(n)
  }

  /** SUBSCRIBE in state Acquired: everyone stays, and the new one has been granted. */
  lemma AcquiredGrows(m: Machine, kind: Kind, key: Key, answer: Answer)
    requires GrantInv(m) && m.state == Acquired
    ensures var n := OnSubscribe(m, kind, key, answer);
      Grows(m, n) && forall s :: s in m.subs ==> s in n.subs
  {
    var me := Subscription(kind, key, false);
    var h := m.(log := m.log + [Subscribing(key)]);
    OneMore(m.log, Subscribing(key));
    NoticesMeasured(h.log, [me], GRANTED);
    assert me in [me];
    AddKeeps(Tell(h, [me], GRANTED), kind, key);
  }

  lemma SubscribeGrows(m: Machine, kind: Kind, key: Key, answer: Answer)
    requires GrantInv(m)
    ensures var n := OnSubscribe(m, kind, key, answer);
      Grows(m, n) && forall s :: s in m.subs ==> s in n.subs
  {
    var h := m.(log := m.log + [Subscribing(key)]);
    AddLeaves(h, kind, key);
    match m.state
    case Released => SendLeaves(AddSubscriber(h, kind, key), REQUEST, answer);
    case Acquired => AcquiredGrows(m, kind, key, answer);
    case _ =>
  }
}
