/**
 What each input does to the subscriptions of either class of machine: an active entry stays
 until it unsubscribes, is answered, or is dropped.
 */
module AgpsSubscriptionSteps {
  import opened Agps
  import opened AgpsRuns
  import opened AgpsSubscriptions

  /** What can end an active subscription in a step: a denial in it, or a grant before it. */
  ghost predicate Ends(m: Machine, n: Machine, s: Subscription) {
    || (exists i :: |m.log| <= i < |n.log| && n.log[i] == Told(s.kind, s.key, DENIED))
    || GrantedSince(m.log, s.key)
  }

  lemma UnsubscribeGrows(m: Machine, i: nat, answer: Answer)
    requires GrantInv(m) && i < |m.subs|
    ensures var n := OnUnsubscribe(m, i, answer);
      Grows(m, n) && forall s :: s in m.subs && s.key != m.subs[i].key ==> s in n.subs
  {
    LeaveLeaves(m, i);
    var n := Leave(m, i);
    SendLeaves(n.(state := Released), RELEASE, answer);
    SendLeaves(n.(state := Releasing), RELEASE, answer);
  }

  lemma GrantedGrows(m: Machine)
    requires GrantInv(m)
    ensures var n := OnGranted(m); Grows(m, n) && n.subs == m.subs
  {
    OneMore(m.log, Heard(m.state, GRANTED));
    if m.state == Pending {
      SplitMembers(m.subs, Active);
      NoticesMeasured(m.log + [Heard(Pending, GRANTED)], Matching(m.subs, Active), GRANTED);
    }
  }

  lemma ReleasingDoneGrows(m: Machine, status: RsrcStatus, answer: Answer)
    requires GrantInv(m) && m.state == Releasing
    ensures var n := OnReleasingDone(m, status, answer);
      Grows(m, n) && n.state != Acquired && n.state != Releasing && forall s :: s in m.subs && !s.inactive ==> s in n.subs
  {
    NotifyLeaves(m, Inactive, status, true);
    SendLeaves(NotifySubscribers(m, Inactive, status, true).(state := Pending), REQUEST, answer);
  }

  lemma ReleasedGrows(m: Machine, answer: Answer)
    requires GrantInv(m)
    ensures var n := OnReleased(m, answer);
      && Grows(m, n)
      && (n.state == m.state <==> m.state == Released || m.state == Pending)
      && (n.state == m.state ==> n == m.(log := m.log + [Heard(m.state, RELEASED)]))
      && forall s :: s in m.subs && !s.inactive ==> s in n.subs || GrantedSince(m.log, s.key)
  {
    var h := m.(log := m.log + [Heard(m.state, RELEASED)]);
    OneMore(m.log, Heard(m.state, RELEASED));
    match m.state
    case Acquired => NotifyLeaves(h, All, RELEASED, true);
    case Releasing => ReleasingDoneGrows(h, RELEASED, answer);
    case _ =>
  }

  lemma DeniedGrows(m: Machine, answer: Answer)
    requires GrantInv(m)
    ensures var n := OnDenied(m, answer);
      && Grows(m, n)
      && forall s :: s in m.subs && !s.inactive ==> s in n.subs || Ends(m, n, s)
  {
    var h := m.(log := m.log + [Heard(m.state, DENIED)]);
    OneMore(m.log, Heard(m.state, DENIED));
    match m.state
    case Pending =>
      NotifyLeaves(h, All, DENIED, true);
      forall s | s in m.subs ensures Ends(m, OnDenied(m, answer), s) {
        NotifyTells(h, All, DENIED, true, s);
      }
    case Releasing => ReleasingDoneGrows(h, DENIED, answer);
    case _ =>
  }

  lemma EventGrows(m: Machine, status: RsrcStatus, answer: Answer)
    requires GrantInv(m)
    ensures var n := OnRsrcEvent(m, status, answer);
      Grows(m, n) && forall s :: s in m.subs && !s.inactive ==> s in n.subs || Ends(m, n, s)
  {
    match status
    case GRANTED => GrantedGrows(m);
    case RELEASED =>
      ReleasedGrows(m, answer);
      var n := OnReleased(m, answer);
      if m.ds && n.state == m.state {
        OneMore(m.log, Heard(m.state, RELEASED));
        DeniedGrows(n, answer);
      }
    case DENIED => DeniedGrows(m, answer);
    case UNSUBSCRIBE =>
  }

  /** The input neither ends the subscription with the key nor drops all subscribers. */
  predicate Leaves(input: Input, key: Key) {
    !input.DropAll? && (input.Unsubscribe? ==> input.key != key)
  }

  /** An active subscriber stays until it unsubscribes or is dropped, is denied, or is released after a grant. */
  lemma StepGrows(m: Machine, input: Input)
    requires GrantInv(m)
    ensures var n := Step(m, input);
      Grows(m, n) && forall s :: s in m.subs && !s.inactive && Leaves(input, s.key) ==> s in n.subs || Ends(m, n, s)
  {
    match input
    case Subscribe(kind, key, answer) =>
      if m.single && m.subs != [] {
        NoticesMeasured(m.log, [Subscription(kind, key, false)], DENIED);
      } else {
        SubscribeGrows(m, kind, key, answer);
      }
    case Unsubscribe(key, answer) =>
      if IndexOf(m.subs, key) < |m.subs| {
        UnsubscribeGrows(m, IndexOf(m.subs, key), answer);
      }
    case FrameworkEvent(status, answer) => EventGrows(m, status, answer);
    case DropAll =>
  }
}
