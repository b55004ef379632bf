/** Retries and releases of the data-services machine, DSStateMachine, in every run. */
module AgpsDsRuns {
  import opened Agps
  import opened AgpsRuns

  /** informStatus(RSRC_DENIED, ...) puts mRetries back to 0. */
  predicate IsReset(mark: Mark) {
    mark.FellBack? || (mark.Told? && mark.status == DENIED)
  }

  /** Marks of one sort since the last reset. */
  function SinceReset(log: seq<Mark>, mark: Mark): nat {
    if log == [] || IsReset(log[|log| - 1]) then 0
    else SinceReset(log[..|log| - 1], mark) + if log[|log| - 1] == mark then 1 else 0
  }

  /**
   At every point of the history: at most four busy answers since the last reset
   before one more, a busy answer is the fifth exactly when the fallback follows
   it, and at most four timers start between resets.
   */
  ghost predicate RetriesBounded(log: seq<Mark>) {
    forall i :: 0 <= i < |log| ==> RetryBounded(log, i)
  }

  ghost predicate RetryBounded(log: seq<Mark>, i: nat)
    requires i < |log|
  {
    && (log[i] == Busy ==> SinceReset(log[..i], Busy) <= 4)
    && (log[i] == Busy ==> (SinceReset(log[..i], Busy) == 4 <==> i + 1 < |log| && log[i + 1].FellBack?))
    && (log[i] == TimerStarted ==> SinceReset(log[..i], TimerStarted) < 4)
  }

  ghost predicate DsInv(m: Machine) {
    && m.ds && !m.single
    && (forall s :: s in m.subs ==> s.kind == DS && s.key.addr == "")
    && DistinctKeys(m.subs)
    && m.retries <= MAX_START_DATA_CALL_RETRIES
    && m.retries == SinceReset(m.log, Busy)
    && SinceReset(m.log, TimerStarted) <= m.retries
    && RetriesBounded(m.log)
  }

  // ---------- Extending a history ----------

  lemma OneMoreSince(log: seq<Mark>, x: Mark, mark: Mark)
    ensures SinceReset(log + [x], mark) ==
      if IsReset(x) then 0 else SinceReset(log, mark) + if x == mark then 1 else 0
  {
    assert (log + [x])[..|log|] == log;
  }

  /** A mark other than a busy answer, a timer or a fallback extends a bounded history. */
  lemma PlainMark(log: seq<Mark>, x: Mark)
    requires RetriesBounded(log) && x != Busy && x != TimerStarted && !x.FellBack?
    ensures RetriesBounded(log + [x])
  {
    forall i | 0 <= i <= |log| ensures RetryBounded(log + [x], i) {
      assert i < |log| ==> RetryBounded(log, i);
      assert (log + [x])[..i] == log[..i];
    }
  }

  lemma {:induction false} NoticesPlain(m: Machine, told: seq<Subscription>, status: RsrcStatus)
    requires DsInv(m) && forall s :: s in told ==> s.kind == DS
    ensures DsInv(Tell(m, told, status))
    decreases |told|
  {
    if told == [] {
      assert m.log + Notices(told, status) == m.log;
    } else {
      var n := |told| - 1;
      var x := Told(told[n].kind, told[n].key, status);
      NoticesPlain(m, told[..n], status);
      var before := Tell(m, told[..n], status);
      assert Tell(m, told, status).log == before.log + [x];
      OneMoreSince(before.log, x, Busy);
      OneMoreSince(before.log, x, TimerStarted);
      PlainMark(before.log, x);
    }
  }

  /** A mark that is neither a reset nor part of a retry leaves the invariant alone. */
  lemma QuietMark(m: Machine, x: Mark)
    requires DsInv(m) && x != Busy && x != TimerStarted && !IsReset(x)
    ensures DsInv(m.(log := m.log + [x]))
  {
    OneMoreSince(m.log, x, Busy);
    OneMoreSince(m.log, x, TimerStarted);
    PlainMark(m.log, x);
  }

  /** A fallback that follows no busy answer. */
  lemma FallBackKeeps(m: Machine)
    requires DsInv(m) && m.log != [] && m.log[|m.log| - 1] != Busy
    ensures DsInv(FallBack(m))
  {
    var x := FellBack(ActiveId(m.subs));
    OneMoreSince(m.log, x, Busy);
    OneMoreSince(m.log, x, TimerStarted);
    var log := m.log + [x];
    forall i | 0 <= i < |log| ensures RetryBounded(log, i) {
      assert i < |m.log| ==> RetryBounded(m.log, i);
      assert log[..i] == m.log[..i];
    }
  }

  /** A busy answer that is not the fifth, or a timer that is not the fifth. */
  lemma RetryMark(log: seq<Mark>, x: Mark)
    requires RetriesBounded(log) && (x == Busy || x == TimerStarted) && SinceReset(log, x) < 4
    ensures RetriesBounded(log + [x])
  {
    forall i | 0 <= i <= |log| ensures RetryBounded(log + [x], i) {
      assert i < |log| ==> RetryBounded(log, i);
      assert (log + [x])[..i] == log[..i];
    }
  }

  lemma FifthBusy(log: seq<Mark>, id: int)
    requires RetriesBounded(log) && SinceReset(log, Busy) == 4
    ensures RetriesBounded(log + [Busy] + [FellBack(id)])
  {
    var full := log + [Busy] + [FellBack(id)];
    forall i | 0 <= i < |full| ensures RetryBounded(full, i) {
      if i < |log| {
        assert RetryBounded(log, i);
        assert full[..i] == log[..i];
      } else if i == |log| {
        assert full[..i] == log;
      }
    }
  }

  /** A busy answer: the fallback when it is the fifth, else a retry, with or without a timer. */
  lemma BusyKeeps(m: Machine, timerStarts: bool)
    requires DsInv(m)
    ensures var b := m.(log := m.log + [Busy], retries := (m.retries + 1) % 256);
      if m.retries == MAX_START_DATA_CALL_RETRIES then DsInv(FallBack(b))
      else DsInv(b) && DsInv(b.(log := b.log + [TimerStarted]))
  {
    var b := m.log + [Busy];
    OneMoreSince(m.log, Busy, Busy);
    OneMoreSince(m.log, Busy, TimerStarted);
    if m.retries == MAX_START_DATA_CALL_RETRIES {
      var id := ActiveId(m.subs);
      FifthBusy(m.log, id);
      OneMoreSince(b, FellBack(id), Busy);
      OneMoreSince(b, FellBack(id), TimerStarted);
    } else {
      RetryMark(m.log, Busy);
      RetryMark(b, TimerStarted);
      OneMoreSince(b, TimerStarted, Busy);
      OneMoreSince(b, TimerStarted, TimerStarted);
    }
  }

  lemma BusyAnswered(m: Machine, timerStarts: bool)
    requires DsInv(m)
    ensures DsInv(TakeAnswer(m, BUSY(timerStarts)))
  {
    BusyKeeps(m, timerStarts);
    assert (m.retries + 1) % 256 == m.retries + 1;
  }

  lemma AnswerKeeps(m: Machine, answer: Answer)
    requires DsInv(m) && m.log != [] && m.log[|m.log| - 1] != Busy
    ensures DsInv(TakeAnswer(m, answer))
  {
    FallBackKeeps(m);
    if answer.BUSY? {
      BusyAnswered(m, answer.timerStarts);
    }
  }

  lemma SendKeeps(m: Machine, action: Action, answer: Answer)
    requires DsInv(m)
    ensures DsInv(SendRsrcRequest(m, action, answer).0)
  {
    QuietMark(m, Sent(action));
    AnswerKeeps(m.(log := m.log + [Sent(action)]), answer);
  }

  // ---------- The handlers ----------

  lemma AddKeepsDs(m: Machine, key: Key)
    requires DsInv(m) && key.addr == ""
    ensures DsInv(AddSubscriber(m, DS, key))
  {
    AddKeeps(m, DS, key);
  }

  lemma NotifyKeeps(m: Machine, target: Target, status: RsrcStatus, delete: bool)
    requires DsInv(m)
    ensures DsInv(NotifySubscribers(m, target, status, delete))
  {
    SplitMembers(m.subs, target);
    OthersDistinct(m.subs, target);
    NoticesPlain(m, Matching(m.subs, target), status);
  }

  lemma SubscribeKeeps(m: Machine, key: Key, answer: Answer)
    requires DsInv(m) && key.addr == ""
    ensures DsInv(OnSubscribe(m, DS, key, answer))
  {
    var n := m.(log := m.log + [Subscribing(key)]);
    QuietMark(m, Subscribing(key));
    match m.state
    case Released =>
      AddKeepsDs(n, key);
      SendKeeps(AddSubscriber(n, DS, key), REQUEST, answer);
    case Acquired =>
      var me := [Subscription(DS, key, false)];
      NoticesPlain(n, me, GRANTED);
      AddKeepsDs(Tell(n, me, GRANTED), key);
    case _ => AddKeepsDs(n, key);
  }

  lemma LeaveKeepsDs(m: Machine, i: nat)
    requires DsInv(m) && i < |m.subs|
    ensures DsInv(Leave(m, i))
    ensures var n, s := Leave(m, i), m.subs[i];
      && |n.subs| == |m.subs| && n.subs[i] == s.(inactive := true)
      && (forall j :: 0 <= j < |m.subs| && j != i ==> n.subs[j] == m.subs[j])
      && n.log == m.log + [Told(DS, s.key, UNSUBSCRIBE)]
  {
    var s := m.subs[i];
    assert s in m.subs;
    QuietMark(m, Told(DS, s.key, UNSUBSCRIBE));
  }

  lemma UnsubscribeKeeps(m: Machine, i: nat, answer: Answer)
    requires DsInv(m) && i < |m.subs|
    ensures DsInv(OnUnsubscribe(m, i, answer))
  {
    if m.state == Released {
      NoticesPlain(m, [m.subs[i]], UNSUBSCRIBE);
    } else {
      LeaveKeepsDs(m, i);
      var n := Leave(m, i);
      SendKeeps(n.(state := Releasing), RELEASE, answer);
    }
  }

  lemma ReleasingDoneKeeps(m: Machine, status: RsrcStatus, answer: Answer)
    requires DsInv(m)
    ensures DsInv(OnReleasingDone(m, status, answer))
  {
    NotifyKeeps(m, Inactive, status, true);
    SendKeeps(NotifySubscribers(m, Inactive, status, true).(state := Pending), REQUEST, answer);
  }

  lemma DeniedKeeps(m: Machine, answer: Answer)
    requires DsInv(m)
    ensures DsInv(OnDenied(m, answer))
  {
    var n := m.(log := m.log + [Heard(m.state, DENIED)]);
    QuietMark(m, Heard(m.state, DENIED));
    NotifyKeeps(n, All, DENIED, true);
    ReleasingDoneKeeps(n, DENIED, answer);
  }

  lemma EventKeeps(m: Machine, status: RsrcStatus, answer: Answer)
    requires DsInv(m)
    ensures DsInv(OnRsrcEvent(m, status, answer))
  {
    var n := m.(log := m.log + [Heard(m.state, status)]);
    QuietMark(m, Heard(m.state, status));
    match status
    case GRANTED => NotifyKeeps(n, Active, GRANTED, false);
    case RELEASED =>
      NotifyKeeps(n, All, RELEASED, true);
      ReleasingDoneKeeps(n, RELEASED, answer);
      assert DsInv(OnReleased(m, answer));
      DeniedKeeps(OnReleased(m, answer), answer);
    case DENIED => DeniedKeeps(m, answer);
    case UNSUBSCRIBE =>
  }

  lemma StepKeeps(m: Machine, input: Input)
    requires DsInv(m) && FitsMachine(m, input)
    ensures DsInv(Step(m, input))
  {
    match input
    case Subscribe(kind, key, answer) => SubscribeKeeps(m, key, answer);
    case Unsubscribe(key, answer) =>
      if IndexOf(m.subs, key) < |m.subs| {
        UnsubscribeKeeps(m, IndexOf(m.subs, key), answer);
      }
    case FrameworkEvent(status, answer) => EventKeeps(m, status, answer);
    case DropAll =>
  }

  lemma {:induction false} DsRunKeeps(m: Machine, inputs: seq<Input>)
    requires DsInv(m) && FitsRun(m, inputs)
    ensures DsInv(Run(m, inputs))
    decreases |inputs|
  {
    if inputs != [] {
      StepKeeps(m, inputs[0]);
      DsRunKeeps(Step(m, inputs[0]), inputs[1..]);
    }
  }

  // ---------- Results on runs ----------

  /**
   In every run of a data-services machine mRetries ends at most 4 and counts the
   busy answers since the last reset; at most four timers start between resets;
   and the fifth busy answer, and no earlier one, is followed by the fallback.
   */
  lemma BoundedRetry(inputs: seq<Input>)
    requires FitsRun(NewMachine(true, false), inputs)
    ensures var m := Run(NewMachine(true, false), inputs);
      m.retries <= 4 && m.retries == SinceReset(m.log, Busy) && RetriesBounded(m.log)
  {
    DsRunKeeps(NewMachine(true, false), inputs);
  }

  /** Deleting the inactive subscribers keeps an active one if there is one. */
  lemma ActiveKept(subs: seq<Subscription>)
    ensures HasActive(Others(subs, Inactive)) <==> HasActive(subs)
  {
    SplitMembers(subs, Inactive);
    var rest := Others(subs, Inactive);
    if HasActive(subs) {
      var i :| 0 <= i < |subs| && !subs[i].inactive;
      assert subs[i] in rest;
    }
    if HasActive(rest) {
      var i :| 0 <= i < |rest| && !rest[i].inactive;
      assert rest[i] in subs;
    }
  }

  lemma SendKeepsState(m: Machine, action: Action, answer: Answer)
    ensures var n := SendRsrcRequest(m, action, answer).0; n.state == m.state && n.subs == m.subs
  {
  }

  /** After RELEASED the machine is Released, or Pending if it was Releasing with an active subscriber. */
  lemma AfterReleased(m: Machine, answer: Answer)
    requires m.ds
    ensures OnRsrcEvent(m, RELEASED, answer).state ==
      if m.state == Releasing && HasActive(m.subs) then Pending else Released
  {
    if m.state == Releasing {
      var n := NotifySubscribers(m.(log := m.log + [Heard(m.state, RELEASED)]), Inactive, RELEASED, true);
      ActiveKept(m.subs);
      SendKeepsState(n.(state := Pending), REQUEST, answer);
    }
  }

  // ---------- The retry callback ----------

  /** retryCallback: the request it posts for the first active subscriber comes back as a subscription. */
  function RetryCallback(m: Machine, answer: Answer): Machine {
    if 0 <= ActiveId(m.subs) < 0x1_0000_0000 then SubscribeRsrc(m, DS, KeyOf(DS, ActiveId(m.subs), ""), answer)
    else m
  }

  lemma {:induction false} ActiveIdFound(subs: seq<Subscription>)
    requires HasActive(subs) && forall s :: s in subs ==> s.key.addr == ""
    ensures 0 <= ActiveId(subs) < 0x1_0000_0000
    ensures exists i :: 0 <= i < |subs| && subs[i].key == Key(ActiveId(subs), "")
  {
    var i :| 0 <= i < |subs| && !subs[i].inactive;
    assert subs[0] in subs;
    if subs[0].inactive {
      assert !subs[1..][i - 1].inactive;
      ActiveIdFound(subs[1..]);
      var j :| 0 <= j < |subs[1..]| && subs[1..][j].key == Key(ActiveId(subs), "");
      assert subs[j + 1].key == Key(ActiveId(subs), "");
    } else {
      assert subs[0].key == Key(ActiveId(subs), "");
    }
  }

  lemma {:induction false} NobodyActive(subs: seq<Subscription>)
    requires !HasActive(subs)
    ensures ActiveId(subs) == -1
  {
    if subs != [] {
      assert forall i :: 0 <= i < |subs[1..]| ==> subs[1..][i] == subs[i + 1];
      NobodyActive(subs[1..]);
    }
  }

  /** Without an active subscriber there is nothing to retry. */
  lemma NoRetryAlone(m: Machine, answer: Answer)
    requires !HasActive(m.subs)
    ensures RetryCallback(m, answer) == m
  {
    NobodyActive(m.subs);
  }

  /** sendRsrcRequest of a data-services machine always starts with the request, and succeeds iff the answer does. */
  lemma SendBegins(m: Machine, action: Action, answer: Answer)
    requires m.ds
    ensures var (n, ok) := SendRsrcRequest(m, action, answer);
      && n.subs == m.subs && n.state == m.state && (ok <==> answer == SUCCESS)
      && |n.log| > |m.log| && n.log[..|m.log| + 1] == m.log + [Sent(action)]
  {
  }

  /** A retry sends the request again for a subscriber already listed, and succeeds iff the answer does. */
  lemma RetrySendsAgain(m: Machine, answer: Answer)
    requires DsInv(m) && m.state == Released && HasActive(m.subs)
    ensures var n := RetryCallback(m, answer);
      && n.subs == m.subs
      && n.state == (if answer == SUCCESS then Pending else Released)
      && |n.log| >= |m.log| + 2
      && n.log[..|m.log| + 2] == m.log + [Subscribing(Key(ActiveId(m.subs), "")), Sent(REQUEST)]
  {
    ActiveIdFound(m.subs);
    var i :| 0 <= i < |m.subs| && m.subs[i].key == Key(ActiveId(m.subs), "");
    var key := Key(ActiveId(m.subs), "");
    assert IndexOf(m.subs, key) < |m.subs|;
    var h := m.(log := m.log + [Subscribing(key)]);
    assert AddSubscriber(h, DS, key) == h;
    SendBegins(h, REQUEST, answer);
    assert h.log + [Sent(REQUEST)] == m.log + [Subscribing(key), Sent(REQUEST)];
  }
}
