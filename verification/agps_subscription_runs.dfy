/**
 Runs of either class of machine: a subscription that is listed stays listed or is answered,
 and when a new one is listed.
 */
module AgpsSubscriptionRuns {
  import opened Agps
  import opened AgpsRuns
  import opened AgpsSubscriptions
  import opened AgpsSubscriptionSteps

  // ---------- Subscriptions are answered ----------

  /** A grant since the last subscription came after any one subscription. */
  lemma {:induction false} GrantAnswers(log: seq<Mark>, from: nat, key: Key)
    requires from < |log| && log[from] == Subscribing(key) && GrantedSince(log, key)
    ensures Answered(log, from, key)
    decreases |log|
  {
    var n := |log| - 1;
    if !IsAnswer(log[n], key) {
      GrantAnswers(log[..n], from, key);
      var i :| from <= i < n && IsAnswer(log[..n][i], key);
      assert IsAnswer(log[i], key);
    }
  }

  lemma AnsweredStays(log: seq<Mark>, more: seq<Mark>, from: nat, key: Key)
    requires Answered(log, from, key) && log <= more
    ensures Answered(more, from, key)
  {
    var i :| from <= i < |log| && IsAnswer(log[i], key);
    assert IsAnswer(more[i], key);
  }

  /** The subscription at that place of the history still waits, or has its answer. */
  ghost predicate Served(m: Machine, from: nat, key: Key) {
    from < |m.log| && m.log[from] == Subscribing(key) && (Listed(m.subs, key) || Answered(m.log, from, key))
  }

  lemma StepServes(m: Machine, input: Input, from: nat, key: Key)
    requires GrantInv(m) && Served(m, from, key) && Leaves(input, key)
    ensures Served(Step(m, input), from, key)
  {
    var n := Step(m, input);
    StepGrows(m, input);
    if Answered(m.log, from, key) {
      AnsweredStays(m.log, n.log, from, key);
    } else {
      var s :| s in m.subs && s.key == key && !s.inactive;
      if s !in n.subs {
        if GrantedSince(m.log, key) {
          GrantAnswers(m.log, from, key);
        } else {
          var i :| |m.log| <= i < |n.log| && n.log[i] == Told(s.kind, key, DENIED);
          assert IsAnswer(n.log[i], key);
        }
      }
    }
  }

  predicate AllLeave(inputs: seq<Input>, key: Key) {
    forall i :: 0 <= i < |inputs| ==> Leaves(inputs[i], key)
  }

  lemma {:induction false} RunServes(m: Machine, inputs: seq<Input>, from: nat, key: Key)
    requires GrantInv(m) && Served(m, from, key) && AllLeave(inputs, key)
    ensures Served(Run(m, inputs), from, key)
    decreases |inputs|
  {
    if inputs != [] {
      StepServes(m, inputs[0], from, key);
      StepGrows(m, inputs[0]);
      RunServes(Step(m, inputs[0]), inputs[1..], from, key);
    }
  }

  lemma {:induction false} RunGrows(m: Machine, inputs: seq<Input>)
    requires GrantInv(m)
    ensures GrantInv(Run(m, inputs))
    decreases |inputs|
  {
    if inputs != [] {
      StepGrows(m, inputs[0]);
      RunGrows(Step(m, inputs[0]), inputs[1..]);
    }
  }

  // ---------- Results on runs ----------

  /** A new machine after some inputs. */
  function After(ds: bool, single: bool, inputs: seq<Input>): Machine {
    Run(NewMachine(ds, single), inputs)
  }

  /**
   In every reachable machine of either class: a subscription that is not refused ends with an
   active entry if and only if no inactive entry with its key is listed.
   */
  lemma ListedIffNotClosing(ds: bool, single: bool, inputs: seq<Input>, kind: Kind, key: Key, answer: Answer)
    requires var m := After(ds, single, inputs); !(m.single && m.subs != [])
    ensures var m := After(ds, single, inputs);
      Listed(SubscribeRsrc(m, kind, key, answer).subs, key) <==> !Closing(m.subs, key)
  {
    RunGrows(NewMachine(ds, single), inputs);
    SubscribeLists(After(ds, single, inputs), kind, key, answer);
  }
}
