/**
 The message queue of gps/utils/msg_q.c: the sections that run under list_mutex,
 as methods over the linked list, and every interleaving of them by any number
 of threads, as runs of a protocol.
 */
module MsgQueues {
  import opened LinkedLists
  import opened Sequences

  datatype MsgError = MSG_Q_SUCCESS | MSG_Q_INVALID_PARAMETER | MSG_Q_UNAVAILABLE_RESOURCE

  function ConvertError(e: ListError): MsgError {
    match e
    case LIST_SUCCESS => MSG_Q_SUCCESS
    case LIST_INVALID_PARAMETER => MSG_Q_INVALID_PARAMETER
    case LIST_UNAVAILABLE_RESOURCE => MSG_Q_UNAVAILABLE_RESOURCE
  }

  /** What the mutex protects; the oldest message comes first. */
  datatype Shared<T> = Shared(queue: seq<Entry<T>>, unblocked: bool)

  /** How a section of msg_q_rcv ends: with a return value, or waiting on the condition. */
  datatype RcvResult<+T> = Return(err: MsgError, msg: Option<T>) | Wait

  function SndStep<T>(s: Shared<T>, msg: Option<T>, dealloc: bool): (r: (Shared<T>, MsgError)) {
    if msg == None then (s, MSG_Q_INVALID_PARAMETER)
    else if s.unblocked then (s, MSG_Q_UNAVAILABLE_RESOURCE)
    else (s.(queue := s.queue + [Entry(msg.value, dealloc)]), MSG_Q_SUCCESS)
  }

  /** msg_q_rcv from the moment it holds the mutex after waiting. */
  function ResumeStep<T>(s: Shared<T>): (r: (Shared<T>, RcvResult<T>)) {
    if s.queue != [] then (s.(queue := s.queue[1..]), Return(MSG_Q_SUCCESS, Some(s.queue[0].data)))
    else if s.unblocked then (s, Return(MSG_Q_UNAVAILABLE_RESOURCE, None))
    else (s, Wait)
  }

  /** msg_q_rcv from its beginning. */
  function EnterStep<T>(s: Shared<T>): (r: (Shared<T>, RcvResult<T>)) {
    if s.unblocked then (s, Return(MSG_Q_UNAVAILABLE_RESOURCE, None)) else ResumeStep(s)
  }

  function FlushStep<T>(s: Shared<T>): Shared<T> {
    s.(queue := [])
  }

  function UnblockStep<T>(s: Shared<T>): Shared<T> {
    s.(unblocked := true)
  }

  // ---------- The locked sections ----------

  ghost function Reverse<X>(s: seq<X>): (r: seq<X>)
    ensures |r| == |s| && forall i :: 0 <= i < |s| ==> r[i] == s[|s| - 1 - i]
  {
    seq(|s|, i requires 0 <= i < |s| => s[|s| - 1 - i])
  }

  lemma ReverseCons<X>(x: X, s: seq<X>)
    ensures Reverse([x] + s) == Reverse(s) + [x]
  {}

  class MsgQueue<T> {
    const list: LinkedList<T>
    var unblocked: bool

    ghost predicate Valid()
      reads this, list, list.Repr
    {
      list.Valid() && this !in list.Repr
    }

    ghost function State(): Shared<T>
      reads this, list, list.Repr
    {
      Shared(Reverse(list.contents), unblocked)
    }

    constructor ()
      ensures Valid() && State() == Shared([], false)
      ensures fresh(list.Repr)
    {
      list := new LinkedList<T>();
      unblocked := false;
    }

    method Snd(msg: Option<T>, dealloc: bool) returns (rv: MsgError)
      requires Valid()
      modifies list.Repr
      ensures Valid()
      ensures (State(), rv) == SndStep(old(State()), msg, dealloc)
      ensures fresh(list.Repr - old(list.Repr))
    {
      if msg == None {
        return MSG_Q_INVALID_PARAMETER;
      }
      if unblocked {
        return MSG_Q_UNAVAILABLE_RESOURCE;
      }
      ghost var before := list.contents;
      var err := list.Add(msg, dealloc);
      rv := ConvertError(err);
      ReverseCons(Entry(msg.value, dealloc), before);
    }

    /** The wait loop's test and what follows it. */
    method RcvResume() returns (r: RcvResult<T>)
      requires Valid()
      modifies list.Repr
      ensures Valid()
      ensures (State(), r) == ResumeStep(old(State()))
      ensures list.Repr == old(list.Repr)
    {
      var empty := list.Empty();
      if empty && !unblocked {
        return Wait;
      }
      ghost var before := list.contents;
      var err, obj := list.Remove();
      r := Return(ConvertError(err), obj);
      if before != [] {
        assert Reverse(before)[1..] == Reverse(list.contents);
      }
    }

    method RcvEnter() returns (r: RcvResult<T>)
      requires Valid()
      modifies list.Repr
      ensures Valid()
      ensures (State(), r) == EnterStep(old(State()))
      ensures list.Repr == old(list.Repr)
    {
      if unblocked {
        return Return(MSG_Q_UNAVAILABLE_RESOURCE, None);
      }
      r := RcvResume();
    }

    /** Frees the messages that came with a dealloc function, newest first. */
    method Flush() returns (rv: MsgError, freed: seq<T>)
      requires Valid()
      modifies list.Repr
      ensures Valid()
      ensures State() == FlushStep(old(State())) && rv == MSG_Q_SUCCESS
      ensures freed == Deallocated(Reverse(old(State()).queue))
      ensures list.Repr == old(list.Repr)
    {
      assert Reverse(Reverse(list.contents)) == list.contents;
      freed := list.Flush();
      rv := MSG_Q_SUCCESS;
    }

    method Unblock() returns (rv: MsgError)
      requires Valid()
      modifies this
      ensures Valid()
      ensures State() == UnblockStep(old(State()))
      ensures rv == if old(unblocked) then MSG_Q_UNAVAILABLE_RESOURCE else MSG_Q_SUCCESS
    {
      if unblocked {
        return MSG_Q_UNAVAILABLE_RESOURCE;
      }
      unblocked := true;
      rv := MSG_Q_SUCCESS;
    }
  }

  // ---------- Every interleaving ----------

  type Thread = nat

  /** A message that left the queue: what msg_q_rcv returned to its caller, or what a flush dropped. */
  datatype Gone<T> = ToReceiver(t: Thread, msg: T) | Flushed(msg: T)

  /**
   asleep: threads in pthread_cond_wait; woken: threads that left it and still
   have to get the mutex. accepted and gone are the history.
   */
  datatype World<T> = World(shared: Shared<T>, asleep: set<Thread>, woken: set<Thread>,
                            accepted: seq<Entry<T>>, gone: seq<Gone<T>>)

  datatype Event<T> =
    | Snd(msg: Option<T>, dealloc: bool, wake: set<Thread>)
    | Enter(t: Thread)
    | Resume(t: Thread)
    | SpuriousWakeup(t: Thread)
    | Flush
    | Unblock

  /** pthread_cond_signal wakes at least one waiting thread, if there is any. */
  ghost predicate Enabled<T>(w: World<T>, e: Event<T>) {
    match e
    case Snd(msg, _, wake) =>
      if SndStep(w.shared, msg, false).1 == MSG_Q_SUCCESS
      then wake <= w.asleep && (w.asleep != {} ==> wake != {})
      else wake == {}
    case Enter(t) => t !in w.asleep && t !in w.woken
    case Resume(t) => t in w.woken
    case SpuriousWakeup(t) => t in w.asleep
    case Flush => true
    case Unblock => true
  }

  /** A section of msg_q_rcv run by thread t; what it returns to its caller goes into the history. */
  ghost function Receive<T>(w: World<T>, t: Thread, step: (Shared<T>, RcvResult<T>)): World<T> {
    var v := w.(shared := step.0);
    match step.1
    case Wait => v.(asleep := v.asleep + {t})
    case Return(_, None) => v
    case Return(_, Some(msg)) => v.(gone := v.gone + [ToReceiver(t, msg)])
  }

  ghost function Next<T>(w: World<T>, e: Event<T>): World<T> {
    match e
    case Snd(msg, dealloc, wake) =>
      var r := SndStep(w.shared, msg, dealloc);
      if r.1 == MSG_Q_SUCCESS && msg.Some?
      then w.(shared := r.0, accepted := w.accepted + [Entry(msg.value, dealloc)],
              asleep := w.asleep - wake, woken := w.woken + wake)
      else w
    case Enter(t) => Receive(w, t, EnterStep(w.shared))
    case Resume(t) => Receive(w.(woken := w.woken - {t}), t, ResumeStep(w.shared))
    case SpuriousWakeup(t) => w.(asleep := w.asleep - {t}, woken := w.woken + {t})
    case Flush =>
      w.(shared := FlushStep(w.shared),
         gone := w.gone + seq(|w.shared.queue|, i requires 0 <= i < |w.shared.queue| => Flushed(w.shared.queue[i].data)))
    case Unblock =>
      if w.shared.unblocked then w
      else w.(shared := UnblockStep(w.shared), asleep := {}, woken := w.woken + w.asleep)
  }

  ghost predicate IsInitial<T>(w: World<T>) {
    w == World(Shared([], false), {}, {}, [], [])
  }

  ghost predicate Legal<T>(w: World<T>, run: seq<Event<T>>)
    decreases |run|
  {
    run == [] || (Enabled(w, run[0]) && Legal(Next(w, run[0]), run[1..]))
  }

  ghost function After<T>(w: World<T>, run: seq<Event<T>>): World<T>
    decreases |run|
  {
    if run == [] then w else After(Next(w, run[0]), run[1..])
  }

  ghost function Messages<T>(gone: seq<Gone<T>>): (s: seq<T>)
    ensures |s| == |gone|
  {
    seq(|gone|, i requires 0 <= i < |gone| => gone[i].msg)
  }

  /** The messages that left are the first accepted ones, in order, and the queue holds the others. */
  ghost predicate Accounted<T>(w: World<T>) {
    && |w.gone| <= |w.accepted| && w.shared.queue == w.accepted[|w.gone|..]
    && forall i :: 0 <= i < |w.gone| ==> w.gone[i].msg == w.accepted[i].data
  }

  /**
   What every step keeps. The last clause is the absence of lost wake-ups: while
   messages wait and a receiver sleeps, enough others have been woken to take them.
   */
  ghost predicate Inv<T>(w: World<T>) {
    && Accounted(w)
    && w.asleep !! w.woken
    && (w.shared.unblocked ==> w.asleep == {})
    && (w.asleep != {} ==> |w.woken| >= |w.shared.queue|)
  }

  lemma ReceiveKeepsInv<T>(w: World<T>, t: Thread, step: (Shared<T>, RcvResult<T>))
    requires Accounted(w)
    requires w.asleep !! w.woken && t !in w.woken
    requires w.shared.unblocked ==> w.asleep == {}
    requires w.asleep != {} ==> |w.woken| + 1 >= |w.shared.queue|
    requires step == ResumeStep(w.shared)
    ensures Inv(Receive(w, t, step))
    ensures var v, queue := Receive(w, t, step), w.shared.queue;
      if queue != [] then
        v == w.(shared := w.shared.(queue := queue[1..]), gone := w.gone + [ToReceiver(t, queue[0].data)])
      else v == if w.shared.unblocked then w else w.(asleep := w.asleep + {t})
  {
    if w.shared.queue != [] {
      assert w.accepted[|w.gone|..][1..] == w.accepted[|w.gone| + 1..];
      assert w.shared.queue[0] == w.accepted[|w.gone|];
    }
  }

  lemma SndKeepsInv<T>(w: World<T>, msg: Option<T>, dealloc: bool, wake: set<Thread>)
    requires Inv(w) && Enabled(w, Snd(msg, dealloc, wake))
    ensures Inv(Next(w, Snd(msg, dealloc, wake)))
  {
    var w' := Next(w, Snd(msg, dealloc, wake));
    if w' != w {
      assert |w'.woken| == |w.woken| + |wake|;
      assert w'.accepted[|w.gone|..] == w.accepted[|w.gone|..] + [Entry(msg.value, dealloc)];
    }
  }

  lemma NextKeepsInv<T>(w: World<T>, e: Event<T>)
    requires Inv(w) && Enabled(w, e)
    ensures Inv(Next(w, e))
  {
    var w' := Next(w, e);
    match e
    case Snd(msg, dealloc, wake) => SndKeepsInv(w, msg, dealloc, wake);
    case Enter(t) =>
      if !w.shared.unblocked { ReceiveKeepsInv(w, t, ResumeStep(w.shared)); }
    case Resume(t) =>
      ReceiveKeepsInv(w.(woken := w.woken - {t}), t, ResumeStep(w.shared));
    case SpuriousWakeup(t) =>
    case Flush =>
      assert |w'.gone| == |w.accepted| && w.accepted[|w.accepted|..] == [];
    case Unblock =>
  }

  lemma {:induction false} RunKeepsInv<T>(w: World<T>, run: seq<Event<T>>)
    requires Inv(w) && Legal(w, run)
    ensures Inv(After(w, run))
    decreases |run|
  {
    if run != [] {
      NextKeepsInv(w, run[0]);
      RunKeepsInv(Next(w, run[0]), run[1..]);
    }
  }

  /** Without a flush everything that left the queue went to a receiver. */
  lemma {:induction false} NoFlushNoneDropped<T>(w: World<T>, run: seq<Event<T>>)
    requires Legal(w, run) && Event<T>.Flush !in run
    requires forall g :: g in w.gone ==> g.ToReceiver?
    ensures forall g :: g in After(w, run).gone ==> g.ToReceiver?
    decreases |run|
  {
    if run != [] {
      assert run[0] != Event<T>.Flush;
      NoFlushNoneDropped(Next(w, run[0]), run[1..]);
    }
  }

  /**
   FIFO: in every run the accepted messages are those that left the queue, in the order they left it,
   followed by those still in it; with no flush all that left are what the receives returned.
   */
  lemma Fifo<T>(w: World<T>, run: seq<Event<T>>)
    requires IsInitial(w) && Legal(w, run)
    ensures var v := After(w, run);
      && Data(v.accepted) == Messages(v.gone) + Data(v.shared.queue)
      && v.shared.queue == v.accepted[|v.gone|..]
      && (Event<T>.Flush !in run ==> forall g :: g in v.gone ==> g.ToReceiver?)
  {
    RunKeepsInv(w, run);
    if Event<T>.Flush !in run {
      NoFlushNoneDropped(w, run);
    }
  }

  /** What the result of a section of msg_q_rcv hands to the caller. */
  function HandedBy<T>(r: RcvResult<T>): seq<T> {
    if r.Return? && r.msg.Some? then [r.msg.value] else []
  }

  /** What the receiving section of an event returns. */
  ghost function Handed<T>(w: World<T>, e: Event<T>): seq<T> {
    match e
    case Enter(_) => HandedBy(EnterStep(w.shared).1)
    case Resume(_) => HandedBy(ResumeStep(w.shared).1)
    case _ => []
  }

  /** All that the receives of a run return, in the order they return. */
  ghost function HandedIn<T>(w: World<T>, run: seq<Event<T>>): seq<T>
    decreases |run|
  {
    if run == [] then [] else Handed(w, run[0]) + HandedIn(Next(w, run[0]), run[1..])
  }

  lemma HandedLeaves<T>(w: World<T>, e: Event<T>)
    requires e != Flush
    ensures Messages(Next(w, e).gone) == Messages(w.gone) + Handed(w, e)
  {
  }

  lemma {:induction false} AllHandedLeave<T>(w: World<T>, run: seq<Event<T>>)
    requires Event<T>.Flush !in run
    ensures Messages(After(w, run).gone) == Messages(w.gone) + HandedIn(w, run)
    decreases |run|
  {
    if run != [] {
      assert run[0] in run;
      HandedLeaves(w, run[0]);
      AllHandedLeave(Next(w, run[0]), run[1..]);
      Assoc(Messages(w.gone), Handed(w, run[0]), HandedIn(Next(w, run[0]), run[1..]));
    }
  }

  /** Every message accepted in a run without a flush is returned by a receive, once, in order, or still queued. */
  lemma ReceivedAreSent<T>(w: World<T>, run: seq<Event<T>>)
    requires IsInitial(w) && Legal(w, run) && Event<T>.Flush !in run
    ensures var v := After(w, run); Data(v.accepted) == HandedIn(w, run) + Data(v.shared.queue)
  {
    Fifo(w, run);
    AllHandedLeave(w, run);
  }

  /** A send is accepted exactly when it has a message and the queue is not unblocked; then it comes last. */
  lemma SendAccepted<T>(w: World<T>, msg: Option<T>, dealloc: bool, wake: set<Thread>)
    ensures var v := Next(w, Snd(msg, dealloc, wake));
      if msg.Some? && !w.shared.unblocked then
        && v.accepted == w.accepted + [Entry(msg.value, dealloc)]
        && v.shared == Shared(w.shared.queue + [Entry(msg.value, dealloc)], false)
      else v == w
    ensures var err := SndStep(w.shared, msg, dealloc).1;
      && (err == MSG_Q_INVALID_PARAMETER <==> msg == None)
      && (err == MSG_Q_UNAVAILABLE_RESOURCE <==> msg.Some? && w.shared.unblocked)
  {
  }

  /**
   A receive returns a message exactly when one is queued and, for a new receive, the queue is not
   unblocked; it waits exactly on an empty queue that is not unblocked.
   */
  lemma ReceiveReturns<T>(s: Shared<T>, enters: bool)
    ensures var r := if enters then EnterStep(s) else ResumeStep(s);
      && (HandedBy(r.1) != [] <==> s.queue != [] && !(enters && s.unblocked))
      && (HandedBy(r.1) != [] ==> HandedBy(r.1) + Data(r.0.queue) == Data(s.queue) && r.1.err == MSG_Q_SUCCESS)
      && (r.1 == Wait <==> s.queue == [] && !s.unblocked)
      && (HandedBy(r.1) == [] ==> r.0 == s && (r.1.Return? ==> r.1.err == MSG_Q_UNAVAILABLE_RESOURCE))
      && r.0.unblocked == s.unblocked
  {
    if s.queue != [] {
      DataCons(s.queue[0], s.queue[1..]);
      assert [s.queue[0]] + s.queue[1..] == s.queue;
    }
  }

  /** In every run, a sleeping receiver with messages waiting has a woken one ahead of it per message. */
  lemma NoLostWakeup<T>(w: World<T>, run: seq<Event<T>>)
    requires IsInitial(w) && Legal(w, run)
    ensures var v := After(w, run);
      v.asleep != {} ==> !v.shared.unblocked && |v.woken| >= |v.shared.queue|
  {
    RunKeepsInv(w, run);
  }

  /** From u on: nothing is accepted, nobody sleeps, and only threads waiting in u are served. */
  ghost predicate Served<T>(u: World<T>, v: World<T>) {
    && v.shared.unblocked && v.accepted == u.accepted && v.asleep == {} && v.woken <= u.woken
    && u.gone <= v.gone
    && forall i :: |u.gone| <= i < |v.gone| && v.gone[i].ToReceiver? ==> v.gone[i].t in u.woken - v.woken
  }

  lemma UnblockedStep<T>(w: World<T>, e: Event<T>)
    requires Inv(w) && w.shared.unblocked && Enabled(w, e)
    ensures Served(w, Next(w, e))
  {
  }

  lemma ServedOn<T>(u: World<T>, v: World<T>, w: World<T>)
    requires Served(u, v) && Served(v, w)
    ensures Served(u, w)
  {
    forall i | |u.gone| <= i < |w.gone| && w.gone[i].ToReceiver?
      ensures w.gone[i].t in u.woken - w.woken
    {
      if i < |v.gone| {
        assert v.gone[i] == w.gone[i];
      }
    }
  }

  lemma {:induction false} UnblockedServesWaiters<T>(w: World<T>, run: seq<Event<T>>)
    requires Inv(w) && w.shared.unblocked && Legal(w, run)
    ensures Served(w, After(w, run))
    decreases |run|
  {
    if run != [] {
      var v := Next(w, run[0]);
      NextKeepsInv(w, run[0]);
      UnblockedStep(w, run[0]);
      UnblockedServesWaiters(v, run[1..]);
      ServedOn(w, v, After(v, run[1..]));
    }
  }

  lemma CancelPrefix<X>(a: seq<X>, b: seq<X>, c: seq<X>)
    requires a + b == a + c
    ensures b == c
  {
    assert (a + b)[|a|..] == b && (a + c)[|a|..] == c;
  }

  lemma QueueDrained<X>(gone: seq<X>, queue: seq<X>, later: seq<X>, left: seq<X>)
    requires gone + queue == (gone + later) + left
    ensures queue == later + left
  {
    assert (gone + later) + left == gone + (later + left);
    CancelPrefix(gone, queue, later + left);
  }

  lemma MessagesSplit<T>(gone: seq<Gone<T>>, n: nat)
    requires n <= |gone|
    ensures Messages(gone) == Messages(gone[..n]) + Messages(gone[n..])
  {
  }

  lemma AccountedData<T>(w: World<T>)
    requires Accounted(w)
    ensures Data(w.accepted) == Messages(w.gone) + Data(w.shared.queue)
  {
  }

  /**
   Once unblocked: no send is accepted and nobody sleeps; the messages that still
   leave the queue are its oldest ones in order, and each goes to a thread that was
   already waiting at the start, not to a new receive.
   */
  lemma UnblockedForGood<T>(w: World<T>, run: seq<Event<T>>)
    requires Inv(w) && w.shared.unblocked && Legal(w, run)
    ensures var v := After(w, run);
      && Served(w, v)
      && Data(w.shared.queue) == Messages(v.gone[|w.gone|..]) + Data(v.shared.queue)
  {
    UnblockedServesWaiters(w, run);
    RunKeepsInv(w, run);
    var v, n := After(w, run), |w.gone|;
    var later := Messages(v.gone[n..]);
    AccountedData(w);
    AccountedData(v);
    MessagesSplit(v.gone, n);
    assert v.gone[..n] == w.gone;
    QueueDrained(Messages(w.gone), Data(w.shared.queue), later, Data(v.shared.queue));
  }
}
