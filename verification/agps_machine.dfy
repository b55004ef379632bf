/**
 AgpsStateMachine and DSStateMachine as objects: the subscribers live in the
 doubly linked list, and every method moves the machine as module Agps says.
 */
module AgpsMachine {
  import opened LinkedLists
  import opened Sequences
  import opened Agps

  class Subscriber {
    const kind: Kind
    const key: Key
    var mIsInactive: bool

    constructor (kind: Kind, key: Key)
      ensures this.kind == kind && this.key == key && !mIsInactive
    {
      this.kind, this.key := kind, key;
      mIsInactive := false;
    }

    function View(): Subscription
      reads this
    {
      Subscription(kind, key, mIsInactive)
    }
  }

  ghost function Views(s: seq<Subscriber>): (v: seq<Subscription>)
    reads s
    ensures |v| == |s| && forall i :: 0 <= i < |s| ==> v[i] == s[i].View()
  {
    seq(|s|, i requires 0 <= i < |s| reads s => s[i].View())
  }

  lemma ViewsCons(x: Subscriber, s: seq<Subscriber>)
    ensures Views([x] + s) == [x.View()] + Views(s)
  {}

  lemma ViewsWithout(s: seq<Subscriber>, k: nat)
    requires k < |s|
    ensures Views(Without(s, k)) == Without(Views(s), k)
  {}

  // ---------- Splitting the list around a match ----------

  lemma {:induction false} MatchingConcat(a: seq<Subscription>, b: seq<Subscription>, target: Target)
    ensures Matching(a + b, target) == Matching(a, target) + Matching(b, target)
  {
    if a == [] {
      assert a + b == b;
    } else {
      var first := if ForMe(a[0], target) then [a[0]] else [];
      MatchingConcat(a[1..], b, target);
      assert (a + b)[1..] == a[1..] + b;
      Assoc(first, Matching(a[1..], target), Matching(b, target));
    }
  }

  lemma MatchingNext(a: seq<Subscription>, i: nat, target: Target)
    requires i < |a|
    ensures Matching(a[..i + 1], target) == Matching(a[..i], target) + Matching([a[i]], target)
  {
    MatchingConcat(a[..i], [a[i]], target);
    assert a[..i + 1] == a[..i] + [a[i]];
  }

  lemma {:induction false} NoneMatching(a: seq<Subscription>, target: Target)
    requires forall i :: 0 <= i < |a| ==> !ForMe(a[i], target)
    ensures Matching(a, target) == [] && Others(a, target) == a
  {
    if a != [] {
      NoneMatching(a[1..], target);
    }
  }

  /** Taking out the first match leaves the others and the later matches. */
  lemma {:induction false} FirstMatch(a: seq<Subscription>, target: Target, k: nat)
    requires k < |a| && ForMe(a[k], target)
    requires forall i :: 0 <= i < k ==> !ForMe(a[i], target)
    ensures Matching(a, target) == [a[k]] + Matching(Without(a, k), target)
    ensures Others(a, target) == Others(Without(a, k), target)
    ensures Matching(a[..k + 1], target) == [a[k]]
  {
    if k == 0 {
      assert Without(a, 0) == a[1..];
      assert a[..1] == [a[0]];
    } else {
      FirstMatch(a[1..], target, k - 1);
      assert Without(a, k)[1..] == Without(a[1..], k - 1);
      assert a[..k + 1][1..] == a[1..][..k];
    }
  }

  /** k is where a search stops: at the first match if a match stops it, else at the end. */
  ghost predicate Stops(a: seq<Subscription>, target: Target, atMatch: bool, k: nat) {
    k <= |a| && (k < |a| ==> atMatch && ForMe(a[k], target)) && Unstopped(a, target, atMatch, k)
  }

  /** Nothing before k stops the search. */
  ghost predicate Unstopped(a: seq<Subscription>, target: Target, atMatch: bool, k: nat)
    requires k <= |a|
  {
    atMatch ==> forall i :: 0 <= i < k ==> !ForMe(a[i], target)
  }

  /** What a search that stops at k has passed. */
  ghost function Passed(a: seq<Subscription>, k: nat): seq<Subscription>
    requires k <= |a|
  {
    a[..if k < |a| then k + 1 else k]
  }

  ghost predicate NoneLeft(a: seq<Subscription>, target: Target) {
    Matching(a, target) == [] && Others(a, target) == a
  }

  lemma SearchSplits(a: seq<Subscription>, target: Target, k: nat, rest: seq<Subscription>)
    requires Stops(a, target, true, k) && rest == if k < |a| then Without(a, k) else a
    ensures Matching(a, target) == Matching(Passed(a, k), target) + Matching(rest, target)
    ensures Others(a, target) == Others(rest, target)
    ensures k < |a| ==> |rest| < |a|
    ensures k == |a| ==> NoneLeft(rest, target)
  {
    if k < |a| {
      FirstMatch(a, target, k);
    } else {
      NoneMatching(a, target);
      assert Passed(a, k) == a;
    }
  }

  /** Part of the broadcast is done: told were told, and rest is what the list still holds. */
  ghost predicate Telling(all: seq<Subscription>, rest: seq<Subscription>, told: seq<Subscription>, target: Target) {
    Others(rest, target) == Others(all, target) && Matching(all, target) == told + Matching(rest, target)
  }

  lemma ToldOneMore(all: seq<Subscription>, told: seq<Subscription>, next: seq<Subscription>,
                    mid: seq<Subscription>, rest: seq<Subscription>, target: Target)
    requires Telling(all, mid, told, target) && Telling(mid, rest, next, target)
    ensures Telling(all, rest, told + next, target)
  {
    Assoc(told, next, Matching(rest, target));
  }

  lemma ToldAll(all: seq<Subscription>, rest: seq<Subscription>, told: seq<Subscription>, target: Target)
    requires Telling(all, rest, told, target) && NoneLeft(rest, target)
    ensures rest == Others(all, target) && told == Matching(all, target)
  {
    assert told + [] == told;
  }

  lemma NoticesAfter(log: seq<Mark>, told: seq<Subscription>, next: seq<Subscription>, status: RsrcStatus)
    ensures (log + Notices(told, status)) + Notices(next, status) == log + Notices(told + next, status)
  {
    NoticesConcat(told, next, status);
  }

  lemma NoticesConcat(a: seq<Subscription>, b: seq<Subscription>, status: RsrcStatus)
    ensures Notices(a + b, status) == Notices(a, status) + Notices(b, status)
  {}

  function RetriesAfter(ds: bool, retries: nat, told: seq<Subscription>, status: RsrcStatus): nat {
    if ds && status == DENIED && told != [] then 0 else retries
  }

  class AgpsStateMachine {
    const ds: bool
    const mEnforceSingleSubscriber: bool
    const mSubscribers: LinkedList<Subscriber>
    var state: State
    var mRetries: nat
    ghost var log: seq<Mark>
    ghost var objects: seq<Subscriber>  // the list's data
    ghost var subs: seq<Subscription>   // and what it stands for

    ghost predicate Valid()
      reads this`objects, this`subs, mSubscribers, mSubscribers.Repr, objects
    {
      && mSubscribers.Valid() && this !in mSubscribers.Repr
      && objects == Data(mSubscribers.contents) && subs == Views(objects)
      && (forall s :: s in objects ==> s !in mSubscribers.Repr)
      && Distinct(objects)
    }

    /** The value this object stands for. */
    ghost function Abs(): Machine
      reads this
    {
      Machine(ds, mEnforceSingleSubscriber, state, subs, mRetries, log)
    }

    constructor (ds: bool, single: bool)
      ensures Valid() && Abs() == NewMachine(ds, single)
      ensures fresh(mSubscribers.Repr)
    {
      this.ds, mEnforceSingleSubscriber := ds, single;
      mSubscribers := new LinkedList<Subscriber>();
      state, mRetries, log := Released, 0, [];
      objects, subs := [], [];
    }

    /** notifyRsrcStatus of one subscriber, which answers whether the notification was for it. */
    method NotifyRsrcStatus(s: Subscriber, target: Target, status: RsrcStatus) returns (notify: bool)
      modifies this`log, this`mRetries
      ensures notify == ForMe(s.View(), target)
      ensures var told := Matching([s.View()], target);
        && log == old(log) + Notices(told, status)
        && mRetries == RetriesAfter(ds, old(mRetries), told, status)
    {
      notify := ForMe(s.View(), target);
      if notify {
        log := log + [Told(s.kind, s.key, status)];
        if ds && status == DENIED {
          mRetries := 0;
        }
      }
    }

    /** The callback on the list's element at k, after those before it. */
    method NotifyElement(tmp: ListElement<Subscriber>, ghost k: nat, target: Target, status: RsrcStatus,
                         ghost before: seq<Mark>, ghost retries: nat, ghost told: seq<Subscription>)
      returns (notify: bool, ghost told': seq<Subscription>)
      requires Valid() && k < |mSubscribers.nodes| && mSubscribers.nodes[k] == tmp && k < |subs|
      requires told == Matching(subs[..k], target) && log == before + Notices(told, status)
      requires mRetries == RetriesAfter(ds, retries, told, status)
      modifies this`log, this`mRetries
      ensures notify == ForMe(subs[k], target)
      ensures told' == Matching(subs[..k + 1], target) && log == before + Notices(told', status)
      ensures mRetries == RetriesAfter(ds, retries, told', status)
    {
      assert tmp.entry.data.View() == subs[k];
      ghost var next := Matching([subs[k]], target);
      notify := NotifyRsrcStatus(tmp.entry.data, target, status);
      MatchingNext(subs, k, target);
      NoticesAfter(before, told, next, status);
      told' := told + next;
    }

    /**
     The loop of linked_list_search with the callback notifySubscriber, which tells each
     element while the search goes on, and stops it only at one that is to be deleted.
     */
    method NotifyWalk(target: Target, status: RsrcStatus, postNotifyDelete: bool)
      returns (tmp: ListElement?<Subscriber>, ghost k: nat, ghost told: seq<Subscription>)
      requires Valid()
      modifies this`log, this`mRetries
      ensures Valid()
      ensures k <= |mSubscribers.nodes| && tmp == if k < |mSubscribers.nodes| then mSubscribers.nodes[k] else null
      ensures Stops(subs, target, postNotifyDelete, k) && told == Matching(Passed(subs, k), target)
      ensures log == old(log) + Notices(told, status)
      ensures mRetries == RetriesAfter(ds, old(mRetries), told, status)
    {
      tmp, k, told := mSubscribers.head, 0, [];
      ghost var before, views := log, subs;
      while tmp != null
        invariant k <= |mSubscribers.nodes| == |views|
        invariant tmp == if k < |mSubscribers.nodes| then mSubscribers.nodes[k] else null
        invariant Unstopped(views, target, postNotifyDelete, k) && told == Matching(views[..k], target)
        invariant log == before + Notices(told, status)
        invariant mRetries == RetriesAfter(ds, old(mRetries), told, status)
        decreases |views| - k
      {
        var notify;
        notify, told := NotifyElement(tmp, k, target, status, before, old(mRetries), told);
        if notify && postNotifyDelete {
          break;
        }
        tmp := tmp.next;
        k := k + 1;
      }
    }

    /** linked_list_search with notifySubscriber; what it finds it removes. */
    method NotifySearch(target: Target, status: RsrcStatus, postNotifyDelete: bool)
      returns (s: Option<Subscriber>, ghost k: nat)
      requires Valid()
      modifies this`log, this`mRetries, this`objects, this`subs, mSubscribers.Repr
      ensures Valid() && mSubscribers.Repr == old(mSubscribers.Repr)
      ensures forall s :: s in objects ==> s in old(objects)
      ensures Stops(old(subs), target, postNotifyDelete, k) && (s.Some? <==> k < |old(subs)|)
      ensures subs == if s.Some? then Without(old(subs), k) else old(subs)
      ensures log == old(log) + Notices(Matching(Passed(old(subs), k), target), status)
      ensures mRetries == RetriesAfter(ds, old(mRetries), Matching(Passed(old(subs), k), target), status)
    {
      ghost var contents := mSubscribers.contents;
      var tmp;
      ghost var told;
      tmp, k, told := NotifyWalk(target, status, postNotifyDelete);
      s := if tmp == null then None else Some(tmp.entry.data);
      if tmp != null {
        mSubscribers.Unlink(tmp, k);
      }
      TakeOut(contents, k, s.Some?);
    }

    /** linked_list_search with the callback hasSubscriber, which only asks whether a notification is for a subscriber. */
    method Search(target: Target) returns (s: Option<Subscriber>, ghost k: nat)
      requires Valid()
      modifies mSubscribers.Repr
      ensures Valid() && mSubscribers.Repr == old(mSubscribers.Repr)
      ensures objects == old(objects) && subs == old(subs)
      ensures Stops(subs, target, true, k) && (s.Some? <==> k < |subs|)
      ensures s.Some? ==> k < |objects| && s.value == objects[k]
    {
      var err, calls, freed;
      err, s, calls, freed, k := mSubscribers.Search(
        (x: Subscriber) reads x => ForMe(x.View(), target), true, false);
      assert forall i :: 0 <= i < k ==> !ForMe(subs[i], target);
    }

    /** Brings the ghost view up to date after the list lost its element at k, if it did. */
    ghost method TakeOut(contents: seq<Entry<Subscriber>>, k: nat, lost: bool)
      requires mSubscribers.Valid() && this !in mSubscribers.Repr
      requires objects == Data(contents) && subs == Views(objects) && Distinct(objects)
      requires forall s :: s in objects ==> s !in mSubscribers.Repr
      requires lost ==> k < |contents|
      requires mSubscribers.contents == if lost then Without(contents, k) else contents
      modifies this`objects, this`subs
      ensures Valid()
      ensures subs == if lost then Without(old(subs), k) else old(subs)
      ensures !lost ==> objects == old(objects)
      ensures forall s :: s in objects ==> s in old(objects)
    {
      if lost {
        DataWithout(contents, k);
        ViewsWithout(objects, k);
        DistinctWithout(objects, k);
        objects, subs := Without(objects, k), Without(subs, k);
      }
    }

    /** The search of the loop in notifySubscribers: tells and takes out the first match, if any. */
    method NotifyAndDeleteOne(target: Target, status: RsrcStatus)
      returns (found: bool, ghost told: seq<Subscription>)
      requires Valid()
      modifies this`log, this`mRetries, this`objects, this`subs, mSubscribers.Repr
      ensures Valid() && mSubscribers.Repr == old(mSubscribers.Repr)
      ensures forall s :: s in objects ==> s in old(objects)
      ensures found ==> |subs| < old(|subs|)
      ensures Telling(old(subs), subs, told, target)
      ensures log == old(log) + Notices(told, status)
      ensures mRetries == RetriesAfter(ds, old(mRetries), told, status)
      ensures !found ==> NoneLeft(subs, target)
    {
      var s, k := NotifySearch(target, status, true);
      found := s.Some?;
      told := Matching(Passed(old(subs), k), target);
      SearchSplits(old(subs), target, k, subs);
    }

    /** notifySubscribers with postNotifyDelete: repeats the search until nothing matches. */
    method NotifyAndDelete(target: Target, status: RsrcStatus)
      requires Valid()
      modifies this`log, this`mRetries, this`objects, this`subs, mSubscribers.Repr
      ensures Valid() && mSubscribers.Repr == old(mSubscribers.Repr)
      ensures forall s :: s in objects ==> s in old(objects)
      ensures subs == Others(old(subs), target)
      ensures log == old(log) + Notices(Matching(old(subs), target), status)
      ensures mRetries == RetriesAfter(ds, old(mRetries), Matching(old(subs), target), status)
    {
      ghost var all, before, told := subs, log, [];
      var more := true;
      while more
        invariant Valid() && mSubscribers.Repr == old(mSubscribers.Repr)
        invariant forall s :: s in objects ==> s in old(objects)
        invariant Telling(all, subs, told, target)
        invariant log == before + Notices(told, status)
        invariant mRetries == RetriesAfter(ds, old(mRetries), told, status)
        invariant !more ==> NoneLeft(subs, target)
        decreases more, |subs|
      {
        ghost var mid, next := subs, told;
        more, next := NotifyAndDeleteOne(target, status);
        ToldOneMore(all, told, next, mid, subs, target);
        NoticesAfter(before, told, next, status);
        told := told + next;
      }
      ToldAll(all, subs, told, target);
    }

    method NotifySubscribers(target: Target, status: RsrcStatus, postNotifyDelete: bool)
      requires Valid()
      modifies this`log, this`mRetries, this`objects, this`subs, mSubscribers.Repr
      ensures Valid() && mSubscribers.Repr == old(mSubscribers.Repr)
      ensures forall s :: s in objects ==> s in old(objects)
      ensures Abs() == Agps.NotifySubscribers(old(Abs()), target, status, postNotifyDelete)
    {
      if postNotifyDelete {
        NotifyAndDelete(target, status);
      } else {
        var s, k := NotifySearch(target, status, false);
        assert Passed(subs, k) == subs;
      }
    }

    // ---------- Operations the states use ----------

    method AddSubscriber(kind: Kind, key: Key)
      requires Valid()
      modifies this`objects, this`subs, mSubscribers.Repr
      ensures Valid() && fresh(mSubscribers.Repr - old(mSubscribers.Repr))
      ensures forall s :: s in objects ==> s in old(objects) || fresh(s)
      ensures Abs() == Agps.AddSubscriber(old(Abs()), kind, key)
    {
      var s, k := Search(One(key));
      IndexFound(subs, key, k);
      if s == None {
        AddClone(kind, key);
      }
    }

    method AddClone(kind: Kind, key: Key)
      requires Valid()
      modifies this`objects, this`subs, mSubscribers.Repr
      ensures Valid() && fresh(mSubscribers.Repr - old(mSubscribers.Repr))
      ensures forall s :: s in objects ==> s in old(objects) || fresh(s)
      ensures subs == [Subscription(kind, key, false)] + old(subs)
    {
      var clone := new Subscriber(kind, key);
      ghost var contents := mSubscribers.contents;
      var err := mSubscribers.Add(Some(clone), true);
      PutIn(clone, contents);
    }

    /** Brings the ghost view up to date after the list gained a first element. */
    ghost method PutIn(clone: Subscriber, contents: seq<Entry<Subscriber>>)
      requires mSubscribers.Valid() && this !in mSubscribers.Repr
      requires objects == Data(contents) && subs == Views(objects) && Distinct(objects) && clone !in objects
      requires clone !in mSubscribers.Repr && forall s :: s in objects ==> s !in mSubscribers.Repr
      requires mSubscribers.contents == [Entry(clone, true)] + contents
      modifies this`objects, this`subs
      ensures Valid()
      ensures objects == [clone] + old(objects) && subs == [clone.View()] + old(subs)
    {
      DataCons(Entry(clone, true), contents);
      ViewsCons(clone, objects);
      assert ([clone] + objects)[1..] == objects;
      objects, subs := [clone] + objects, [clone.View()] + subs;
    }

    method HasSubscribers() returns (has: bool)
      requires Valid()
      ensures has <==> subs != []
    {
      var empty := mSubscribers.Empty();
      has := !empty;
    }

    /** Searches for the first active subscriber: hasActiveSubscribers, and connHandle of the data machine. */
    method FirstActive() returns (has: bool, id: int)
      requires Valid()
      modifies this`objects, this`subs, mSubscribers.Repr
      ensures Valid() && mSubscribers.Repr == old(mSubscribers.Repr)
      ensures objects == old(objects) && subs == old(subs)
      ensures has <==> HasActive(subs)
      ensures id == ActiveId(subs)
    {
      var s, k := Search(Active);
      has, id := s.Some?, if s.Some? then s.value.key.id else -1;
      ActiveFound(subs, k);
    }

    method SendRsrcRequest(action: Action, answer: Answer) returns (ok: bool)
      requires Valid()
      modifies this`log, this`mRetries, this`objects, this`subs, mSubscribers.Repr
      ensures Valid() && mSubscribers.Repr == old(mSubscribers.Repr)
      ensures objects == old(objects)
      ensures (Abs(), ok) == Agps.SendRsrcRequest(old(Abs()), action, answer)
    {
      var has, id := FirstActive();
      if !ds {
        if !has == (action == RELEASE) {
          log := log + [Sent(action)];
        }
        return true;
      }
      RequestData(action, answer, id);
      ok := answer == SUCCESS;
    }

    /** What DSStateMachine does with the answer of requestRsrc. */
    method RequestData(action: Action, answer: Answer, id: int)
      requires ds && id == ActiveId(subs)
      modifies this`log, this`mRetries
      ensures Abs() == Agps.SendRsrcRequest(old(Abs()), action, answer).0
    {
      log := log + [Sent(action)];
      match answer {
        case SUCCESS =>
        case BUSY(timerStarts) =>
          log := log + [Busy];
          mRetries := (mRetries + 1) % 256;
          if mRetries > MAX_START_DATA_CALL_RETRIES {
            FallBack(id);
          } else if timerStarts {
            log := log + [TimerStarted];
          }
        case UNSUPPORTED => FallBack(id);
        case FAILED => FallBack(id);
        case OTHER =>
      }
    }

    /** informStatus(RSRC_DENIED, id). */
    method FallBack(id: int)
      modifies this`log, this`mRetries
      ensures mRetries == 0 && log == old(log) + [FellBack(id)]
    {
      mRetries := 0;
      log := log + [FellBack(id)];
    }

    /** setInactive of the list's subscriber at i. */
    method SetInactive(s: Subscriber, ghost i: nat)
      requires Valid() && i < |objects| && objects[i] == s
      modifies this`log, this`subs, s
      ensures Valid()
      ensures Abs() == Agps.SetInactive(old(Abs()), i)
    {
      DistinctApart(objects, i);
      s.mIsInactive := true;
      subs := subs[i := subs[i].(inactive := true)];
      assert subs == Views(objects);
      log := log + if s.kind == DS then [Told(DS, s.key, UNSUBSCRIBE)] else [];
    }

    method DropAllSubscribers()
      requires Valid()
      modifies this`objects, this`subs, mSubscribers.Repr
      ensures Valid() && mSubscribers.Repr == old(mSubscribers.Repr)
      ensures Abs() == Agps.Step(old(Abs()), DropAll) && objects == []
    {
      var freed := mSubscribers.Flush();
      objects, subs := [], [];
    }

    // ---------- The state handlers ----------

    method Arrive(key: Key)
      requires Valid()
      modifies this`log
      ensures Valid() && Abs() == old(Abs()).(log := old(log) + [Subscribing(key)])
    {
      log := log + [Subscribing(key)];
    }

    method OnSubscribe(kind: Kind, key: Key, answer: Answer)
      requires Valid()
      modifies this`state, this`log, this`mRetries, this`objects, this`subs, mSubscribers.Repr
      ensures Valid() && fresh(mSubscribers.Repr - old(mSubscribers.Repr))
      ensures forall s :: s in objects ==> s in old(objects) || fresh(s)
      ensures Abs() == Agps.OnSubscribe(old(Abs()), kind, key, answer)
    {
      Arrive(key);
      Join(kind, key, answer);
    }

    /** What each state does with a subscriber that has arrived. */
    method Join(kind: Kind, key: Key, answer: Answer)
      requires Valid()
      modifies this`state, this`log, this`mRetries, this`objects, this`subs, mSubscribers.Repr
      ensures Valid() && fresh(mSubscribers.Repr - old(mSubscribers.Repr))
      ensures forall s :: s in objects ==> s in old(objects) || fresh(s)
      ensures Abs() == Agps.Join(old(Abs()), kind, key, answer)
    {
      match state {
        case Released => StartRequest(kind, key, answer);
        case Acquired => GrantAndAdd(kind, key);
        case _ => AddSubscriber(kind, key);
      }
    }

    /** SUBSCRIBE in state Released: a failed request leaves the state, and the subscriber for a retry. */
    method StartRequest(kind: Kind, key: Key, answer: Answer)
      requires Valid()
      modifies this`state, this`log, this`mRetries, this`objects, this`subs, mSubscribers.Repr
      ensures Valid() && fresh(mSubscribers.Repr - old(mSubscribers.Repr))
      ensures forall s :: s in objects ==> s in old(objects) || fresh(s)
      ensures Abs() == Agps.StartRequest(old(Abs()), kind, key, answer)
    {
      AddSubscriber(kind, key);
      var ok := SendRsrcRequest(REQUEST, answer);
      if ok {
        state := Pending;
      }
    }

    /** SUBSCRIBE in state Acquired. */
    method GrantAndAdd(kind: Kind, key: Key)
      requires Valid()
      modifies this`log, this`mRetries, this`objects, this`subs, mSubscribers.Repr
      ensures Valid() && fresh(mSubscribers.Repr - old(mSubscribers.Repr))
      ensures forall s :: s in objects ==> s in old(objects) || fresh(s)
      ensures Abs() == Agps.AddSubscriber(Tell(old(Abs()), [Subscription(kind, key, false)], GRANTED), kind, key)
    {
      TellCaller(kind, key, GRANTED);
      AddSubscriber(kind, key);
    }

    /** notifyRsrcStatus of a subscriber that is not in the list. */
    method TellCaller(kind: Kind, key: Key, status: RsrcStatus)
      modifies this`log, this`mRetries
      ensures Abs() == Tell(old(Abs()), [Subscription(kind, key, false)], status)
    {
      log := log + [Told(kind, key, status)];
      if ds && status == DENIED {
        mRetries := 0;
      }
    }

    /** The subscriber leaves, or is marked when its close has to be awaited. */
    method Leave(s: Subscriber, ghost i: nat)
      requires i < |objects| && objects[i] == s
      requires Valid()
      modifies this`state, this`log, this`mRetries, this`objects, this`subs, mSubscribers.Repr, objects
      ensures Valid() && fresh(mSubscribers.Repr - old(mSubscribers.Repr))
      ensures forall s :: s in objects ==> s in old(objects) || fresh(s)
      ensures |subs| <= old(|subs|)
      ensures Abs() == Agps.Leave(old(Abs()), i)
    {
      if WaitForCloseComplete(s.kind) {
        SetInactive(s, i);
      } else {
        NotifySubscribers(One(s.key), UNSUBSCRIBE, true);
        SplitLength(old(subs), One(s.key));
      }
    }

    method OnUnsubscribe(s: Subscriber, ghost i: nat, answer: Answer)
      requires i < |objects| && objects[i] == s
      requires Valid()
      modifies this`state, this`log, this`mRetries, this`objects, this`subs, mSubscribers.Repr, objects
      ensures Valid() && fresh(mSubscribers.Repr - old(mSubscribers.Repr))
      ensures forall s :: s in objects ==> s in old(objects) || fresh(s)
      ensures Abs() == Agps.OnUnsubscribe(old(Abs()), i, answer)
    {
      match state {
        case Released =>
          log := log + [Told(s.kind, s.key, UNSUBSCRIBE)];
        case Releasing => LeaveReleasing(s, i);
        case _ => LeaveInUse(s, i, answer);
      }
    }

    /** UNSUBSCRIBE in state Releasing. */
    method LeaveReleasing(s: Subscriber, ghost i: nat)
      requires i < |objects| && objects[i] == s
      requires Valid()
      modifies this`state, this`log, this`mRetries, this`objects, this`subs, mSubscribers.Repr, objects
      ensures Valid() && fresh(mSubscribers.Repr - old(mSubscribers.Repr))
      ensures forall s :: s in objects ==> s in old(objects) || fresh(s)
      ensures Abs() == var n := Agps.Leave(old(Abs()), i); if n.subs == [] then n.(state := Released) else n
    {
      Leave(s, i);
      EndIfEmpty();
    }

    /** UNSUBSCRIBE in state Pending or Acquired. */
    method LeaveInUse(s: Subscriber, ghost i: nat, answer: Answer)
      requires i < |objects| && objects[i] == s
      requires Valid()
      modifies this`state, this`log, this`mRetries, this`objects, this`subs, mSubscribers.Repr, objects
      ensures Valid() && fresh(mSubscribers.Repr - old(mSubscribers.Repr))
      ensures forall s :: s in objects ==> s in old(objects) || fresh(s)
      ensures Abs() == Agps.ReleaseIfIdle(Agps.Leave(old(Abs()), i), answer)
    {
      Leave(s, i);
      ReleaseIfIdle(answer);
    }

    /** What Releasing does after a subscriber has left. */
    method EndIfEmpty()
      requires Valid()
      modifies this`state
      ensures Valid()
      ensures Abs() == var m := old(Abs()); if m.subs == [] then m.(state := Released) else m
    {
      var has := HasSubscribers();
      if !has {
        state := Released;
      }
    }

    /** What Pending and Acquired do after a subscriber has left. */
    method ReleaseIfIdle(answer: Answer)
      requires Valid()
      modifies this`state, this`log, this`mRetries, this`objects, this`subs, mSubscribers.Repr
      ensures Valid() && fresh(mSubscribers.Repr - old(mSubscribers.Repr))
      ensures forall s :: s in objects ==> s in old(objects) || fresh(s)
      ensures objects == old(objects)
      ensures Abs() == Agps.ReleaseIfIdle(old(Abs()), answer)
    {
      var has := HasSubscribers();
      var hasActive, id := FirstActive();
      if !has {
        state := Released;
        var ok := SendRsrcRequest(RELEASE, answer);
      } else if !hasActive {
        state := Releasing;
        var ok := SendRsrcRequest(RELEASE, answer);
      }
    }

    method OnGranted()
      requires Valid()
      modifies this`state, this`log, this`mRetries, this`objects, this`subs, mSubscribers.Repr
      ensures Valid() && fresh(mSubscribers.Repr - old(mSubscribers.Repr))
      ensures forall s :: s in objects ==> s in old(objects) || fresh(s)
      ensures Abs() == Agps.OnGranted(old(Abs()))
    {
      log := log + [Heard(state, GRANTED)];
      if state == Pending {
        NotifySubscribers(Active, GRANTED, false);
        state := Acquired;
      }
    }

    method OnReleasingDone(status: RsrcStatus, answer: Answer)
      requires Valid()
      modifies this`state, this`log, this`mRetries, this`objects, this`subs, mSubscribers.Repr
      ensures Valid() && fresh(mSubscribers.Repr - old(mSubscribers.Repr))
      ensures forall s :: s in objects ==> s in old(objects) || fresh(s)
      ensures Abs() == Agps.OnReleasingDone(old(Abs()), status, answer)
    {
      NotifySubscribers(Inactive, status, true);
      RequestIfActive(answer);
    }

    method RequestIfActive(answer: Answer)
      requires Valid()
      modifies this`state, this`log, this`mRetries, this`objects, this`subs, mSubscribers.Repr
      ensures Valid() && fresh(mSubscribers.Repr - old(mSubscribers.Repr))
      ensures forall s :: s in objects ==> s in old(objects) || fresh(s)
      ensures Abs() == var m := old(Abs());
        if HasActive(m.subs) then Agps.SendRsrcRequest(m.(state := Pending), REQUEST, answer).0
        else m.(state := Released)
    {
      var hasActive, id := FirstActive();
      if hasActive {
        state := Pending;
        var ok := SendRsrcRequest(REQUEST, answer);
      } else {
        state := Released;
      }
    }

    method OnReleased(answer: Answer)
      requires Valid()
      modifies this`state, this`log, this`mRetries, this`objects, this`subs, mSubscribers.Repr
      ensures Valid() && fresh(mSubscribers.Repr - old(mSubscribers.Repr))
      ensures forall s :: s in objects ==> s in old(objects) || fresh(s)
      ensures Abs() == Agps.OnReleased(old(Abs()), answer)
    {
      log := log + [Heard(state, RELEASED)];
      match state {
        case Released =>
        case Pending =>
        case Acquired =>
          NotifySubscribers(All, RELEASED, true);
          state := Released;
        case Releasing => OnReleasingDone(RELEASED, answer);
      }
    }

    method OnDenied(answer: Answer)
      requires Valid()
      modifies this`state, this`log, this`mRetries, this`objects, this`subs, mSubscribers.Repr
      ensures Valid() && fresh(mSubscribers.Repr - old(mSubscribers.Repr))
      ensures forall s :: s in objects ==> s in old(objects) || fresh(s)
      ensures Abs() == Agps.OnDenied(old(Abs()), answer)
    {
      log := log + [Heard(state, DENIED)];
      match state {
        case Released =>
        case Pending =>
          NotifySubscribers(All, DENIED, true);
          state := Released;
        case Acquired =>
        case Releasing => OnReleasingDone(DENIED, answer);
      }
    }

    // ---------- The interface ----------

    method SubscribeRsrc(kind: Kind, key: Key, answer: Answer)
      requires Valid()
      modifies this`state, this`log, this`mRetries, this`objects, this`subs, mSubscribers.Repr
      ensures Valid() && fresh(mSubscribers.Repr - old(mSubscribers.Repr))
      ensures forall s :: s in objects ==> s in old(objects) || fresh(s)
      ensures Abs() == Agps.SubscribeRsrc(old(Abs()), kind, key, answer)
    {
      var has := HasSubscribers();
      if mEnforceSingleSubscriber && has {
        TellCaller(kind, key, DENIED);
      } else {
        OnSubscribe(kind, key, answer);
      }
    }

    method UnsubscribeRsrc(key: Key, answer: Answer) returns (found: bool)
      requires Valid()
      modifies this`state, this`log, this`mRetries, this`objects, this`subs, mSubscribers.Repr, objects
      ensures Valid() && fresh(mSubscribers.Repr - old(mSubscribers.Repr))
      ensures forall s :: s in objects ==> s in old(objects) || fresh(s)
      ensures (Abs(), found) == Agps.UnsubscribeRsrc(old(Abs()), key, answer)
    {
      var s, k := Search(One(key));
      IndexFound(subs, key, k);
      found := s.Some?;
      if found {
        OnUnsubscribe(s.value, k, answer);
      }
    }

    method OnRsrcEvent(status: RsrcStatus, answer: Answer)
      requires Valid()
      modifies this`state, this`log, this`mRetries, this`objects, this`subs, mSubscribers.Repr
      ensures Valid() && fresh(mSubscribers.Repr - old(mSubscribers.Repr))
      ensures forall s :: s in objects ==> s in old(objects) || fresh(s)
      ensures Abs() == Agps.OnRsrcEvent(old(Abs()), status, answer)
    {
      match status {
        case GRANTED => OnGranted();
        case RELEASED =>
          var before := state;
          OnReleased(answer);
          if ds && state == before {
            OnDenied(answer);
          }
        case DENIED => OnDenied(answer);
        case UNSUBSCRIBE =>
      }
    }

    // ---------- Runs ----------

    method Take(input: Input)
      requires Valid()
      modifies this`state, this`log, this`mRetries, this`objects, this`subs, mSubscribers.Repr, objects
      ensures Valid() && fresh(mSubscribers.Repr - old(mSubscribers.Repr))
      ensures forall s :: s in objects ==> s in old(objects) || fresh(s)
      ensures Abs() == Agps.Step(old(Abs()), input)
    {
      match input {
        case Subscribe(kind, key, answer) => SubscribeRsrc(kind, key, answer);
        case Unsubscribe(key, answer) => var found := UnsubscribeRsrc(key, answer);
        case FrameworkEvent(status, answer) => OnRsrcEvent(status, answer);
        case DropAll => DropAllSubscribers();
      }
    }

    /** Any sequence of inputs: what is proved of the runs of machines on values holds of this object. */
    method TakeAll(inputs: seq<Input>)
      requires Valid()
      modifies this`state, this`log, this`mRetries, this`objects, this`subs, mSubscribers.Repr, objects
      ensures Valid() && fresh(mSubscribers.Repr - old(mSubscribers.Repr))
      ensures forall s :: s in objects ==> s in old(objects) || fresh(s)
      ensures Abs() == Agps.Run(old(Abs()), inputs)
    {
      ghost var end := Agps.Run(Abs(), inputs);
      var rest := inputs;
      while rest != []
        invariant Valid()
        invariant forall o :: o in mSubscribers.Repr ==> o in old(mSubscribers.Repr) || fresh(o)
        invariant forall i :: 0 <= i < |objects| ==> objects[i] in old(objects) || fresh(objects[i])
        invariant end == Agps.Run(Abs(), rest)
        decreases |rest|
      {
        ghost var was := mSubscribers.Repr;
        Take(rest[0]);
        assert forall o :: o in mSubscribers.Repr ==> o in was || o in mSubscribers.Repr - was;
        rest := rest[1..];
      }
    }
  }

  lemma {:induction false} SplitLength(a: seq<Subscription>, target: Target)
    ensures |Others(a, target)| <= |a|
  {
    if a != [] {
      SplitLength(a[1..], target);
    }
  }

  lemma {:induction false} IndexFound(a: seq<Subscription>, key: Key, k: nat)
    requires Stops(a, One(key), true, k)
    ensures IndexOf(a, key) == k
  {}

  lemma {:induction false} ActiveFoundAt(a: seq<Subscription>, k: nat)
    requires k < |a| && !a[k].inactive && forall i :: 0 <= i < k ==> a[i].inactive
    ensures ActiveId(a) == a[k].key.id
  {
    if k > 0 {
      ActiveFoundAt(a[1..], k - 1);
    }
  }

  lemma {:induction false} NoActive(a: seq<Subscription>)
    requires forall i :: 0 <= i < |a| ==> a[i].inactive
    ensures ActiveId(a) == -1
  {
    if a != [] {
      NoActive(a[1..]);
    }
  }

  lemma ActiveFound(a: seq<Subscription>, k: nat)
    requires Stops(a, Active, true, k)
    ensures HasActive(a) <==> k < |a|
    ensures ActiveId(a) == if k < |a| then a[k].key.id else -1
  {
    if k < |a| { ActiveFoundAt(a, k); } else { NoActive(a); }
  }
}
