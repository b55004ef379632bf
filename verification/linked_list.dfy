/**
 The doubly linked list of gps/utils/linked_list.c. The heap structure refines
 the sequence contents: its front is p_head, its end p_tail.
 */
module LinkedLists {
  import opened Sequences

  datatype Option<+T> = None | Some(value: T)

  datatype ListError = LIST_SUCCESS | LIST_INVALID_PARAMETER | LIST_UNAVAILABLE_RESOURCE

  /** What one element carries; dealloc tells whether it was added with a dealloc function. */
  datatype Entry<T> = Entry(data: T, dealloc: bool)

  class ListElement<T> {
    var next: ListElement?<T>
    var prev: ListElement?<T>
    const entry: Entry<T>

    constructor (entry: Entry<T>)
      ensures this.entry == entry && next == null && prev == null
    {
      this.entry := entry;
      next, prev := null, null;
    }
  }

  /** The data of those entries that came with a dealloc function. */
  function Deallocated<T>(s: seq<Entry<T>>): (d: seq<T>)
    ensures |d| <= |s|
  {
    if s == [] then []
    else (if s[0].dealloc then [s[0].data] else []) + Deallocated(s[1..])
  }

  lemma {:induction false} DeallocatedConcat<T>(s: seq<Entry<T>>, t: seq<Entry<T>>)
    ensures Deallocated(s + t) == Deallocated(s) + Deallocated(t)
  {
    if s == [] {
      assert s + t == t;
    } else {
      var first := if s[0].dealloc then [s[0].data] else [];
      DeallocatedConcat(s[1..], t);
      assert (s + t)[1..] == s[1..] + t;
      Assoc(first, Deallocated(s[1..]), Deallocated(t));
    }
  }

  /** Where the entries with this data stand that came with a dealloc function. */
  ghost function Places<T>(s: seq<Entry<T>>, x: T): set<nat> {
    set i: nat | i < |s| && s[i].dealloc && s[i].data == x
  }

  lemma PlacesNext<T>(s: seq<Entry<T>>, e: Entry<T>, x: T)
    ensures |Places(s + [e], x)| == |Places(s, x)| + if e.dealloc && e.data == x then 1 else 0
  {
    var n := |s|;
    assert Places(s + [e], x) == Places(s, x) + if e.dealloc && e.data == x then {n} else {};
  }

  /** Each datum is deallocated exactly as often as entries with a dealloc function hold it. */
  lemma {:induction false} DeallocatedCounts<T>(s: seq<Entry<T>>, x: T)
    ensures multiset(Deallocated(s))[x] == |Places(s, x)|
    decreases |s|
  {
    if s == [] {
      assert Places(s, x) == {};
    } else {
      var n := |s| - 1;
      var last := [s[n]];
      DeallocatedCounts(s[..n], x);
      DeallocatedConcat(s[..n], last);
      PlacesNext(s[..n], s[n], x);
      assert s == s[..n] + last && last[1..] == [];
      assert Deallocated(last) == if s[n].dealloc then [s[n].data] else [];
    }
  }

  function Data<T>(s: seq<Entry<T>>): (d: seq<T>)
    ensures |d| == |s|
    ensures forall i :: 0 <= i < |s| ==> d[i] == s[i].data
  {
    seq(|s|, i requires 0 <= i < |s| => s[i].data)
  }

  lemma DataCons<T>(e: Entry<T>, s: seq<Entry<T>>)
    ensures Data([e] + s) == [e.data] + Data(s)
  {}

  lemma DataWithout<T>(s: seq<Entry<T>>, k: nat)
    requires k < |s|
    ensures Data(Without(s, k)) == Without(Data(s), k)
  {}

  class LinkedList<T> {
    var head: ListElement?<T>
    var tail: ListElement?<T>
    ghost var nodes: seq<ListElement<T>>
    ghost var contents: seq<Entry<T>>  // what the elements carry, from head to tail
    ghost var Repr: set<object>

    ghost predicate Valid()
      reads this, Repr
      ensures Valid() ==> this in Repr
    {
      && this in Repr
      && (forall n :: n in nodes ==> n in Repr)
      && (head == if nodes == [] then null else nodes[0])
      && (tail == if nodes == [] then null else nodes[|nodes| - 1])
      && Linked(nodes)
      && |contents| == |nodes| && forall i {:trigger nodes[i].entry} :: 0 <= i < |nodes| ==> nodes[i].entry == contents[i]
    }

    /** next and prev agree with the order of the elements, which are distinct. */
    static ghost predicate Linked(nodes: seq<ListElement<T>>)
      reads nodes
    {
      && (forall i, j :: 0 <= i < j < |nodes| ==> nodes[i] != nodes[j])
      && (forall i {:trigger nodes[i].next} :: 0 <= i < |nodes| ==> nodes[i].next == if i + 1 < |nodes| then nodes[i + 1] else null)
      && (forall i {:trigger nodes[i].prev} :: 0 <= i < |nodes| ==> nodes[i].prev == if i > 0 then nodes[i - 1] else null)
    }

    constructor ()
      ensures Valid() && contents == []
      ensures fresh(Repr)
    {
      head, tail, nodes, contents := null, null, [], [];
      Repr := {this};
    }

    method Empty() returns (empty: bool)
      requires Valid()
      ensures empty <==> contents == []
    {
      empty := head == null;
    }

    /** linked_list_add: a new element goes to the front; None stands for a NULL data pointer. */
    method Add(obj: Option<T>, dealloc: bool) returns (err: ListError)
      requires Valid()
      modifies Repr
      ensures Valid()
      ensures err == if obj == None then LIST_INVALID_PARAMETER else LIST_SUCCESS
      ensures obj == None ==> contents == old(contents)
      ensures obj.Some? ==> contents == [Entry(obj.value, dealloc)] + old(contents)
      ensures fresh(Repr - old(Repr))
    {
      if obj == None {
        return LIST_INVALID_PARAMETER;
      }
      var elem := new ListElement(Entry(obj.value, dealloc));
      var tmp := head;
      head := elem;
      head.next := tmp;
      if tmp != null {
        tmp.prev := head;
      } else {
        tail := head;
      }
      nodes, contents := [elem] + nodes, [elem.entry] + contents;
      Repr := Repr + {elem};
      return LIST_SUCCESS;
    }

    /** linked_list_remove: takes the element at the tail, the one added first. */
    method Remove() returns (err: ListError, obj: Option<T>)
      requires Valid()
      modifies Repr
      ensures Valid()
      ensures old(contents) == [] ==>
        err == LIST_UNAVAILABLE_RESOURCE && obj == None && contents == []
      ensures old(contents) != [] ==>
        var c := old(contents);
        err == LIST_SUCCESS && obj == Some(c[|c| - 1].data) && contents == c[..|c| - 1]
      ensures Repr == old(Repr)
    {
      if tail == null {
        return LIST_UNAVAILABLE_RESOURCE, None;
      }
      var tmp := tail;
      assert nodes[|nodes| - 1].prev == if |nodes| > 1 then nodes[|nodes| - 2] else null;
      tail := tmp.prev;
      if tail != null {
        tail.next := null;
      } else {
        head := tail;
      }
      nodes, contents := nodes[..|nodes| - 1], contents[..|contents| - 1];
      return LIST_SUCCESS, Some(tmp.entry.data);
    }

    /** linked_list_flush: freed lists the data handed to dealloc functions, in order. */
    method Flush() returns (freed: seq<T>)
      requires Valid()
      modifies Repr
      ensures Valid() && contents == [] && Repr == old(Repr)
      ensures freed == Deallocated(old(contents))
    {
      freed := [];
      ghost var all := contents;
      ghost var elems := nodes;
      ghost var i := 0;
      while head != null
        invariant 0 <= i <= |elems|
        invariant head == if i < |elems| then elems[i] else null
        invariant freed == Deallocated(all[..i])
        invariant Repr == old(Repr)
        invariant forall k {:trigger elems[k].next} :: 0 <= k < |elems| ==> elems[k].next == if k + 1 < |elems| then elems[k + 1] else null
        decreases |elems| - i
      {
        var tmp := head.next;
        assert all[..i + 1] == all[..i] + [all[i]];
        DeallocatedConcat(all[..i], [all[i]]);
        if head.entry.dealloc {
          freed := freed + [head.entry.data];
        }
        head := tmp;
        i := i + 1;
      }
      assert all[..i] == all;
      tail := null;
      nodes, contents := [], [];
    }

    /**
     linked_list_search. calls lists the data the callback was given, in order;
     k is the position of the first match, or the length of the list.
     copyOut tells whether a place for the data was passed in.
     */
    method Search(equal: T ~> bool, copyOut: bool, rmIfFound: bool)
      returns (err: ListError, found: Option<T>, calls: seq<T>, freed: seq<T>, ghost k: nat)
      requires Valid()
      requires forall e :: e in contents ==> equal.requires(e.data)
      requires forall e :: e in contents ==> equal.reads(e.data) !! Repr
      modifies Repr
      ensures Valid() && Repr == old(Repr)
      ensures k <= |old(contents)|
      ensures forall i :: 0 <= i < k ==> !old(equal(contents[i].data))
      ensures k < |old(contents)| ==> old(equal(contents[k].data))
      ensures err == if old(contents) == [] then LIST_UNAVAILABLE_RESOURCE else LIST_SUCCESS
      ensures found == if k < |old(contents)| && copyOut then Some(old(contents)[k].data) else None
      ensures calls == Data(old(contents))[..if k < |old(contents)| then k + 1 else k]
      ensures k < |old(contents)| && rmIfFound ==>
        contents == Without(old(contents), k)
      ensures !(k < |old(contents)| && rmIfFound) ==> contents == old(contents)
      ensures freed == if k < |old(contents)| && rmIfFound && !copyOut && old(contents)[k].dealloc
                       then [old(contents)[k].data] else []
    {
      found, calls, freed, k := None, [], [], 0;
      if tail == null {
        return LIST_UNAVAILABLE_RESOURCE, found, calls, freed, k;
      }
      var tmp := head;
      ghost var all := contents;
      while tmp != null
        invariant 0 <= k <= |nodes|
        invariant tmp == if k < |nodes| then nodes[k] else null
        invariant forall i :: 0 <= i < k ==> !old(equal(contents[i].data))
        invariant calls == Data(all)[..k]
        decreases |nodes| - k
        modifies {}
      {
        assert tmp.entry == all[k];
        calls := calls + [tmp.entry.data];
        if equal(tmp.entry.data) {
          break;
        }
        tmp := tmp.next;
        k := k + 1;
      }
      if tmp != null {
        if copyOut {
          found := Some(tmp.entry.data);
        }
        if rmIfFound {
          Unlink(tmp, k);
          if !copyOut && tmp.entry.dealloc {
            freed := [tmp.entry.data];
          }
        }
      }
      err := LIST_SUCCESS;
    }

    /** The relinking of linked_list_search around the element it removes. */
    method Unlink(tmp: ListElement<T>, ghost k: nat)
      requires Valid() && k < |nodes| && nodes[k] == tmp
      modifies Repr
      ensures Valid() && Repr == old(Repr)
      ensures nodes == Without(old(nodes), k) && contents == Without(old(contents), k)
    {
      ghost var before, after, rest := nodes, Without(nodes, k), Without(contents, k);
      assert before[k].next == if k + 1 < |before| then before[k + 1] else null;
      assert before[k].prev == if k > 0 then before[k - 1] else null;
      if tmp.prev == null {
        head := tmp.next;
      } else {
        tmp.prev.next := tmp.next;
      }
      if tmp.next == null {
        tail := tmp.prev;
      } else {
        tmp.next.prev := tmp.prev;
      }
      tmp.prev, tmp.next := null, null;
      nodes, contents := after, rest;
      forall i {:trigger after[i].entry} | 0 <= i < |after|
        ensures after[i].entry == rest[i]
      {
        assert after[i] == before[if i < k then i else i + 1];
      }
      forall i {:trigger after[i].next} | 0 <= i < |after|
        ensures after[i].next == if i + 1 < |after| then after[i + 1] else null
      {
        assert i < k ==> old(before[i].next) == before[i + 1];
        assert i >= k ==> old(before[i + 1].next) == if i + 2 < |before| then before[i + 2] else null;
      }
      forall i {:trigger after[i].prev} | 0 <= i < |after|
        ensures after[i].prev == if i > 0 then after[i - 1] else null
      {
        assert i < k ==> old(before[i].prev) == if i > 0 then before[i - 1] else null;
        assert i >= k ==> old(before[i + 1].prev) == before[i];
      }
    }
  }
}
