/**
 The adapter array of gps/core/LocApiBase.cpp: registration, removal by moving
 the last adapter into the gap, the merged event mask, and the dispatch loops.
 */
module LocApiAdapters {
  import opened Sequences

  const MAX_ADAPTERS := 10

  /** The set bits of a LOC_API_ADAPTER_EVENT_MASK_T: OR is union, AND NOT is difference. */
  type EventMask = set<nat>

  class LocAdapterBase {
    const mEvtMask: EventMask

    constructor (mask: EventMask)
      ensures mEvtMask == mask
    {
      mEvtMask := mask;
    }
  }

  /** What a LocApiBase does besides keeping the array: LocOpenMsg posted, close() called. */
  datatype Effect = PostOpen(mask: EventMask) | Close

  /** Registration: at the end, unless it is there already or the array is full. */
  function Register<T(==)>(reg: seq<T>, a: T): seq<T> {
    if a in reg || |reg| >= MAX_ADAPTERS then reg else reg + [a]
  }

  /** Removal: the last one takes the place of the one removed. */
  function Unregister<T(==)>(reg: seq<T>, a: T): seq<T> {
    if a in reg then
      var j := Position(reg, a);
      reg[j := reg[|reg| - 1]][..|reg| - 1]
    else reg
  }

  function Position<T(==)>(reg: seq<T>, a: T): (j: nat)
    requires a in reg
    ensures j < |reg| && reg[j] == a && a !in reg[..j]
  {
    if reg[0] == a then 0 else 1 + Position(reg[1..], a)
  }

  /** OR of the masks of the first n adapters. */
  function MergedTo(reg: seq<LocAdapterBase>, n: nat): EventMask
    requires n <= |reg|
  {
    if n == 0 then {} else MergedTo(reg, n - 1) + reg[n - 1].mEvtMask
  }

  function Merged(reg: seq<LocAdapterBase>): EventMask {
    MergedTo(reg, |reg|)
  }

  lemma {:induction false} MergedUpTo(reg: seq<LocAdapterBase>, n: nat, x: nat)
    requires n <= |reg|
    ensures x in MergedTo(reg, n) <==> exists i :: 0 <= i < n && x in reg[i].mEvtMask
  {
    if n > 0 {
      MergedUpTo(reg, n - 1, x);
    }
  }

  /** A bit is in the merged mask exactly when some registered adapter has it. */
  lemma MergedMeaning(reg: seq<LocAdapterBase>, x: nat)
    ensures x in Merged(reg) <==> exists a :: a in reg && x in a.mEvtMask
  {
    MergedUpTo(reg, |reg|, x);
    if a: LocAdapterBase :| a in reg && x in a.mEvtMask {
      var i :| 0 <= i < |reg| && reg[i] == a;
      assert x in reg[i].mEvtMask;
    }
  }

  /** The mask has exactly the bits that some adapter asks for and that are not excluded. */
  ghost predicate Wanted(mask: EventMask, reg: seq<LocAdapterBase>, excluded: EventMask) {
    forall x :: x in mask <==> x !in excluded && exists a :: a in reg && x in a.mEvtMask
  }

  lemma MergedWanted(reg: seq<LocAdapterBase>, excluded: EventMask)
    ensures Wanted(Merged(reg) - excluded, reg, excluded)
  {
    forall x: nat ensures x in Merged(reg) <==> exists a :: a in reg && x in a.mEvtMask {
      MergedMeaning(reg, x);
    }
  }

  // ---------- What registration and removal keep ----------

  ghost function Members<T>(reg: seq<T>): set<T> {
    set x | x in reg
  }

  lemma RegisterKeeps<T>(reg: seq<T>, a: T)
    requires Distinct(reg) && |reg| <= MAX_ADAPTERS
    ensures var r := Register(reg, a);
      && Distinct(r) && |r| <= MAX_ADAPTERS
      && Members(r) == Members(reg) + (if a in reg || |reg| < MAX_ADAPTERS then {a} else {})
  {
    var r := Register(reg, a);
    forall i, j | 0 <= i < j < |r| ensures r[i] != r[j] {
      if j < |reg| {
        DistinctApart(reg, i);
      }
    }
    DistinctFrom(r);
  }

  lemma UnregisterKeeps<T>(reg: seq<T>, a: T)
    requires Distinct(reg) && |reg| <= MAX_ADAPTERS
    ensures var r := Unregister(reg, a);
      && Distinct(r) && |r| <= MAX_ADAPTERS
      && Members(r) == Members(reg) - {a}
  {
    var r := Unregister(reg, a);
    if a in reg {
      var n, k := |reg| - 1, Position(reg, a);
      forall i, j | 0 <= i < j < n ensures r[i] != r[j] {
        DistinctApart(reg, i);
        DistinctApart(reg, n);
      }
      DistinctFrom(r);
      DistinctApart(reg, k);
      forall x ensures x in r <==> x in reg && x != a {
        if x in reg && x != a {
          var i :| 0 <= i < |reg| && reg[i] == x;
          assert if i == n then r[k] == x else r[i] == x;
        }
      }
    }
  }

  /** Registration appends; removal leaves everyone where it was, except the last one, which fills the gap. */
  lemma OrderKept<T>(reg: seq<T>, a: T)
    ensures Register(reg, a) == reg || Register(reg, a) == reg + [a]
    ensures var r := Unregister(reg, a);
      forall i :: 0 <= i < |r| ==> r[i] == reg[i] || (reg[i] == a && r[i] == reg[|reg| - 1])
  {
  }

  /** Calls on a LocApiBase; the adapters themselves may be any values. */
  datatype Call<T> = Add(a: T) | Remove(a: T)

  function Apply<T(==)>(reg: seq<T>, calls: seq<Call<T>>): seq<T>
    decreases |calls|
  {
    if calls == [] then reg
    else Apply(match calls[0] case Add(a) => Register(reg, a) case Remove(a) => Unregister(reg, a), calls[1..])
  }

  /** The same calls on a set with room for ten. */
  ghost function ApplySet<T>(reg: set<T>, calls: seq<Call<T>>): set<T>
    decreases |calls|
  {
    if calls == [] then reg
    else ApplySet(match calls[0]
                  case Add(a) => if a in reg || |reg| < 10 then reg + {a} else reg
                  case Remove(a) => reg - {a},
                  calls[1..])
  }

  lemma {:induction false} MembersCount<T>(reg: seq<T>)
    requires Distinct(reg)
    ensures |Members(reg)| == |reg|
  {
    if reg != [] {
      MembersCount(reg[1..]);
      assert Members(reg) == Members(reg[1..]) + {reg[0]};
    }
  }

  /** In every run the array has no duplicates and holds the set the calls describe. */
  lemma {:induction false} RunsRefineSet<T>(reg: seq<T>, calls: seq<Call<T>>)
    requires Distinct(reg) && |reg| <= MAX_ADAPTERS
    ensures var r := Apply(reg, calls);
      Distinct(r) && |r| <= MAX_ADAPTERS && Members(r) == ApplySet(Members(reg), calls)
    decreases |calls|
  {
    if calls != [] {
      MembersCount(reg);
      match calls[0] {
        case Add(a) =>
          RegisterKeeps(reg, a);
          RunsRefineSet(Register(reg, a), calls[1..]);
        case Remove(a) =>
          UnregisterKeeps(reg, a);
          RunsRefineSet(Unregister(reg, a), calls[1..]);
      }
    }
  }

  // ---------- The array ----------

  class LocApiBase {
    const mLocAdapters: array<LocAdapterBase?>
    const mExcludedMask: EventMask
    ghost var registered: seq<LocAdapterBase>
    ghost var effects: seq<Effect>

    /** The non-NULL entries form a prefix without duplicates. */
    ghost predicate Valid()
      reads this, mLocAdapters
    {
      && mLocAdapters.Length == MAX_ADAPTERS && |registered| <= MAX_ADAPTERS
      && (forall i :: 0 <= i < MAX_ADAPTERS ==>
            mLocAdapters[i] == if i < |registered| then registered[i] else null)
      && Distinct(registered)
    }

    constructor (excluded: EventMask)
      ensures Valid() && registered == [] && effects == [] && fresh(mLocAdapters)
      ensures mExcludedMask == excluded
    {
      mLocAdapters := new LocAdapterBase?[MAX_ADAPTERS](_ => null);
      mExcludedMask := excluded;
      registered, effects := [], [];
    }

    method GetEvtMask() returns (mask: EventMask)
      requires Valid()
      ensures mask == Merged(registered) - mExcludedMask && Wanted(mask, registered, mExcludedMask)
    {
      mask := {};
      var i := 0;
      while i < MAX_ADAPTERS && mLocAdapters[i] != null
        invariant 0 <= i <= |registered|
        invariant mask == MergedTo(registered, i)
      {
        mask := mask + mLocAdapters[i].mEvtMask;
        i := i + 1;
      }
      mask := mask - mExcludedMask;
      MergedWanted(registered, mExcludedMask);
    }

    method AddAdapter(adapter: LocAdapterBase)
      requires Valid()
      modifies this, mLocAdapters
      ensures Valid()
      ensures registered == Register(old(registered), adapter)
      ensures effects == old(effects) +
        if registered == old(registered) then [] else [PostOpen(adapter.mEvtMask)]
    {
      var i := 0;
      while i < MAX_ADAPTERS && mLocAdapters[i] != adapter
        invariant 0 <= i <= |registered| && Valid()
        invariant registered == old(registered) && effects == old(effects)
        invariant adapter !in registered[..i]
        modifies {}
      {
        if mLocAdapters[i] == null {
          break;
        }
        i := i + 1;
      }
      if i < MAX_ADAPTERS && mLocAdapters[i] == null {
        assert registered[..i] == registered;
        RegisterKeeps(registered, adapter);
        mLocAdapters[i] := adapter;
        registered := registered + [adapter];
        effects := effects + [PostOpen(adapter.mEvtMask)];
      } else {
        assert i == MAX_ADAPTERS ==> registered[..i] == registered;
      }
    }

    /** The first NULL entry after i, or the end of the array. */
    method EndAfter(i: nat) returns (end: nat)
      requires mLocAdapters.Length == MAX_ADAPTERS && i < MAX_ADAPTERS
      ensures i < end <= MAX_ADAPTERS
      ensures forall k :: i < k < end ==> mLocAdapters[k] != null
      ensures end < MAX_ADAPTERS ==> mLocAdapters[end] == null
    {
      end := i + 1;
      while end < MAX_ADAPTERS && mLocAdapters[end] != null
        invariant i < end <= MAX_ADAPTERS
        invariant forall k :: i < k < end ==> mLocAdapters[k] != null
      {
        end := end + 1;
      }
    }

    /** Clears entry j, finds the end of the array, and moves the last adapter, at i, into the gap. */
    method FillGap(adapter: LocAdapterBase, j: nat) returns (i: nat)
      requires Valid() && j < |registered| && registered[j] == adapter && adapter !in registered[..j]
      modifies this`registered, mLocAdapters
      ensures Valid()
      ensures registered == Unregister(old(registered), adapter) && i == |registered|
    {
      FirstPosition(registered, adapter, j);
      UnregisterKeeps(registered, adapter);
      mLocAdapters[j] := null;
      assert forall k :: j < k < |registered| ==> mLocAdapters[k] == registered[k];
      assert |registered| < MAX_ADAPTERS ==> mLocAdapters[|registered|] == null;
      var end := EndAfter(j);
      i := end - 1;
      assert i == |registered| - 1;
      mLocAdapters[j] := mLocAdapters[i];
      mLocAdapters[i] := null;
      registered := Unregister(registered, adapter);
    }

    /** What is done after a removal: the adapter that went was the last, or the mask that is left is posted. */
    ghost function Leaving(): seq<Effect>
      reads this
    {
      if registered == [] then [Close] else [PostOpen(Merged(registered) - mExcludedMask)]
    }

    /** The body of the loop in removeAdapter; the loop variable ends at the entry cleared last. */
    method RemoveAt(adapter: LocAdapterBase, j: nat) returns (i: nat)
      requires Valid() && j < |registered| && registered[j] == adapter && adapter !in registered[..j]
      modifies this, mLocAdapters
      ensures Valid() && i == |registered|
      ensures registered == Unregister(old(registered), adapter)
      ensures effects == old(effects) + Leaving()
    {
      i := FillGap(adapter, j);
      if i == 0 {
        effects := effects + [Close];
      } else {
        var mask := GetEvtMask();
        effects := effects + [PostOpen(mask)];
      }
    }

    /** The loop goes on after a removal, and stops because the entry after the cleared one is NULL or past the end. */
    method RemoveAdapter(adapter: LocAdapterBase)
      requires Valid()
      modifies this, mLocAdapters
      ensures Valid()
      ensures registered == Unregister(old(registered), adapter)
      ensures effects == old(effects) +
        if adapter !in old(registered) then []
        else if registered == [] then [Close]
        else [PostOpen(Merged(registered) - mExcludedMask)]
      ensures Wanted(Merged(registered) - mExcludedMask, registered, mExcludedMask)
    {
      ghost var was := registered;
      ghost var removed := false;
      var i := 0;
      while i < MAX_ADAPTERS && mLocAdapters[i] != null
        invariant Valid() && 0 <= i
        invariant !removed ==> registered == was && effects == old(effects) && i <= |was| && adapter !in was[..i]
        invariant removed ==> adapter in was && i == |registered| + 1 && registered == Unregister(was, adapter)
        invariant removed ==> effects == old(effects) + Leaving()
        decreases MAX_ADAPTERS - i
      {
        if mLocAdapters[i] == adapter {
          i := RemoveAt(adapter, i);
          removed := true;
        }
        i := i + 1;
      }
      assert !removed ==> was[..i] == was;
      MergedWanted(registered, mExcludedMask);
    }

    /** TO_ALL_ADAPTERS: the adapters the call reaches, in order. */
    method DispatchToAll() returns (reached: seq<LocAdapterBase>)
      requires Valid()
      ensures reached == registered
    {
      reached := [];
      var i := 0;
      while i < MAX_ADAPTERS && mLocAdapters[i] != null
        invariant 0 <= i <= |registered| && reached == registered[..i]
      {
        reached := reached + [mLocAdapters[i]];
        i := i + 1;
      }
    }

    /** TO_1ST_HANDLING_ADAPTER: up to and including the first adapter that handles the call. */
    method DispatchToFirst(handles: LocAdapterBase -> bool) returns (reached: seq<LocAdapterBase>)
      requires Valid()
      ensures reached <= registered
      ensures forall i :: 0 <= i < |reached| - 1 ==> !handles(reached[i])
      ensures reached == registered || (reached != [] && handles(reached[|reached| - 1]))
    {
      reached := [];
      var i := 0;
      while i < MAX_ADAPTERS && mLocAdapters[i] != null
        invariant 0 <= i <= |registered| && reached == registered[..i]
        invariant forall k :: 0 <= k < i ==> !handles(registered[k])
      {
        reached := reached + [mLocAdapters[i]];
        if handles(mLocAdapters[i]) {
          return;
        }
        i := i + 1;
      }
    }
  }

  lemma {:induction false} FirstPosition<T>(reg: seq<T>, a: T, j: nat)
    requires j < |reg| && reg[j] == a && a !in reg[..j]
    ensures Position(reg, a) == j
  {
    if j > 0 {
      assert reg[0] in reg[..j];
      FirstPosition(reg[1..], a, j - 1);
    }
  }
}
