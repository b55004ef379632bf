/**
 The two loops over bit masks: the certificate slot count of
 gps/libloc_api_50001/loc_eng.cpp and the used-satellite scan of loc_eng_nmea.cpp.
 */
module BitMasks {
  import opened Sequences

  /** Bit k of the mask. */
  predicate Bit(mask: bv32, k: nat) {
    if k == 0 then mask & 1 == 1 else Bit(mask >> 1, k - 1)
  }

  /** The number of set bits among the lowest n. */
  function BitCount(mask: bv32, n: nat): nat {
    if n == 0 then 0 else (if mask & 1 == 1 then 1 else 0) + BitCount(mask >> 1, n - 1)
  }

  lemma {:induction false} BitCountZero(n: nat)
    ensures BitCount(0, n) == 0
  {
    if n > 0 {
      BitCountZero(n - 1);
    }
  }

  lemma ClearLowestOdd(mask: bv32)
    requires mask & 1 == 1
    ensures (mask & (mask - 1)) & 1 == 0 && (mask & (mask - 1)) >> 1 == mask >> 1
  {}

  lemma ClearLowestEven(mask: bv32)
    requires mask & 1 == 0 && mask != 0
    ensures mask >> 1 != 0 && (mask & (mask - 1)) & 1 == 0
    ensures (mask & (mask - 1)) >> 1 == (mask >> 1) & ((mask >> 1) - 1)
  {}

  /** The mask fits in n bits. */
  predicate Fits(mask: bv32, n: nat) {
    mask == 0 || (n > 0 && Fits(mask >> 1, n - 1))
  }

  /** Clearing the lowest set bit takes one from the count. */
  lemma {:induction false} ClearLowest(mask: bv32, n: nat)
    requires mask != 0 && Fits(mask, n)
    ensures BitCount(mask & (mask - 1), n) == BitCount(mask, n) - 1
    ensures Fits(mask & (mask - 1), n)
    decreases n
  {
    if mask & 1 == 1 {
      ClearLowestOdd(mask);
    } else {
      LowBit(mask);
      ClearLowestEven(mask);
      ClearLowest(mask >> 1, n - 1);
    }
  }

  lemma LowBit(mask: bv32)
    ensures mask & 1 == 0 || mask & 1 == 1
  {}

  lemma ShiftFour(mask: bv32)
    ensures (((mask >> 1) >> 1) >> 1) >> 1 == mask >> 4
  {}

  lemma FitsFourMore(mask: bv32, n: nat)
    requires Fits(mask >> 4, n)
    ensures Fits(mask, n + 4)
  {
    ShiftFour(mask);
    assert Fits(((mask >> 1) >> 1) >> 1, n + 1);
    assert Fits((mask >> 1) >> 1, n + 2);
    assert Fits(mask >> 1, n + 3);
  }

  lemma EightNibbles(mask: bv32)
    ensures (((((((mask >> 4) >> 4) >> 4) >> 4) >> 4) >> 4) >> 4) >> 4 == 0
  {}

  lemma Fits32(mask: bv32)
    ensures Fits(mask, 32)
  {
    var m1 := mask >> 4;
    var m2 := m1 >> 4;
    var m3 := m2 >> 4;
    var m4 := m3 >> 4;
    var m5 := m4 >> 4;
    var m6 := m5 >> 4;
    var m7 := m6 >> 4;
    EightNibbles(mask);
    FitsFourMore(m7, 0);
    FitsFourMore(m6, 4);
    FitsFourMore(m5, 8);
    FitsFourMore(m4, 12);
    FitsFourMore(m3, 16);
    FitsFourMore(m2, 20);
    FitsFourMore(m1, 24);
    FitsFourMore(mask, 28);
  }

  /** slotCount of loc_eng_agps_install_certificates. */
  method CountSlots(slotBitMask: bv32) returns (slotCount: nat)
    ensures slotCount == BitCount(slotBitMask, 32)
  {
    var counter := slotBitMask;
    slotCount := 0;
    Fits32(slotBitMask);
    while counter != 0
      invariant Fits(counter, 32)
      invariant slotCount + BitCount(counter, 32) == BitCount(slotBitMask, 32)
      decreases BitCount(counter, 32)
    {
      ClearLowest(counter, 32);
      counter := counter & (counter - 1);
      slotCount := slotCount + 1;
    }
    BitCountZero(32);
  }

  // ---------- The scan of used satellites ----------

  /** The numbers, from first on, of the set bits among the lowest n. */
  function UsedFrom(mask: bv32, first: nat, n: nat): (r: seq<nat>)
    ensures |r| == BitCount(mask, n)
    decreases n
  {
    if n == 0 then [] else (if mask & 1 == 1 then [first] else []) + UsedFrom(mask >> 1, first + 1, n - 1)
  }

  lemma {:induction false} UsedFromZero(first: nat, n: nat)
    ensures UsedFrom(0, first, n) == []
    decreases n
  {
    if n > 0 {
      UsedFromZero(first + 1, n - 1);
    }
  }

  lemma UsedStep(mask: bv32, first: nat, n: nat)
    requires n > 0
    ensures var rest := UsedFrom(mask >> 1, first + 1, n - 1);
      UsedFrom(mask, first, n) == if mask & 1 == 1 then [first] + rest else rest
  {}

  predicate Increasing(r: seq<nat>) {
    forall i, j :: 0 <= i < j < |r| ==> r[i] < r[j]
  }

  predicate Within(r: seq<nat>, lo: nat, hi: nat) {
    forall i :: 0 <= i < |r| ==> lo <= r[i] < hi
  }

  lemma ConsIncreasing(x: nat, r: seq<nat>, hi: nat)
    requires Increasing(r) && Within(r, x + 1, hi) && x < hi
    ensures Increasing([x] + r) && Within([x] + r, x, hi)
  {}

  lemma {:induction false} UsedIncreases(mask: bv32, first: nat, n: nat)
    ensures Increasing(UsedFrom(mask, first, n)) && Within(UsedFrom(mask, first, n), first, first + n)
    decreases n
  {
    if n > 0 {
      UsedIncreases(mask >> 1, first + 1, n - 1);
      UsedStep(mask, first, n);
      ConsIncreasing(first, UsedFrom(mask >> 1, first + 1, n - 1), first + n);
    }
  }

  lemma {:induction false} UsedHolds(mask: bv32, first: nat, n: nat, k: nat)
    requires k < n
    ensures first + k in UsedFrom(mask, first, n) <==> Bit(mask, k)
    decreases n
  {
    var rest := UsedFrom(mask >> 1, first + 1, n - 1);
    UsedIncreases(mask >> 1, first + 1, n - 1);
    UsedStep(mask, first, n);
    if k > 0 {
      UsedHolds(mask >> 1, first + 1, n - 1, k - 1);
      assert first + 1 + (k - 1) == first + k != first;
    }
  }

  /** The list is strictly increasing and holds k + 1 exactly when bit k is set. */
  lemma UsedMeaning(mask: bv32)
    ensures var r := UsedFrom(mask, 1, 32);
      && |r| == BitCount(mask, 32)
      && Increasing(r) && Within(r, 1, 33)
      && (forall k :: 0 <= k < 32 ==> (k + 1 in r <==> Bit(mask, k)))
  {
    UsedIncreases(mask, 1, 32);
    forall k | 0 <= k < 32 ensures k + 1 in UsedFrom(mask, 1, 32) <==> Bit(mask, k) {
      UsedHolds(mask, 1, 32, k);
    }
  }

  /** The scan loop, over a mask of at most bits bits and a list of that length. */
  method ScanInto(svUsedList: array<nat>, svUsedMask: bv32, bits: nat) returns (svUsedCount: nat)
    requires svUsedList.Length == bits && Fits(svUsedMask, bits)
    requires forall k :: 0 <= k < bits ==> svUsedList[k] == 0
    modifies svUsedList
    ensures svUsedCount <= bits && svUsedList[..svUsedCount] == UsedFrom(svUsedMask, 1, bits)
    ensures forall k :: svUsedCount <= k < bits ==> svUsedList[k] == 0
  {
    svUsedCount := 0;
    var mask := svUsedMask;
    var i := 1;
    ghost var done: seq<nat> := [];
    BitCountAtMost(svUsedMask, bits);
    while mask > 0 && svUsedCount < bits
      invariant 1 <= i <= bits + 1 && Fits(mask, bits + 1 - i)
      invariant svUsedCount == |done| <= bits && svUsedList[..svUsedCount] == done
      invariant done + UsedFrom(mask, i, bits + 1 - i) == UsedFrom(svUsedMask, 1, bits)
      invariant forall k :: svUsedCount <= k < bits ==> svUsedList[k] == 0
      decreases bits + 1 - i
    {
      UsedStep(mask, i, bits + 1 - i);
      if mask & 1 == 1 {
        svUsedList[svUsedCount] := i;
        svUsedCount := svUsedCount + 1;
        Assoc(done, [i], UsedFrom(mask >> 1, i + 1, bits - i));
        done := done + [i];
      }
      mask := mask >> 1;
      i := i + 1;
    }
    RestEmpty(mask, i, bits + 1 - i, done, UsedFrom(svUsedMask, 1, bits), bits);
  }

  /** svUsedList and svUsedCount of loc_eng_nmea_generate_pos. */
  method ScanUsed(svUsedMask: bv32) returns (svUsedList: array<nat>, svUsedCount: nat)
    ensures svUsedList.Length == 32 && svUsedCount <= 32
    ensures svUsedList[..svUsedCount] == UsedFrom(svUsedMask, 1, 32)
    ensures forall i :: svUsedCount <= i < 32 ==> svUsedList[i] == 0
  {
    svUsedList := new nat[32](_ => 0);
    Fits32(svUsedMask);
    svUsedCount := ScanInto(svUsedList, svUsedMask, 32);
  }

  /** When the mask is used up, or the list is full, nothing is missing. */
  lemma RestEmpty(mask: bv32, first: nat, n: nat, done: seq<nat>, all: seq<nat>, most: nat)
    requires done + UsedFrom(mask, first, n) == all && |all| <= most && (mask == 0 || |done| == most)
    ensures done == all
  {
    if mask == 0 {
      UsedFromZero(first, n);
    }
    assert UsedFrom(mask, first, n) == [];
  }

  lemma {:induction false} BitCountAtMost(mask: bv32, n: nat)
    ensures BitCount(mask, n) <= n
  {
    if n > 0 {
      BitCountAtMost(mask >> 1, n - 1);
    }
  }
}
