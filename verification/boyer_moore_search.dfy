/**
 bm_search of recovery/recovery_updater.cpp: every result is an occurrence, and
 exactly which patterns it finds in every text.
 */
module BoyerMooreSearch {
  import opened BoyerMooreTables

  ghost predicate OccursAt(text: Str, pat: Str, a: int) {
    0 <= a <= |text| - |pat| && forall k :: 0 <= k < |pat| ==> text[a + k] == pat[k]
  }

  /** r is the first occurrence at or after a, or -1 when there is none. */
  ghost predicate IsLeftmost(text: Str, pat: Str, a: int, r: int) {
    if r == -1 then forall t :: a <= t ==> !OccursAt(text, pat, t)
    else a <= r && OccursAt(text, pat, r) && forall t :: a <= t < r ==> !OccursAt(text, pat, t)
  }

  /** The inner loop: the last position of the window, from j down, that differs; -1 if none does. */
  function Mismatch(text: Str, pat: Str, a: nat, j: int): (m: int)
    requires a + |pat| <= |text| && -1 <= j < |pat|
    ensures -1 <= m <= j
    ensures forall k :: m < k <= j ==> text[a + k] == pat[k]
    ensures m >= 0 ==> text[a + m] != pat[m]
    decreases j + 1
  {
    if j < 0 || text[a + j] != pat[j] then j else Mismatch(text, pat, a, j - 1)
  }

  function Max(x: int, y: int): (m: int)
    ensures m >= x && m >= y && (m == x || m == y)
  {
    if x > y then x else y
  }

  /** How far the window moves after a mismatch at m. */
  ghost function Jump(text: Str, pat: Str, a: nat, m: nat): (d: nat)
    requires m < |pat| && a + |pat| <= |text|
    ensures d >= 1 && d >= Shift(pat, m)
  {
    Delta2Bounds(pat, m);
    Max(Delta1(pat, text[a + m]), Delta2(pat, m)) - (|pat| - 1 - m)
  }

  /** The position bm_search reports for the windows from a on; -1 stands for NULL. */
  ghost function SearchFrom(text: Str, pat: Str, a: nat): int
    requires pat != []
    decreases |text| - a
  {
    if a + |pat| > |text| then -1
    else
      var m := Mismatch(text, pat, a, |pat| - 1);
      if m < 0 then a else SearchFrom(text, pat, a + Jump(text, pat, a, m))
  }

  /** Every answer but NULL is a real occurrence, whatever the pattern. */
  lemma {:induction false} SearchSound(text: Str, pat: Str, a: nat)
    requires pat != []
    ensures var r := SearchFrom(text, pat, a); r == -1 || (a <= r && OccursAt(text, pat, r))
    decreases |text| - a
  {
    if a + |pat| <= |text| {
      var m := Mismatch(text, pat, a, |pat| - 1);
      if m >= 0 {
        SearchSound(text, pat, a + Jump(text, pat, a, m));
      }
    }
  }

  // ---------- The search loop ----------

  /** A mismatch at m: the search goes on at the window that Jump leads to. */
  lemma SearchOn(text: Str, pat: Str, a: nat, m: nat)
    requires m < |pat| && a + |pat| <= |text| && m == Mismatch(text, pat, a, |pat| - 1)
    ensures SearchFrom(text, pat, a) == SearchFrom(text, pat, a + Jump(text, pat, a, m))
  {
  }

  /** One turn of the outer loop: i is the new index, next the window it ends. */
  lemma SearchStep(text: Str, pat: Str, a: nat, m: nat, i: nat) returns (next: nat)
    requires m < |pat| && a + |pat| <= |text|
    requires m == Mismatch(text, pat, a, |pat| - 1)
    requires i == a + m + Max(Delta1(pat, text[a + m]), Delta2(pat, m))
    ensures a < next && i == next + |pat| - 1 < |text| + 2 * |pat|
    ensures SearchFrom(text, pat, a) == SearchFrom(text, pat, next)
  {
    Delta2Bounds(pat, m);
    next := a + Jump(text, pat, a, m);
    SearchOn(text, pat, a, m);
  }

  /** The inner loop: compares the window ending at end backwards. */
  method CompareWindow(text: Str, pat: Str, end: int) returns (i: int, j: int)
    requires 0 < |pat| <= end + 1 <= |text|
    ensures j == Mismatch(text, pat, end - (|pat| - 1), |pat| - 1)
    ensures i == end - (|pat| - 1) + j
  {
    i, j := end, |pat| - 1;
    while j >= 0 && text[i] == pat[j]
      invariant i == end - (|pat| - 1) + j
      invariant Mismatch(text, pat, end - (|pat| - 1), |pat| - 1) <= j < |pat|
    {
      i := i - 1;
      j := j - 1;
    }
  }

  /** The outer loop, with both tables made. */
  method SearchWith(text: Str, pat: Str, delta1: array<int>, delta2: array<int>) returns (r: int)
    requires 0 < |pat| && |text| + 2 * |pat| <= INT_MAX
    requires delta1.Length == ALPHABET_LEN && forall c: Byte :: delta1[c] == Delta1(pat, c)
    requires delta2.Length == |pat| && forall j :: 0 <= j < |pat| ==> delta2[j] == Delta2(pat, j)
    ensures r == SearchFrom(text, pat, 0)
  {
    ghost var goal := SearchFrom(text, pat, 0);
    var end := |pat| - 1;
    ghost var a: nat := 0;
    while end < |text|
      invariant end == a + |pat| - 1 <= INT_MAX
      invariant goal == SearchFrom(text, pat, a)
      decreases |text| - end
    {
      var i, j := CompareWindow(text, pat, end);
      if j < 0 {
        return i + 1;
      }
      end := i + Max(delta1[text[i]], delta2[j]);
      a := SearchStep(text, pat, a, j, end);
    }
    return -1;
  }

  method Search(text: Str, pat: Str) returns (r: int)
    requires 0 < |pat| && |text| + 2 * |pat| <= INT_MAX
    ensures r == SearchFrom(text, pat, 0)
    ensures r == -1 || OccursAt(text, pat, r)
  {
    var delta1 := new int[ALPHABET_LEN];
    var delta2 := new int[|pat|];
    MakeDelta1(delta1, pat);
    MakeDelta2(delta2, pat);
    r := SearchWith(text, pat, delta1, delta2);
    SearchSound(text, pat, 0);
  }

  // ---------- Which patterns are searched for exactly ----------

  /** No entry of the second table moves the pattern past a border of it. */
  ghost predicate TableSafe(pat: Str) {
    forall j, b :: 0 <= j < b && Border(pat, b) ==> Shift(pat, j) <= b
  }

  ghost predicate Unbordered(pat: Str) {
    forall b :: !Border(pat, b)
  }

  ghost predicate Constant(pat: Str) {
    forall k :: 0 <= k < |pat| ==> pat[k] == pat[0]
  }

  /** An occurrence s further on forces s to be plausible at the mismatch. */
  lemma OccurrenceIsPlausible(text: Str, pat: Str, a: nat, m: nat, s: nat)
    requires m < |pat| && 1 <= s && a + |pat| <= |text|
    requires m == Mismatch(text, pat, a, |pat| - 1)
    requires OccursAt(text, pat, a + s)
    ensures Plausible(pat, m, s)
  {
    forall k {:trigger text[a + k]} | s <= k < |pat| ensures text[a + k] == pat[k - s] {
      assert text[a + s + (k - s)] == pat[k - s];
    }
  }

  /** The bad-character table never skips an occurrence. */
  lemma Delta1Safe(text: Str, pat: Str, a: nat, m: nat, s: nat)
    requires m < |pat| && 1 <= s && a + |pat| <= |text|
    requires m == Mismatch(text, pat, a, |pat| - 1)
    requires OccursAt(text, pat, a + s)
    ensures s >= Delta1(pat, text[a + m]) - (|pat| - 1 - m)
  {
    if s <= m {
      assert text[a + s + (m - s)] == pat[m - s] == pat[..|pat| - 1][m - s];
    }
  }

  /** Fill characters, except c at the end of the first window, before an occurrence of the pattern. */
  function ShiftedText(pat: Str, c: Byte, d: nat): (t: Str)
    ensures |t| == d + |pat|
  {
    seq(d, i requires 0 <= i < d => if i == |pat| - 1 then c else 0) + pat
  }

  /**
   No larger jump would be safe: for every character that differs from the last one of the pattern
   some text has it at the end of its first window and an occurrence just Delta1 further on.
   */
  lemma Delta1Greatest(pat: Str, c: Byte) returns (text: Str)
    requires pat != [] && c != pat[|pat| - 1]
    ensures |text| >= |pat| && text[|pat| - 1] == c && Mismatch(text, pat, 0, |pat| - 1) == |pat| - 1
    ensures Delta1(pat, c) >= 1 && OccursAt(text, pat, Delta1(pat, c))
  {
    var n, d := |pat|, Delta1(pat, c);
    text := ShiftedText(pat, c, d);
    assert forall k :: 0 <= k < n ==> text[d + k] == pat[k];
    if d < n {
      assert text[n - 1] == pat[n - 1 - d] == pat[..n - 1][n - 1 - d];
    }
  }

  /** On a safe table the window never jumps past an occurrence. */
  lemma JumpSafe(text: Str, pat: Str, a: nat, m: nat, s: nat)
    requires TableSafe(pat)
    requires m < |pat| && a + |pat| <= |text| && 1 <= s
    requires m == Mismatch(text, pat, a, |pat| - 1)
    requires OccursAt(text, pat, a + s)
    ensures s >= Jump(text, pat, a, m)
  {
    OccurrenceIsPlausible(text, pat, a, m, s);
    Delta1Safe(text, pat, a, m, s);
    ShiftMeaning(pat, m, 1);
    ShiftBounds(pat, m);
    if m < s < |pat| {
      assert Border(pat, s);
    }
  }

  lemma {:induction false} SearchComplete(text: Str, pat: Str, a: nat)
    requires pat != [] && TableSafe(pat)
    ensures IsLeftmost(text, pat, a, SearchFrom(text, pat, a))
    decreases |text| - a
  {
    if a + |pat| <= |text| {
      var m := Mismatch(text, pat, a, |pat| - 1);
      if m >= 0 {
        var d := Jump(text, pat, a, m);
        assert !OccursAt(text, pat, a);
        forall t | a < t && OccursAt(text, pat, t) ensures t >= a + d {
          JumpSafe(text, pat, a, m, t - a);
        }
        SearchComplete(text, pat, a + d);
      }
    }
  }

  /** The pattern, preceded by its own first b characters with the one at j spoiled. */
  function SpoiledText(pat: Str, j: nat, b: nat): Str
    requires j < b <= |pat|
  {
    pat[..b][j := if pat[j] == 0 then 1 else 0] + pat
  }

  /** In that text the first window differs from the pattern at j, and nowhere later. */
  lemma SpoiledMismatch(pat: Str, j: nat, b: nat)
    requires j < b && Border(pat, b)
    ensures Mismatch(SpoiledText(pat, j, b), pat, 0, |pat| - 1) == j
  {
    var text := SpoiledText(pat, j, b);
    forall k | j < k < |pat| ensures text[0 + k] == pat[k] {
      if k >= b {
        assert text[k] == pat[k - b];
      }
    }
    assert text[0 + j] != pat[j];
  }

  /** A table entry that moves past a border loses the occurrence in this text. */
  lemma UnsafeEntryMisses(pat: Str, j: nat, b: nat)
    requires j < b && Border(pat, b) && Shift(pat, j) > b
    ensures OccursAt(SpoiledText(pat, j, b), pat, b)
    ensures SearchFrom(SpoiledText(pat, j, b), pat, 0) == -1
  {
    var text := SpoiledText(pat, j, b);
    assert |text| == b + |pat|;
    forall k | 0 <= k < |pat| ensures text[b + k] == pat[k] {}
    SpoiledMismatch(pat, j, b);
    assert SearchFrom(text, pat, Jump(text, pat, 0, j)) == -1;
  }

  /** bm_search finds the leftmost occurrence in every text exactly when the table is safe. */
  lemma ExactIffTableSafe(pat: Str)
    requires pat != []
    ensures (forall text: Str :: IsLeftmost(text, pat, 0, SearchFrom(text, pat, 0))) <==> TableSafe(pat)
  {
    if TableSafe(pat) {
      forall text: Str ensures IsLeftmost(text, pat, 0, SearchFrom(text, pat, 0)) {
        SearchComplete(text, pat, 0);
      }
    } else {
      var j, b :| 0 <= j < b && Border(pat, b) && Shift(pat, j) > b;
      UnsafeEntryMisses(pat, j, b);
      var text := SpoiledText(pat, j, b);
      assert !IsLeftmost(text, pat, 0, SearchFrom(text, pat, 0));
    }
  }

  lemma UnborderedSafe(pat: Str)
    requires Unbordered(pat)
    ensures TableSafe(pat)
  {}

  lemma ConstantSafe(pat: Str)
    requires Constant(pat)
    ensures TableSafe(pat)
  {
    forall j, b | 0 <= j < b && Border(pat, b) ensures Shift(pat, j) <= b {
      if j >= 1 {
        assert Border(pat, j);
        BorderIsSelfMatch(pat, j, 0);
        ShiftMeaning(pat, j, 1);
        LastPrefixMeaning(pat, j);
      } else {
        ShiftMeaning(pat, j, 1);
        StrncmpSelf(pat, 0);
      }
    }
  }

  /** A border at 1 makes all characters equal. */
  lemma {:induction false} BorderAtOne(pat: Str, k: nat)
    requires Border(pat, 1) && k < |pat|
    ensures pat[k] == pat[0]
  {
    if k > 0 {
      assert pat[k] == pat[k - 1];
      BorderAtOne(pat, k - 1);
    }
  }

  /** If re-aligning by one is plausible at 1, the pattern is one character and then copies of another. */
  lemma {:induction false} PlausibleOneAtOne(pat: Str, k: nat)
    requires Plausible(pat, 1, 1) && 1 <= k < |pat|
    ensures pat[k] == pat[1] != pat[0]
  {
    if k > 1 {
      assert pat[k] == pat[k - 1];
      PlausibleOneAtOne(pat, k - 1);
    }
  }

  /** The entry at 1 is unsafe for every NUL-free pattern with a border that is not constant. */
  lemma BorderedUnsafe(pat: Str, c: int) returns (b: int)
    requires 0 !in pat && !Constant(pat) && Border(pat, c)
    ensures 1 < b && Border(pat, b) && Shift(pat, 1) > b
  {
    assert !Border(pat, 1) by {
      if Border(pat, 1) {
        forall k | 0 <= k < |pat| ensures pat[k] == pat[0] { BorderAtOne(pat, k); }
      }
    }
    BorderIsSelfMatch(pat, c, 0);
    LastPrefixFindsMatch(pat, 1, c);
    b := LastPrefix(pat, 1) - 1;
    SelfMatchIsBorder(pat, b, 0);
    ShiftMeaning(pat, 1, 1);
    if Plausible(pat, 1, 1) {
      PlausibleOneAtOne(pat, c);
    }
  }

  /**
   For patterns without NUL bytes the safe ones are those without a proper
   border and those made of one repeated character.
   */
  lemma SafeIffUnborderedOrConstant(pat: Str)
    requires 0 !in pat
    ensures TableSafe(pat) <==> Unbordered(pat) || Constant(pat)
  {
    if Unbordered(pat) {
      UnborderedSafe(pat);
    } else if Constant(pat) {
      ConstantSafe(pat);
    } else {
      var c :| Border(pat, c);
      var b := BorderedUnsafe(pat, c);
    }
  }

  /** The main result: which NUL-free patterns bm_search looks up correctly in every text. */
  lemma ExactIffUnborderedOrConstant(pat: Str)
    requires pat != [] && 0 !in pat
    ensures (forall text: Str :: IsLeftmost(text, pat, 0, SearchFrom(text, pat, 0)))
       <==> Unbordered(pat) || Constant(pat)
  {
    ExactIffTableSafe(pat);
    SafeIffUnborderedOrConstant(pat);
  }

  /** "aba" is missed in "ccaba", where it occurs at 2. */
  lemma AbaMissed()
    ensures var aba, text: Str := [97, 98, 97], [99, 99, 97, 98, 97];
      OccursAt(text, aba, 2) && SearchFrom(text, aba, 0) == -1
  {
    var aba, text: Str := [97, 98, 97], [99, 99, 97, 98, 97];
  }

  // ---------- The TrustZone lookup ----------

  /** "QC_IMAGE_VERSION_STRING=" */
  const TZ_VER_STR: Str :=
    [81, 67, 95, 73, 77, 65, 71, 69, 95, 86, 69, 82, 83, 73, 79, 78, 95, 83, 84, 82, 73, 78, 71, 61]

  lemma TrustZoneKeyUnbordered()
    ensures Unbordered(TZ_VER_STR)
  {
    assert forall k :: 0 <= k < 23 ==> TZ_VER_STR[k] != TZ_VER_STR[23];
    forall b ensures !Border(TZ_VER_STR, b) {
      if 1 <= b < 24 {
        assert TZ_VER_STR[23 - b] != TZ_VER_STR[23];
      }
    }
  }

  /** The lookup of get_tz_version in the mapped partition. */
  method FindTrustZoneKey(tzData: Str) returns (offset: int)
    requires |tzData| == 500 * 1024
    ensures IsLeftmost(tzData, TZ_VER_STR, 0, offset)
  {
    TrustZoneKeyUnbordered();
    UnborderedSafe(TZ_VER_STR);
    SearchComplete(tzData, TZ_VER_STR, 0);
    offset := Search(tzData, TZ_VER_STR);
  }
}
