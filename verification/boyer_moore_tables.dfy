/**
 The two shift tables of the Boyer-Moore search in recovery/recovery_updater.cpp:
 what they mean, and the loops that fill them in place.
 */
module BoyerMooreTables {

  type Byte = x: int | 0 <= x < 256
  type Str = seq<Byte>

  const ALPHABET_LEN := 256
  const INT_MAX := 0x7FFF_FFFF

  // ---------- Vocabulary on patterns ----------

  /** The suffix starting at b is a proper non-empty prefix of the pattern. */
  ghost predicate Border(pat: Str, b: int) {
    1 <= b < |pat| && forall k :: b <= k < |pat| ==> pat[k] == pat[k - b]
  }

  /** Moving the pattern s places to the right keeps everything after j aligned with itself. */
  ghost predicate Agree(pat: Str, j: int, s: int)
    requires 0 <= j < |pat| && 0 <= s
  {
    forall k :: j < k < |pat| && s <= k ==> pat[k] == pat[k - s]
  }

  /**
   After a mismatch at j, an occurrence s places further on is still possible:
   the matched suffix re-aligns and a different character comes to stand at j.
   */
  ghost predicate Plausible(pat: Str, j: int, s: int) {
    && 0 <= j < |pat| && 1 <= s
    && Agree(pat, j, s)
    && (s <= j ==> pat[j - s] != pat[j])
  }

  // ---------- What the tables hold ----------

  /** The last index of c in s, or -1. */
  function LastIndex(s: Str, c: Byte): (i: int)
    ensures -1 <= i < |s|
    ensures i >= 0 ==> s[i] == c
    ensures forall k :: i < k < |s| ==> s[k] != c
  {
    if s == [] then -1
    else if s[|s| - 1] == c then |s| - 1
    else LastIndex(s[..|s| - 1], c)
  }

  /** Distance from the end of the pattern to the last c before that end. */
  function Delta1(pat: Str, c: Byte): nat
    requires pat != []
  {
    |pat| - 1 - LastIndex(pat[..|pat| - 1], c)
  }

  /** strncmp(pat + p, pat, |pat| - p) == 0, from offset i on: a common NUL ends the comparison. */
  predicate StrncmpEqual(pat: Str, p: nat, i: nat)
    requires p + i <= |pat|
    decreases |pat| - p - i
  {
    p + i == |pat| ||
    (pat[p + i] == pat[i] && (pat[i] == 0 || StrncmpEqual(pat, p, i + 1)))
  }

  /** The value of last_prefix after the first loop has handled p. */
  function LastPrefix(pat: Str, p: nat): int
    requires p <= |pat|
    decreases |pat| - p
  {
    if p == |pat| then |pat| - 1
    else if StrncmpEqual(pat, p, 0) then p + 1
    else LastPrefix(pat, p + 1)
  }

  /** The least plausible shift in s..j, or the prefix shift when there is none. */
  ghost function ShiftFrom(pat: Str, j: nat, s: nat): int
    requires j < |pat| && 1 <= s
    decreases j - s
  {
    if s > j then LastPrefix(pat, j)
    else if Plausible(pat, j, s) then s
    else ShiftFrom(pat, j, s + 1)
  }

  /** How far a mismatch at j moves the pattern. */
  ghost function Shift(pat: Str, j: nat): int
    requires j < |pat|
  {
    ShiftFrom(pat, j, 1)
  }

  /** delta2[j]: the shift plus the distance back to the end of the pattern. */
  ghost function Delta2(pat: Str, j: nat): int
    requires j < |pat|
  {
    Shift(pat, j) + |pat| - 1 - j
  }

  // ---------- Properties of the tables ----------

  lemma {:induction false} StrncmpSelf(pat: Str, i: nat)
    requires i <= |pat|
    ensures StrncmpEqual(pat, 0, i)
    decreases |pat| - i
  {
    if i < |pat| {
      StrncmpSelf(pat, i + 1);
    }
  }

  /** The distance is the least that brings a c to the end of the pattern, or the length of the pattern. */
  lemma Delta1Meaning(pat: Str, c: Byte)
    requires pat != []
    ensures var n, d := |pat|, Delta1(pat, c);
      && 1 <= d <= n && (d < n ==> pat[n - 1 - d] == c)
      && forall i :: n - 1 - d < i < n - 1 ==> pat[i] != c
  {
    var n := |pat|;
    assert forall i :: 0 <= i < n - 1 ==> pat[..n - 1][i] == pat[i];
  }

  /** No NUL among the characters i, ..., k - 1 of the pattern. */
  predicate NoNulBefore(pat: Str, i: nat, k: nat)
    requires k <= |pat|
  {
    forall l :: i <= l < k ==> pat[l] != 0
  }

  /** strncmp answers equal exactly when the characters agree up to and including the first NUL. */
  lemma {:induction false} StrncmpMeaning(pat: Str, p: nat, i: nat)
    requires p + i <= |pat|
    ensures StrncmpEqual(pat, p, i) <==>
      forall k :: i <= k < |pat| - p && NoNulBefore(pat, i, k) ==> pat[p + k] == pat[k]
    decreases |pat| - p - i
  {
    if p + i < |pat| {
      StrncmpMeaning(pat, p, i + 1);
      assert NoNulBefore(pat, i, i);
      forall k | i < k < |pat| - p ensures NoNulBefore(pat, i, k) <==> pat[i] != 0 && NoNulBefore(pat, i + 1, k) {
      }
    }
  }

  lemma {:induction false} BorderIsSelfMatch(pat: Str, b: nat, i: nat)
    requires Border(pat, b) && b + i <= |pat|
    ensures StrncmpEqual(pat, b, i)
    decreases |pat| - i
  {
    if b + i < |pat| {
      assert pat[b + i] == pat[b + i - b];
      BorderIsSelfMatch(pat, b, i + 1);
    }
  }

  /** Without NULs, strncmp finds nothing but borders. */
  lemma {:induction false} SelfMatchIsBorder(pat: Str, p: nat, i: nat)
    requires 0 !in pat
    requires 1 <= p && p + i <= |pat| && StrncmpEqual(pat, p, i)
    ensures forall k :: p + i <= k < |pat| ==> pat[k] == pat[k - p]
    decreases |pat| - i
  {
    if p + i < |pat| {
      SelfMatchIsBorder(pat, p, i + 1);
    }
  }

  /** last_prefix is one more than the first self-match, or the initial value. */
  lemma {:induction false} LastPrefixMeaning(pat: Str, p: nat)
    requires p <= |pat|
    ensures
      var r := LastPrefix(pat, p);
      || (p < r <= |pat| && StrncmpEqual(pat, r - 1, 0) && forall m :: p <= m < r - 1 ==> !StrncmpEqual(pat, m, 0))
      || (r == |pat| - 1 && forall m :: p <= m < |pat| ==> !StrncmpEqual(pat, m, 0))
    decreases |pat| - p
  {
    if p < |pat| && !StrncmpEqual(pat, p, 0) {
      LastPrefixMeaning(pat, p + 1);
    }
  }

  /** A self-match at or after p stops last_prefix at the first one. */
  lemma {:induction false} LastPrefixFindsMatch(pat: Str, p: nat, c: nat)
    requires p <= c < |pat| && StrncmpEqual(pat, c, 0)
    ensures p < LastPrefix(pat, p) <= c + 1
    ensures StrncmpEqual(pat, LastPrefix(pat, p) - 1, 0)
    decreases c - p
  {
    if !StrncmpEqual(pat, p, 0) {
      LastPrefixFindsMatch(pat, p + 1, c);
    }
  }

  /** The entries the second loop writes: the least plausible shift not beyond j, when one exists. */
  lemma {:induction false} ShiftMeaning(pat: Str, j: nat, s: nat)
    requires j < |pat| && 1 <= s
    ensures
      var r := ShiftFrom(pat, j, s);
      || (s <= r <= j && Plausible(pat, j, r) && forall t :: s <= t < r ==> !Plausible(pat, j, t))
      || (r == LastPrefix(pat, j) && forall t :: s <= t <= j ==> !Plausible(pat, j, t))
    decreases j - s
  {
    if s <= j && !Plausible(pat, j, s) {
      ShiftMeaning(pat, j, s + 1);
    }
  }

  /** Every shift moves the pattern forward, by at most its own length. */
  lemma ShiftBounds(pat: Str, j: nat)
    requires j < |pat|
    ensures 1 <= Shift(pat, j) <= |pat|
  {
    ShiftMeaning(pat, j, 1);
    LastPrefixMeaning(pat, j);
    StrncmpSelf(pat, 0);
  }

  lemma Delta2Bounds(pat: Str, j: nat)
    requires j < |pat|
    ensures |pat| - 1 - j < Delta2(pat, j) <= 2 * |pat| - 1
  {
    ShiftBounds(pat, j);
  }

  // ---------- The loops ----------

  /** Length of the longest common suffix of the pattern and of its part ending at p, at most p. */
  method MaxSuffixLen(str: Str, p: nat) returns (i: nat)
    requires p < |str| <= INT_MAX
    ensures i <= p
    ensures forall k :: |str| - 1 - i < k < |str| ==> str[k] == str[k - (|str| - 1 - p)]
    ensures i == p || str[p - i] != str[|str| - 1 - i]
  {
    i := 0;
    while str[p - i] == str[|str| - 1 - i] && i < p
      invariant 0 <= i <= p
      invariant forall k :: |str| - 1 - i < k < |str| ==> str[k] == str[k - (|str| - 1 - p)]
    {
      i := i + 1;
    }
  }

  method MakeDelta1(delta1: array<int>, pat: Str)
    requires delta1.Length == ALPHABET_LEN && 0 < |pat| <= INT_MAX
    modifies delta1
    ensures forall c: Byte :: delta1[c] == Delta1(pat, c)
  {
    for i := 0 to ALPHABET_LEN
      invariant forall c :: 0 <= c < i ==> delta1[c] == |pat|
    {
      delta1[i] := |pat|;
    }
    for i := 0 to |pat| - 1
      invariant forall c: Byte :: delta1[c] == |pat| - 1 - LastIndex(pat[..i], c)
    {
      assert pat[..i + 1][..i] == pat[..i];
      delta1[pat[i]] := |pat| - 1 - i;
    }
  }

  /** At shift s only one mismatch position is plausible: e, the one max_suffix_len finds. */
  lemma PlausibleOnlyAt(pat: Str, s: nat, e: nat, j: nat)
    requires 1 <= s <= e < |pat| && j < |pat|
    requires forall k :: e < k < |pat| ==> pat[k] == pat[k - s]
    requires e == s || pat[e - s] != pat[e]
    ensures s <= j && Plausible(pat, j, s) <==> j == e && pat[e - s] != pat[e]
  {
  }

  /** What one round of the second loop does to every entry. */
  lemma SecondLoopStep(pat: Str, s: nat, e: nat)
    requires 1 <= s <= e < |pat|
    requires forall k :: e < k < |pat| ==> pat[k] == pat[k - s]
    requires e == s || pat[e - s] != pat[e]
    ensures forall j :: 0 <= j < |pat| ==>
      ShiftFrom(pat, j, s) == if j == e && pat[e - s] != pat[e] then s else ShiftFrom(pat, j, s + 1)
  {
    forall j | 0 <= j < |pat|
      ensures ShiftFrom(pat, j, s) == if j == e && pat[e - s] != pat[e] then s else ShiftFrom(pat, j, s + 1)
    {
      PlausibleOnlyAt(pat, s, e, j);
    }
  }

  method MakeDelta2(delta2: array<int>, pat: Str)
    requires 0 < |pat| == delta2.Length && 2 * |pat| <= INT_MAX
    modifies delta2
    ensures forall j :: 0 <= j < |pat| ==> delta2[j] == Delta2(pat, j)
  {
    var n := |pat|;
    var lastPrefix := n - 1;
    var p := n - 1;
    while p >= 0
      invariant -1 <= p < n
      invariant lastPrefix == LastPrefix(pat, p + 1)
      invariant forall j :: p < j < n ==> delta2[j] == LastPrefix(pat, j) + n - 1 - j
    {
      if StrncmpEqual(pat, p, 0) {
        lastPrefix := p + 1;
      }
      delta2[p] := lastPrefix + (n - 1 - p);
      p := p - 1;
    }
    RecordSuffixes(delta2, pat);
  }

  /** The second loop of bm_make_delta2. */
  method RecordSuffixes(delta2: array<int>, pat: Str)
    requires 0 < |pat| == delta2.Length && 2 * |pat| <= INT_MAX
    requires forall j :: 0 <= j < |pat| ==> delta2[j] == LastPrefix(pat, j) + |pat| - 1 - j
    modifies delta2
    ensures forall j :: 0 <= j < |pat| ==> delta2[j] == Delta2(pat, j)
  {
    var n := |pat|;
    var p := 0;
    while p < n - 1
      invariant 0 <= p <= n - 1
      invariant forall j :: 0 <= j < n ==> delta2[j] == ShiftFrom(pat, j, n - p) + n - 1 - j
    {
      var sufLen := MaxSuffixLen(pat, p);
      SecondLoopStep(pat, n - 1 - p, n - 1 - sufLen);
      if pat[p - sufLen] != pat[n - 1 - sufLen] {
        delta2[n - 1 - sufLen] := n - 1 - p + sufLen;
      }
      p := p + 1;
    }
  }
}
