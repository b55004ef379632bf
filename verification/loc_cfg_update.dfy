/**
 What loc_update_conf (gps/utils/loc_cfg.cpp) makes of a text: which assignments its short quota
 leaves out, and when the number of lines it returns is the number of records it updated.
 */
module LocCfgUpdate {
  import opened CStrings
  import opened MiscUtils
  import opened LocCfg
  import opened LocCfgQuota

  // ---------- Where the lines used end ----------

  /** The fills that bring the unsigned quota to zero. */
  predicate UsesUp(fills: nat, quota: nat) {
    fills % UINT32 == quota
  }

  lemma MinusTwice(quota: nat, t: nat, h: nat)
    requires quota < UINT32
    ensures Minus(Minus(quota, t), h) == Minus(quota, t + h)
    ensures Minus(quota, t) == 0 <==> UsesUp(t, quota)
  {
  }

  lemma {:induction false} UsedFrom(entries: seq<Entry>, items: seq<Item>, p: nat, quota: nat, left: nat)
    requires p <= |items| && quota < UINT32 && left == Minus(quota, Fills(entries, items, p))
    ensures var u := Used(entries, items, p, left);
      && (u < |items| ==> UsesUp(Fills(entries, items, u), quota))
      && forall k :: p <= k < u ==> !UsesUp(Fills(entries, items, k), quota)
    decreases |items| - p
  {
    var t := Fills(entries, items, p);
    MinusTwice(quota, t, 0);
    if p < |items| && left != 0 {
      assert Fills(entries, items, p + 1) == t + Hits(entries, items[p]);
      MinusTwice(quota, t, Hits(entries, items[p]));
      UsedFrom(entries, items, p + 1, quota, Minus(left, Hits(entries, items[p])));
    }
  }

  /** Whether the quota wraps or not, the lines used end where the fills first agree with it modulo 2^32. */
  lemma UsedIsFirst(entries: seq<Entry>, items: seq<Item>, quota: nat)
    requires quota < UINT32
    ensures var u := Used(entries, items, 0, quota);
      && (u < |items| ==> UsesUp(Fills(entries, items, u), quota))
      && forall k :: 0 <= k < u ==> !UsesUp(Fills(entries, items, k), quota)
  {
    UsedFrom(entries, items, 0, quota, quota);
  }

  /** Every fill of the lines is made if and only if none is left when the fills first use up the quota. */
  lemma EveryFillUsedIff(entries: seq<Entry>, items: seq<Item>, quota: nat)
    requires quota < UINT32
    ensures var u, all := Used(entries, items, 0, quota), Fills(entries, items, |items|);
      Fills(entries, items, u) == all <==>
      forall k :: 0 <= k <= |items| && UsesUp(Fills(entries, items, k), quota) ==> Fills(entries, items, k) == all
  {
    var u, all := Used(entries, items, 0, quota), Fills(entries, items, |items|);
    UsedIsFirst(entries, items, quota);
    if Fills(entries, items, u) == all {
      forall k | 0 <= k <= |items| && UsesUp(Fills(entries, items, k), quota) ensures Fills(entries, items, k) == all {
        FillsGrow(entries, items, u, k);
        FillsGrow(entries, items, k, |items|);
      }
    }
  }

  /** While no subtraction wraps, that is: the lines make no more fills than the quota. */
  lemma ExactFillsUsedIff(entries: seq<Entry>, items: seq<Item>, quota: nat)
    requires quota < UINT32 && Exact(entries, items, 0, quota)
    ensures var u, all := Used(entries, items, 0, quota), Fills(entries, items, |items|);
      Fills(entries, items, u) == all <==> all <= quota
  {
    ExactIffNoWrap(entries, items, quota);
    QuotaExact(entries, items, quota);
    FillsGrow(entries, items, Used(entries, items, 0, quota), |items|);
  }

  lemma NoHitNoFill(entries: seq<Entry>, cells: seq<Cell>, item: Item)
    requires |cells| == |entries| && Hits(entries, item) == 0
    ensures Fill(entries, cells, item) == cells
  {
    if item.Item? {
      HitsOf(entries, item.name, |entries|);
    }
  }

  /** Then the lines that were not used would have changed nothing. */
  lemma {:induction false} UnusedLinesIdle(entries: seq<Entry>, cells: seq<Cell>, items: seq<Item>, u: nat, p: nat)
    requires |cells| == |entries| && u <= p <= |items| && Fills(entries, items, u) == Fills(entries, items, p)
    ensures FillLines(entries, cells, items, u) == FillLines(entries, cells, items, p)
    decreases p - u
  {
    if u < p {
      FillsGrow(entries, items, u, p - 1);
      UnusedLinesIdle(entries, cells, items, u, p - 1);
      NoHitNoFill(entries, FillLines(entries, cells, items, p - 1), items[p - 1]);
    }
  }

  // ---------- Records updated ----------

  /** The entries among the first p that a name fills. */
  function NamedTo(entries: seq<Entry>, name: string, p: nat): set<nat>
    requires p <= |entries|
  {
    if p == 0 then {}
    else if Takes(entries[p - 1], name) then NamedTo(entries, name, p - 1) + {p - 1}
    else NamedTo(entries, name, p - 1)
  }

  /** The entries that a line fills. */
  function Hit(entries: seq<Entry>, item: Item): set<nat> {
    if item.NoItem? then {} else NamedTo(entries, item.name, |entries|)
  }

  /** The entries that the first p lines update. */
  function Updated(entries: seq<Entry>, items: seq<Item>, p: nat): set<nat>
    requires p <= |items|
  {
    if p == 0 then {} else Updated(entries, items, p - 1) + Hit(entries, items[p - 1])
  }

  lemma {:induction false} NamedMeaning(entries: seq<Entry>, name: string, p: nat, i: nat)
    requires p <= |entries|
    ensures i in NamedTo(entries, name, p) <==> i < p && Takes(entries[i], name)
  {
    if p > 0 {
      NamedMeaning(entries, name, p - 1, i);
    }
  }

  lemma SizeWith<T>(a: set<T>, x: T)
    requires x !in a
    ensures |a + {x}| == |a| + 1
  {
  }

  lemma {:induction false} NamedSize(entries: seq<Entry>, name: string, p: nat)
    requires p <= |entries|
    ensures |NamedTo(entries, name, p)| == HitsTo(entries, name, p)
  {
    if p > 0 {
      NamedSize(entries, name, p - 1);
      NamedMeaning(entries, name, p - 1, p - 1);
      SizeWith(NamedTo(entries, name, p - 1), p - 1);
    }
  }

  lemma HitMeaning(entries: seq<Entry>, item: Item, i: nat)
    ensures i in Hit(entries, item) <==> i < |entries| && For(entries[i], item)
  {
    if item.Item? {
      NamedMeaning(entries, item.name, |entries|, i);
    }
  }

  lemma HitSize(entries: seq<Entry>, item: Item)
    ensures |Hit(entries, item)| == Hits(entries, item)
  {
    if item.Item? {
      NamedSize(entries, item.name, |entries|);
    }
  }

  /** One of the first p lines is for the entry. */
  predicate SomeFor(e: Entry, items: seq<Item>, p: nat)
    requires p <= |items|
  {
    exists k :: 0 <= k < p && For(e, items[k])
  }

  lemma SomeForNext(e: Entry, items: seq<Item>, p: nat)
    requires p < |items|
    ensures SomeFor(e, items, p + 1) <==> SomeFor(e, items, p) || For(e, items[p])
  {
  }

  /** An entry is updated exactly when one of the lines is for it. */
  lemma {:induction false} UpdatedMeaning(entries: seq<Entry>, items: seq<Item>, p: nat, i: nat)
    requires p <= |items|
    ensures i in Updated(entries, items, p) <==> i < |entries| && SomeFor(entries[i], items, p)
  {
    if p > 0 {
      UpdatedMeaning(entries, items, p - 1, i);
      HitMeaning(entries, items[p - 1], i);
      if i < |entries| {
        SomeForNext(entries[i], items, p - 1);
      }
    }
  }

  lemma UnionSize<T>(a: set<T>, b: set<T>)
    ensures |a + b| <= |a| + |b|
    ensures |a + b| == |a| + |b| <==> a !! b
  {
    assert a + b == a + (b - a);
    assert a * b == b * a;
  }

  lemma {:induction false} UpdatedAtMostFills(entries: seq<Entry>, items: seq<Item>, p: nat)
    requires p <= |items|
    ensures |Updated(entries, items, p)| <= Fills(entries, items, p)
  {
    if p > 0 {
      UpdatedAtMostFills(entries, items, p - 1);
      HitSize(entries, items[p - 1]);
      UnionSize(Updated(entries, items, p - 1), Hit(entries, items[p - 1]));
    }
  }

  /** Each of the first n lines fills exactly one entry. */
  predicate AllHit(entries: seq<Entry>, items: seq<Item>, n: nat)
    requires n <= |items|
  {
    forall k :: 0 <= k < n ==> Hits(entries, items[k]) == 1
  }

  /** No two of the first n lines have the same name. */
  predicate NamesApart(items: seq<Item>, n: nat)
    requires n <= |items|
  {
    forall j, k :: 0 <= j < k < n && items[j].Item? && items[k].Item? ==> items[j].name != items[k].name
  }

  /** The name of the line is that of no line before. */
  predicate NewName(items: seq<Item>, p: nat)
    requires p < |items|
  {
    forall k :: 0 <= k < p && items[k].Item? && items[p].Item? ==> items[k].name != items[p].name
  }

  lemma ApartNext(items: seq<Item>, p: nat)
    requires p < |items|
    ensures NamesApart(items, p + 1) <==> NamesApart(items, p) && NewName(items, p)
  {
  }

  /** A line that fills an entry updates one that no line before has updated, or none, as its name is new or not. */
  lemma NewRecord(entries: seq<Entry>, items: seq<Item>, p: nat, i: nat)
    requires p < |items| && i in Hit(entries, items[p])
    ensures i in Updated(entries, items, p) <==> !NewName(items, p)
  {
    HitMeaning(entries, items[p], i);
    UpdatedMeaning(entries, items, p, i);
    if !NewName(items, p) {
      var k :| 0 <= k < p && items[k].Item? && items[k].name == items[p].name;
      assert For(entries[i], items[k]);
    }
  }

  lemma OnlyOne<T>(a: set<T>, x: T)
    requires x in a && |a| <= 1
    ensures a == {x}
  {
    assert |a - {x}| == 0;
  }

  /** One more line updates one more record, or none. */
  lemma OneMoreRecord(entries: seq<Entry>, items: seq<Item>, p: nat)
    requires p < |items| && DistinctNames(entries)
    ensures var n, m := |Updated(entries, items, p)|, |Updated(entries, items, p + 1)|;
      n <= m <= n + 1 && (m == n + 1 <==> Hits(entries, items[p]) == 1 && NewName(items, p))
  {
    var was, h := Updated(entries, items, p), Hit(entries, items[p]);
    HitSize(entries, items[p]);
    OneEntryPerLine(entries, items[p]);
    assert Updated(entries, items, p + 1) == was + h;
    if h == {} {
      assert was + h == was;
    } else {
      var i :| i in h;
      OnlyOne(h, i);
      NewRecord(entries, items, p, i);
      assert i in was ==> was + h == was;
    }
  }

  /** With distinct names the lines update as many records as there are lines if and only if each updates its own. */
  lemma {:induction false} RecordsAreLinesIff(entries: seq<Entry>, items: seq<Item>, p: nat)
    requires p <= |items| && DistinctNames(entries)
    ensures var n := |Updated(entries, items, p)|;
      n <= p && (n == p <==> AllHit(entries, items, p) && NamesApart(items, p))
  {
    if p > 0 {
      RecordsAreLinesIff(entries, items, p - 1);
      OneMoreRecord(entries, items, p - 1);
      ApartNext(items, p - 1);
      AllHitNext(entries, items, p - 1);
    }
  }

  lemma AllHitNext(entries: seq<Entry>, items: seq<Item>, p: nat)
    requires p < |items|
    ensures AllHit(entries, items, p + 1) <==> AllHit(entries, items, p) && Hits(entries, items[p]) == 1
  {
  }

  lemma {:induction false} FillsAreLinesIff(entries: seq<Entry>, items: seq<Item>, p: nat)
    requires p <= |items| && DistinctNames(entries)
    ensures var n := Fills(entries, items, p); n <= p && (n == p <==> AllHit(entries, items, p))
  {
    if p > 0 {
      FillsAreLinesIff(entries, items, p - 1);
      OneEntryPerLine(entries, items[p - 1]);
      AllHitNext(entries, items, p - 1);
    }
  }

  /** As many lines as the quota allows at most. */
  function Most(items: seq<Item>, quota: nat): (n: nat)
    ensures n <= |items| && n <= quota && (n == |items| || n == quota)
  {
    if |items| <= quota then |items| else quota
  }

  /** With distinct names the lines used are at least that many, and no more if each fills an entry. */
  lemma UsedAtLeast(entries: seq<Entry>, items: seq<Item>, quota: nat)
    requires quota < UINT32 && DistinctNames(entries)
    ensures var u, n := Used(entries, items, 0, quota), Most(items, quota);
      && n <= u
      && (Fills(entries, items, u) == u ==> u == n)
      && (Fills(entries, items, n) == n ==> u == n)
  {
    var u, n := Used(entries, items, 0, quota), Most(items, quota);
    DistinctNoWrap(entries, items, quota);
    QuotaExact(entries, items, quota);
    FillsAreLinesIff(entries, items, u);
    if u > n {
      FillsGrow(entries, items, n, u - 1);
    }
  }

  // ---------- Results ----------

  /**
   While no subtraction wraps, loc_update_conf applies every assignment of its text if and only if
   they are fewer than the table has entries; then the lines it leaves unread would change nothing.
   */
  lemma EveryAssignmentUsedIff(entries: seq<Entry>, cells: seq<Cell>, items: seq<Item>)
    requires 0 < |entries| < UINT32 && |cells| == |entries| && Exact(entries, items, 0, |entries| - 1)
    ensures var ret, all := UpdateResult(entries, items), Fills(entries, items, |items|);
      && (Fills(entries, items, ret) == all <==> all < |entries|)
      && (all < |entries| ==> FillLines(entries, cells, items, ret) == FillLines(entries, cells, items, |items|))
  {
    var ret := UpdateResult(entries, items);
    ExactFillsUsedIff(entries, items, |entries| - 1);
    if Fills(entries, items, |items|) < |entries| {
      UnusedLinesIdle(entries, cells, items, ret, |items|);
    }
  }

  /** While no subtraction wraps, some entry of the table is not updated, whatever the text. */
  lemma OneEntryLeft(entries: seq<Entry>, items: seq<Item>)
    requires 0 < |entries| < UINT32 && Exact(entries, items, 0, |entries| - 1)
    ensures |Updated(entries, items, UpdateResult(entries, items))| < |entries|
  {
    ExactIffNoWrap(entries, items, |entries| - 1);
    QuotaExact(entries, items, |entries| - 1);
    UpdatedAtMostFills(entries, items, UpdateResult(entries, items));
  }

  /** With distinct names the result is the number of fills if and only if each of the first lines fills an entry. */
  lemma ReturnIsFillsIff(entries: seq<Entry>, items: seq<Item>)
    requires 0 < |entries| < UINT32 && DistinctNames(entries)
    ensures var ret := UpdateResult(entries, items);
      Fills(entries, items, ret) == ret <==> AllHit(entries, items, Most(items, |entries| - 1))
  {
    UsedAtLeast(entries, items, |entries| - 1);
    FillsAreLinesIff(entries, items, UpdateResult(entries, items));
    FillsAreLinesIff(entries, items, Most(items, |entries| - 1));
  }

  /**
   With distinct names the result is, as documented, the number of records updated if and only if the
   first lines, at most one fewer than there are entries, all fill an entry and have different names.
   */
  lemma ReturnIsRecordsIff(entries: seq<Entry>, items: seq<Item>)
    requires 0 < |entries| < UINT32 && DistinctNames(entries)
    ensures var ret, n := UpdateResult(entries, items), Most(items, |entries| - 1);
      |Updated(entries, items, ret)| == ret <==> AllHit(entries, items, n) && NamesApart(items, n)
  {
    var ret := UpdateResult(entries, items);
    UsedAtLeast(entries, items, |entries| - 1);
    RecordsAreLinesIff(entries, items, ret);
    FillsAreLinesIff(entries, items, ret);
    ReturnIsFillsIff(entries, items);
  }

  // ---------- A text that loses an assignment ----------

  /** A table of two numbers. */
  function TwoNumbers(a: string, b: string): seq<Entry> {
    [Entry(a, true, true, 'n'), Entry(b, true, true, 'n')]
  }

  lemma HitsOfTwo(a: string, b: string, item: Item)
    requires item.Item? && a != b
    ensures Hits(TwoNumbers(a, b), item) == if item.name == a || item.name == b then 1 else 0
  {
    var entries := TwoNumbers(a, b);
    assert HitsTo(entries, item.name, 1) == if a == item.name then 1 else 0;
    assert HitsTo(entries, item.name, 2) == HitsTo(entries, item.name, 1) + if b == item.name then 1 else 0;
  }

  /** Two assignments, to the first and to the second entry of the table. */
  lemma SecondUnread(a: string, b: string, items: seq<Item>, cells: seq<Cell>)
    requires a != b && |cells| == 2
    requires |items| == 2 && items[0].Item? && items[0].name == a && items[1].Item? && items[1].name == b
    ensures var entries := TwoNumbers(a, b);
      && Fills(entries, items, 2) == 2
      && UpdateResult(entries, items) == 1
      && FillLines(entries, cells, items, 1) == [Cell(Number(items[0].number), true), cells[1]]
      && FillLines(entries, cells, items, 2) == [Cell(Number(items[0].number), true), Cell(Number(items[1].number), true)]
  {
    var entries := TwoNumbers(a, b);
    HitsOfTwo(a, b, items[0]);
    HitsOfTwo(a, b, items[1]);
    assert Fills(entries, items, 1) == 1;
    assert Used(entries, items, 1, Minus(1, 1)) == 1;
  }

  lemma JoinTwo(x: string, y: string)
    ensures Join([x, y], '\n') == x + ['\n'] + y
  {
    assert [x, y][1..] == [y];
  }

  /** The text that assigns zero to both names. */
  function TwoLines(a: string, b: string): string {
    LineOf(a, false) + ['\n'] + LineOf(b, false)
  }

  lemma LinesOfTwo(a: string, b: string, lib: Numbers)
    requires Writable(a, false) && Writable(b, false)
    ensures Tokens(TwoLines(a, b), '\n') == [LineOf(a, false), LineOf(b, false)]
  {
    LineGives(a, false, lib);
    LineGives(b, false, lib);
    JoinTwo(LineOf(a, false), LineOf(b, false));
    LinesOfText([LineOf(a, false), LineOf(b, false)]);
  }

  lemma ItemsOfTwo(a: string, b: string, data: string, lib: Numbers)
    requires Writable(a, false) && Writable(b, false) && data == TwoLines(a, b)
    ensures var items := ItemsOf(data, lib);
      |items| == 2 && items[0].Item? && items[0].name == a && items[1].Item? && items[1].name == b
  {
    LinesOfTwo(a, b, lib);
    LineGives(a, false, lib);
    LineGives(b, false, lib);
  }

  /**
   A table of two numbers and a text that assigns to both: one line is used and the second number
   keeps its value, whatever the names.
   */
  lemma SecondAssignmentLost(a: string, b: string, data: string, cells: seq<Cell>, lib: Numbers)
    requires Writable(a, false) && Writable(b, false) && a != b && |cells| == 2
    requires data == TwoLines(a, b)
    ensures var entries, items := TwoNumbers(a, b), ItemsOf(data, lib);
      && UpdateResult(entries, items) == 1
      && |items| == 2 && Fills(entries, items, 2) == 2
      && FillLines(entries, cells, items, 1)[1] == cells[1]
  {
    ItemsOfTwo(a, b, data, lib);
    SecondUnread(a, b, ItemsOf(data, lib), cells);
  }

  lemma LetterWritable(c: char)
    requires c != '=' && !IsSpace(c)
    ensures Writable([c], false)
  {
    FreeEach([c], '=');
    FreeEach([c], '\n');
    assert FirstTo([c], 0) == 0 && EndTo([c], 1) == 1;
    assert [c][0..1] == [c];
  }

  /** For instance A=0 and B=0. */
  lemma SecondLetterLost(cells: seq<Cell>, lib: Numbers)
    requires |cells| == 2
    ensures var entries, items := TwoNumbers("A", "B"), ItemsOf("A=0\nB=0", lib);
      UpdateResult(entries, items) == 1 && |items| == 2 && FillLines(entries, cells, items, 1)[1] == cells[1]
  {
    LetterWritable('A');
    LetterWritable('B');
    assert TwoLines("A", "B") == "A=0\nB=0";
    SecondAssignmentLost("A", "B", "A=0\nB=0", cells, lib);
  }
}
