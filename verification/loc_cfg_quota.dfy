/**
 When the unsigned quota of loc_update_conf and loc_read_conf_r (gps/utils/loc_cfg.cpp) can
 wrap below zero: the exact condition on the table, over all texts and over all files.
 */
module LocCfgQuota {
  import opened Sequences
  import opened CStrings
  import opened MiscUtils
  import opened LocCfg

  // ---------- Which names lines can give ----------

  /** A line of a file, with at least an equals sign and one more character, leaves this much for a name. */
  const LONGEST_NAME := LOC_MAX_PARAM_LINE - 3

  /** A name that a line of a text can give, or of a file, whose lines are read into a buffer. */
  ghost predicate Writable(name: string, inFile: bool) {
    && name != "" && Free(name, '=') && Free(name, '\n') && AfterTrim(name) == name
    && (inFile ==> |name| <= LONGEST_NAME)
  }

  lemma TrimTwice(s: string)
    ensures AfterTrim(AfterTrim(s)) == AfterTrim(s) && (s != "" ==> AfterTrim(s) != "")
  {
    var t := AfterTrim(s);
    var a, b := TrimMeaning(s);
    if !Spaces(s) {
      var a', b' := TrimMeaning(t);
      assert !IsSpace(t[0]);
      assert t == "" + t + "";
      TrimsOnce(t, "", t, "", a', AfterTrim(t), b');
    }
  }

  lemma TrimFree(s: string, c: char)
    requires Free(s, c)
    ensures Free(AfterTrim(s), c)
  {
    FreePart(s, FirstTo(s, |s|), if FirstTo(s, |s|) < EndTo(s, |s|) then EndTo(s, |s|) else |s|, c);
  }

  lemma {:induction false} SkipFree(s: string, d: char, c: char)
    requires Free(s, c)
    ensures Free(SkipDelims(s, d), c)
  {
    if s != "" && s[0] == d {
      SkipFree(s[1..], d, c);
    }
  }

  lemma TokenFree(s: string, d: char)
    requires NextToken(s, d).Token?
    ensures Free(NextToken(s, d).text, d)
    ensures forall c :: Free(s, c) ==> Free(NextToken(s, d).text, c)
  {
    var t := SkipDelims(s, d);
    FirstOfMeaning(t, d);
    forall c | Free(s, c) ensures Free(NextToken(s, d).text, c) {
      SkipFree(s, d, c);
      FreePart(t, 0, FirstOf(t, d), c);
    }
  }

  /** Where the name of an item comes from. */
  lemma ItemName(line: string, lib: Numbers)
    requires ReadItem(line, lib).Item?
    ensures var t := NextToken(line, '=');
      t.Token? && t.text != "" && t.rest != "" && ReadItem(line, lib).name == AfterTrim(t.text)
  {
  }

  lemma TrimmedWritable(text: string, inFile: bool)
    requires text != "" && Free(text, '=') && Free(text, '\n') && (inFile ==> |text| <= LONGEST_NAME)
    ensures Writable(AfterTrim(text), inFile)
  {
    TrimTwice(text);
    TrimFree(text, '=');
    TrimFree(text, '\n');
  }

  lemma ItemWritable(line: string, lib: Numbers)
    requires Free(line, '\n') && ReadItem(line, lib).Item?
    ensures Writable(ReadItem(line, lib).name, false)
  {
    ItemName(line, lib);
    TokenFree(line, '=');
    TrimmedWritable(NextToken(line, '=').text, false);
  }

  lemma {:induction false} SkipSuffix(s: string, d: char)
    ensures SkipDelims(s, d) == s[|s| - |SkipDelims(s, d)|..]
  {
    if s != "" && s[0] == d {
      SkipSuffix(s[1..], d);
    }
  }

  /** A token that another character follows after its delimiter is well inside the string. */
  lemma TokenInside(s: string, d: char) returns (k: nat)
    requires NextToken(s, d).Token? && NextToken(s, d).rest != ""
    ensures var text := NextToken(s, d).text; k + |text| + 2 <= |s| && text == s[k..k + |text|]
  {
    var t := SkipDelims(s, d);
    SkipSuffix(s, d);
    k := |s| - |t|;
    assert t[..FirstOf(t, d)] == s[k..][..FirstOf(t, d)];
  }

  lemma PartOfMost(line: string, k: nat, n: nat)
    requires k + n < |line|
    ensures line[k..k + n] == line[..|line| - 1][k..k + n]
  {
  }

  lemma FileToken(line: string)
    requires IsLine(line) && NextToken(line, '=').Token? && NextToken(line, '=').rest != ""
    ensures var text := NextToken(line, '=').text; Free(text, '\n') && |text| <= LONGEST_NAME
  {
    var k := TokenInside(line, '=');
    var n, most := |NextToken(line, '=').text|, line[..|line| - 1];
    PartOfMost(line, k, n);
    FreePart(most, k, k + n, '\n');
  }

  lemma FileItemWritable(line: string, lib: Numbers)
    requires IsLine(line) && ReadItem(line, lib).Item?
    ensures Writable(ReadItem(line, lib).name, true)
  {
    ItemName(line, lib);
    FileToken(line);
    TokenFree(line, '=');
    TrimmedWritable(NextToken(line, '=').text, true);
  }

  /** A line that gives the name; in a file it ends with a newline or fills the buffer. */
  function LineOf(name: string, inFile: bool): string {
    name + "=0" + if inFile && |name| < LONGEST_NAME then "\n" else ""
  }

  /** What one fgets gives of a file that goes on: a line with its newline, or a full buffer. */
  ghost predicate CompleteLine(l: string) {
    IsLine(l) && (l[|l| - 1] == '\n' || |l| == LOC_MAX_PARAM_LINE - 1)
  }

  ghost predicate IsLineOf(l: string, inFile: bool) {
    if inFile then CompleteLine(l) else l != "" && Free(l, '\n')
  }

  lemma AroundEquals(name: string, value: string)
    ensures var line := name + ("=" + value); line[..|name|] == name && line[|name| + 1..] == value
  {
  }

  lemma TokensRead(name: string, value: string)
    requires name != "" && Free(name, '=') && value != ""
    ensures NextToken(name + ("=" + value), '=') == Token(name, value)
  {
    var line := name + ("=" + value);
    FirstOfAt(name, "=" + value, '=');
    FirstOfMeaning(line, '=');
    NextAtText(line, '=');
    AroundEquals(name, value);
  }

  lemma NameRead(name: string, value: string, lib: Numbers)
    requires name != "" && Free(name, '=') && AfterTrim(name) == name && value != "" && value[0] != '='
    ensures var item := ReadItem(name + ("=" + value), lib); item.Item? && item.name == name
  {
    TokensRead(name, value);
    NextAtText(value, '=');
  }

  lemma CompleteFrom(most: string, last: char)
    requires Free(most, '\n') && |most| + 1 < LOC_MAX_PARAM_LINE
    requires last == '\n' || |most| + 2 == LOC_MAX_PARAM_LINE
    ensures CompleteLine(most + [last])
  {
    assert (most + [last])[..|most|] == most;
  }

  lemma EqualsFree(name: string)
    requires Free(name, '\n')
    ensures Free(name + "=", '\n') && Free(name + "=0", '\n')
  {
    FreeEach("=0", '\n');
    FreeEach("=", '\n');
    FreeConcat(name, "=0", '\n');
    FreeConcat(name, "=", '\n');
  }

  lemma EndShapes(name: string)
    ensures name + "=0" + "" == (name + "=") + ['0'] == name + "=0"
  {
  }

  lemma LineEnds(name: string, inFile: bool)
    requires Free(name, '\n') && (inFile ==> |name| <= LONGEST_NAME)
    ensures IsLineOf(LineOf(name, inFile), inFile)
  {
    EqualsFree(name);
    EndShapes(name);
    if inFile {
      if |name| < LONGEST_NAME {
        CompleteFrom(name + "=0", '\n');
      } else {
        CompleteFrom(name + "=", '0');
      }
    }
  }

  lemma LineGives(name: string, inFile: bool, lib: Numbers)
    requires Writable(name, inFile)
    ensures var item := ReadItem(LineOf(name, inFile), lib); item.Item? && item.name == name
    ensures IsLineOf(LineOf(name, inFile), inFile)
  {
    var value := if inFile && |name| < LONGEST_NAME then "0\n" else "0";
    assert LineOf(name, inFile) == name + ("=" + value);
    NameRead(name, value, lib);
    LineEnds(name, inFile);
  }

  // ---------- Lines put together ----------

  ghost predicate Lines(lines: seq<string>, inFile: bool) {
    forall k :: 0 <= k < |lines| ==> IsLineOf(lines[k], inFile)
  }

  lemma {:induction false} LinesFree(lines: seq<string>)
    requires Lines(lines, false)
    ensures AllFree(lines, '\n') && NonEmpty(lines) == lines
  {
    if lines != [] {
      LinesFree(lines[1..]);
      assert lines == [lines[0]] + lines[1..];
    }
  }

  /** Lines put together in a text come out of it again. */
  lemma LinesOfText(lines: seq<string>)
    requires Lines(lines, false) && lines != []
    ensures Tokens(Join(lines, '\n'), '\n') == lines
  {
    LinesFree(lines);
    SplitJoin(lines, '\n');
    TokensArePieces(Join(lines, '\n'), '\n');
  }

  lemma {:induction false} LineRead(l: string, rest: string, n: nat)
    requires 0 < |l| <= n && Free(l[..|l| - 1], '\n') && (l[|l| - 1] == '\n' || |l| == n)
    ensures LineLength(l + rest, n) == |l|
    decreases n
  {
    if |l| > 1 {
      assert l[0] == l[..|l| - 1][0];
      assert l[1..][..|l| - 2] == l[..|l| - 1][1..];
      LineRead(l[1..], rest, n - 1);
      assert (l + rest)[1..] == l[1..] + rest;
    }
  }

  /** So do complete lines of a file. */
  lemma {:induction false} LinesOfFile(lines: seq<string>)
    requires Lines(lines, true)
    ensures FileLines(Flatten(lines)) == lines
    decreases |lines|
  {
    if lines == [] {
      assert Flatten(lines) == "";
    } else {
      var first, rest := lines[0], lines[1..];
      LinesOfFile(rest);
      assert lines == [first] + rest;
      FlattenCons(first, rest);
      LineRead(first, Flatten(rest), LOC_MAX_PARAM_LINE - 1);
      assert (first + Flatten(rest))[..|first|] == first && (first + Flatten(rest))[|first|..] == Flatten(rest);
    }
  }

  // ---------- When the quota wraps ----------

  /** From the p-th line on, the loop never subtracts more than is left of the quota. */
  predicate Exact(entries: seq<Entry>, items: seq<Item>, p: nat, quota: nat)
    requires p <= |items|
    decreases |items| - p
  {
    p == |items| || quota == 0 ||
    (Hits(entries, items[p]) <= quota && Exact(entries, items, p + 1, Minus(quota, Hits(entries, items[p]))))
  }

  lemma {:induction false} FillsGrow(entries: seq<Entry>, items: seq<Item>, p: nat, k: nat)
    requires p <= k <= |items|
    ensures Fills(entries, items, p) <= Fills(entries, items, k)
    decreases k - p
  {
    if p < k {
      FillsGrow(entries, items, p, k - 1);
    }
  }

  /** No line from the p-th on overshoots. */
  ghost predicate NoWrapFrom(entries: seq<Entry>, items: seq<Item>, p: nat, quota: nat) {
    forall k :: p <= k < |items| && Fills(entries, items, k) < quota ==> Fills(entries, items, k + 1) <= quota
  }

  lemma {:induction false} ExactFrom(entries: seq<Entry>, items: seq<Item>, p: nat, quota: nat)
    requires p <= |items| && Fills(entries, items, p) <= quota < UINT32
    ensures Exact(entries, items, p, quota - Fills(entries, items, p)) <==> NoWrapFrom(entries, items, p, quota)
    decreases |items| - p
  {
    var t := Fills(entries, items, p);
    if p < |items| && t < quota {
      assert Fills(entries, items, p + 1) == t + Hits(entries, items[p]);
      if t + Hits(entries, items[p]) <= quota {
        ExactFrom(entries, items, p + 1, quota);
      }
    } else {
      forall k | p <= k < |items| ensures Fills(entries, items, k) >= t {
        FillsGrow(entries, items, p, k);
      }
    }
  }

  /** Every subtraction of the loop is exact if and only if no line fills more than the quota has left. */
  lemma ExactIffNoWrap(entries: seq<Entry>, items: seq<Item>, quota: nat)
    requires quota < UINT32
    ensures Exact(entries, items, 0, quota) <==> NoWrap(entries, items, quota)
  {
    ExactFrom(entries, items, 0, quota);
  }

  // ---------- Steady tables ----------

  function HitsFor(entries: seq<Entry>, name: string): nat {
    HitsTo(entries, name, |entries|)
  }

  /** A line can fill the entry. */
  ghost predicate Reachable(e: Entry, inFile: bool) {
    Takes(e, e.name) && Writable(e.name, inFile)
  }

  /** t is a multiple of h. */
  predicate Multiple(t: nat, h: nat) {
    t == 0 || (0 < h <= t && Multiple(t - h, h))
  }

  /** That is, it leaves no remainder. */
  lemma {:induction false} MultipleIsExact(t: nat, h: nat)
    requires h > 0
    ensures Multiple(t, h) <==> t % h == 0
    decreases t
  {
    if t < h {
      assert t / h == 0;
    } else {
      MultipleIsExact(t - h, h);
      RemainderKept(t, h);
    }
  }

  lemma RemainderKept(t: nat, h: nat)
    requires 0 < h <= t
    ensures (t - h) % h == t % h
  {
    var q, r := (t - h) / h, (t - h) % h;
    assert t == (q + 1) * h + r;
    RemainderOf(t, h, q + 1, r);
  }

  lemma {:induction false} AtLeastOnce(d: nat, h: nat)
    requires d >= 1
    ensures d * h >= h
  {
    if d > 1 {
      AtLeastOnce(d - 1, h);
      assert d * h == (d - 1) * h + h;
    }
  }

  lemma RemainderOf(t: nat, h: nat, q: nat, r: nat)
    requires 0 <= r < h && t == q * h + r
    ensures t % h == r
  {
    var d := t / h - q;
    assert d * h == r - t % h by {
      assert t == (t / h) * h + t % h;
      assert d * h == (t / h) * h - q * h;
    }
    if d > 0 {
      AtLeastOnce(d, h);
    } else if d < 0 {
      AtLeastOnce(-d, h);
    }
  }

  /**
   All names that fill entries fill equally many, and the quota is a multiple of that number.
   An empty quota takes no line.
   */
  ghost predicate Steady(entries: seq<Entry>, quota: nat, inFile: bool) {
    quota == 0 ||
    forall i, j ::
      (0 <= i < |entries| && 0 <= j < |entries| && Reachable(entries[i], inFile) && Reachable(entries[j], inFile)) ==>
        (HitsFor(entries, entries[i].name) == HitsFor(entries, entries[j].name)
         && Multiple(quota, HitsFor(entries, entries[i].name)))
  }

  ghost predicate AllWritable(items: seq<Item>, inFile: bool) {
    forall p :: 0 <= p < |items| && items[p].Item? ==> Writable(items[p].name, inFile)
  }

  lemma {:induction false} MultipleGap(t: nat, h: nat, quota: nat)
    requires Multiple(t, h) && Multiple(quota, h) && t < quota
    ensures t + h <= quota
    decreases t
  {
    if t > 0 {
      MultipleGap(t - h, h, quota - h);
    }
  }

  /** In a steady table every line fills none or the same number h. */
  lemma SteadyHits(entries: seq<Entry>, quota: nat, item: Item, inFile: bool) returns (i: nat)
    requires Steady(entries, quota, inFile) && quota > 0 && (item.Item? ==> Writable(item.name, inFile))
    requires Hits(entries, item) > 0
    ensures i < |entries| && Reachable(entries[i], inFile)
    ensures HitsFor(entries, entries[i].name) == Hits(entries, item) && Multiple(quota, Hits(entries, item))
  {
    HitsOf(entries, item.name, |entries|);
    i :| 0 <= i < |entries| && Takes(entries[i], item.name);
  }

  lemma {:induction false} SteadyFills(entries: seq<Entry>, items: seq<Item>, p: nat, h: nat)
    requires p <= |items| && h > 0
    requires forall k :: 0 <= k < |items| ==> Hits(entries, items[k]) == 0 || Hits(entries, items[k]) == h
    ensures Multiple(Fills(entries, items, p), h)
  {
    if p > 0 {
      SteadyFills(entries, items, p - 1, h);
    }
  }

  lemma SteadyNoWrap(entries: seq<Entry>, items: seq<Item>, quota: nat, inFile: bool)
    requires Steady(entries, quota, inFile) && AllWritable(items, inFile)
    ensures NoWrap(entries, items, quota)
  {
    forall p | 0 <= p < |items| && Fills(entries, items, p) < quota
      ensures Fills(entries, items, p + 1) <= quota
    {
      var h := Hits(entries, items[p]);
      if h > 0 {
        var i := SteadyHits(entries, quota, items[p], inFile);
        forall k | 0 <= k < |items| ensures Hits(entries, items[k]) == 0 || Hits(entries, items[k]) == h {
          if Hits(entries, items[k]) > 0 {
            var j := SteadyHits(entries, quota, items[k], inFile);
          }
        }
        SteadyFills(entries, items, p, h);
        MultipleGap(Fills(entries, items, p), h, quota);
      }
    }
  }

  lemma {:induction false} FillsPrefix(entries: seq<Entry>, items: seq<Item>, more: seq<Item>, p: nat)
    requires p <= |items|
    ensures Fills(entries, items + more, p) == Fills(entries, items, p)
  {
    if p > 0 {
      FillsPrefix(entries, items, more, p - 1);
    }
  }

  lemma FillsNext(entries: seq<Entry>, items: seq<Item>, item: Item)
    ensures Fills(entries, items + [item], |items|) == Fills(entries, items, |items|)
    ensures Fills(entries, items + [item], |items| + 1) == Fills(entries, items, |items|) + Hits(entries, item)
  {
    FillsPrefix(entries, items, [item], |items|);
  }

  predicate OneOf(items: seq<Item>, a: Item, b: Item) {
    forall k :: 0 <= k < |items| ==> items[k] == a || items[k] == b
  }

  /** Items of the first kind, and at last one of the second, until the quota wraps. */
  lemma {:induction false} Overshoot(entries: seq<Entry>, a: Item, b: Item, quota: nat, before: seq<Item>)
    returns (items: seq<Item>)
    requires 0 < Hits(entries, a) <= Hits(entries, b)
    requires var t := Fills(entries, before, |before|);
      t < quota && (Hits(entries, a) < Hits(entries, b) || (Multiple(t, Hits(entries, a)) && !Multiple(quota, Hits(entries, a))))
    requires OneOf(before, a, b)
    ensures OneOf(items, a, b) && items != [] && !NoWrap(entries, items, quota)
    decreases quota - Fills(entries, before, |before|)
  {
    var t := Fills(entries, before, |before|);
    if t + Hits(entries, b) > quota {
      items := before + [b];
      FillsNext(entries, before, b);
    } else {
      FillsNext(entries, before, a);
      items := Overshoot(entries, a, b, quota, before + [a]);
    }
  }

  lemma LinesFor(items: seq<Item>, a: string, b: string, inFile: bool, lib: Numbers) returns (lines: seq<string>)
    requires Writable(a, inFile) && Writable(b, inFile)
    requires OneOf(items, ReadItem(LineOf(a, inFile), lib), ReadItem(LineOf(b, inFile), lib))
    ensures Lines(lines, inFile) && ReadItems(lines, lib) == items
  {
    var la, lb, ia := LineOf(a, inFile), LineOf(b, inFile), ReadItem(LineOf(a, inFile), lib);
    LineGives(a, inFile, lib);
    LineGives(b, inFile, lib);
    lines := seq(|items|, k requires 0 <= k < |items| => if items[k] == ia then la else lb);
  }

  lemma {:induction false} TokensFree(s: string, d: char)
    ensures forall k :: 0 <= k < |Tokens(s, d)| ==> Free(Tokens(s, d)[k], d)
    decreases |s|
  {
    match NextToken(s, d)
    case NoToken =>
    case Token(text, rest) =>
      TokenFree(s, d);
      TokensFree(rest, d);
  }

  /**
   On no text does loc_update_conf subtract below zero if and only if the table is steady.
   A table whose names are distinct is steady.
   */
  lemma NeverWrapsIffSteady(entries: seq<Entry>, quota: nat, lib: Numbers)
    requires quota < UINT32
    ensures (forall data: string :: Exact(entries, ItemsOf(data, lib), 0, quota)) <==> Steady(entries, quota, false)
  {
    if Steady(entries, quota, false) {
      forall data: string ensures Exact(entries, ItemsOf(data, lib), 0, quota) {
        TextItems(data, lib);
        SteadyNoWrap(entries, ItemsOf(data, lib), quota, false);
        ExactIffNoWrap(entries, ItemsOf(data, lib), quota);
      }
    } else {
      var lines := WrappingLines(entries, quota, false, lib);
      LinesOfText(lines);
      ExactIffNoWrap(entries, ItemsOf(Join(lines, '\n'), lib), quota);
    }
  }

  /** On no file does loc_read_conf_r if and only if the table is steady for names that fit its buffer. */
  lemma FileNeverWrapsIffSteady(entries: seq<Entry>, quota: nat, lib: Numbers)
    requires quota < UINT32
    ensures (forall file: string :: Exact(entries, ReadItems(FileLines(file), lib), 0, quota))
            <==> Steady(entries, quota, true)
  {
    if Steady(entries, quota, true) {
      forall file: string ensures Exact(entries, ReadItems(FileLines(file), lib), 0, quota) {
        FileItems(file, lib);
        SteadyNoWrap(entries, ReadItems(FileLines(file), lib), quota, true);
        ExactIffNoWrap(entries, ReadItems(FileLines(file), lib), quota);
      }
    } else {
      var lines := WrappingLines(entries, quota, true, lib);
      LinesOfFile(lines);
      ExactIffNoWrap(entries, ReadItems(FileLines(Flatten(lines)), lib), quota);
    }
  }

  lemma TextItems(data: string, lib: Numbers)
    ensures AllWritable(ItemsOf(data, lib), false)
  {
    var lines := Tokens(data, '\n');
    TokensFree(data, '\n');
    forall k | 0 <= k < |lines| && ReadItem(lines[k], lib).Item?
      ensures Writable(ReadItem(lines[k], lib).name, false)
    {
      ItemWritable(lines[k], lib);
    }
  }

  lemma FileItems(file: string, lib: Numbers)
    ensures AllWritable(ReadItems(FileLines(file), lib), true)
  {
    var lines := FileLines(file);
    FileLinesWhole(file);
    forall k | 0 <= k < |lines| && ReadItem(lines[k], lib).Item?
      ensures Writable(ReadItem(lines[k], lib).name, true)
    {
      FileItemWritable(lines[k], lib);
    }
  }

  lemma WrappingNames(entries: seq<Entry>, quota: nat, a: string, b: string, inFile: bool, lib: Numbers)
    returns (lines: seq<string>)
    requires Writable(a, inFile) && Writable(b, inFile) && quota > 0
    requires var h := HitsFor(entries, a); 0 < h && (h < HitsFor(entries, b) || (a == b && !Multiple(quota, h)))
    ensures Lines(lines, inFile) && lines != [] && !NoWrap(entries, ReadItems(lines, lib), quota)
  {
    LineGives(a, inFile, lib);
    LineGives(b, inFile, lib);
    var ia, ib := ReadItem(LineOf(a, inFile), lib), ReadItem(LineOf(b, inFile), lib);
    var items := Overshoot(entries, ia, ib, quota, []);
    lines := LinesFor(items, a, b, inFile, lib);
  }

  lemma WrappingLines(entries: seq<Entry>, quota: nat, inFile: bool, lib: Numbers) returns (lines: seq<string>)
    requires !Steady(entries, quota, inFile)
    ensures Lines(lines, inFile) && lines != [] && !NoWrap(entries, ReadItems(lines, lib), quota)
  {
    var i, j :| 0 <= i < |entries| && 0 <= j < |entries| && Reachable(entries[i], inFile) && Reachable(entries[j], inFile)
      && !(HitsFor(entries, entries[i].name) == HitsFor(entries, entries[j].name)
           && Multiple(quota, HitsFor(entries, entries[i].name)));
    var a, b := entries[i].name, entries[j].name;
    HitsOf(entries, a, |entries|);
    HitsOf(entries, b, |entries|);
    if HitsFor(entries, a) < HitsFor(entries, b) {
      lines := WrappingNames(entries, quota, a, b, inFile, lib);
    } else if HitsFor(entries, a) > HitsFor(entries, b) {
      lines := WrappingNames(entries, quota, b, a, inFile, lib);
    } else {
      lines := WrappingNames(entries, quota, a, a, inFile, lib);
    }
  }

  lemma DistinctSteady(entries: seq<Entry>, quota: nat, inFile: bool)
    requires DistinctNames(entries)
    ensures Steady(entries, quota, inFile)
  {
    forall i | 0 <= i < |entries| && Takes(entries[i], entries[i].name)
      ensures HitsFor(entries, entries[i].name) == 1
    {
      HitsOf(entries, entries[i].name, |entries|);
    }
    MultipleIsExact(quota, 1);
  }
}
