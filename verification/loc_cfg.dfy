/**
 Filling a configuration table line by line, from gps/utils/loc_cfg.cpp.
 */
module LocCfg {
  import opened Sequences
  import opened CStrings
  import opened MiscUtils

  const LOC_MAX_PARAM_STRING := 80
  const LOC_MAX_PARAM_LINE := 160

  // ---------- strtok_r and fgets ----------

  /** What strtok_r returns, and where it goes on. */
  datatype Token = NoToken | Token(text: string, rest: string)

  function SkipDelims(s: string, d: char): (t: string)
    ensures |t| <= |s| && (t == "" || t[0] != d)
  {
    if s == "" || s[0] != d then s else SkipDelims(s[1..], d)
  }

  function NextToken(s: string, d: char): (r: Token)
    ensures r.Token? ==> r.text != "" && |r.rest| < |s|
  {
    var t := SkipDelims(s, d);
    if t == "" then NoToken
    else
      var i := FirstOf(t, d);
      Token(t[..i], if i == |t| then "" else t[i + 1..])
  }

  function Tokens(s: string, d: char): seq<string>
    decreases |s|
  {
    match NextToken(s, d)
    case NoToken => []
    case Token(text, rest) => [text] + Tokens(rest, d)
  }

  /** The token, and those still to come. */
  function FromToken(next: Token, d: char): (r: seq<string>)
    ensures next.Token? ==> r != []
  {
    match next
    case NoToken => []
    case Token(text, rest) => [text] + Tokens(rest, d)
  }

  lemma FromFirst(s: string, d: char)
    ensures FromToken(NextToken(s, d), d) == Tokens(s, d)
  {
  }

  function NonEmpty(pieces: seq<string>): seq<string> {
    if pieces == [] then []
    else (if pieces[0] == "" then [] else [pieces[0]]) + NonEmpty(pieces[1..])
  }

  lemma SkipOne(s: string, d: char)
    requires s != "" && s[0] == d
    ensures Tokens(s, d) == Tokens(s[1..], d)
  {
    assert NextToken(s, d) == NextToken(s[1..], d);
  }

  lemma NextAtText(s: string, d: char)
    requires s != "" && s[0] != d
    ensures var i := FirstOf(s, d);
      NextToken(s, d) == Token(s[..i], if i == |s| then "" else s[i + 1..])
  {
    assert SkipDelims(s, d) == s;
  }

  lemma TakeOne(s: string, d: char)
    requires s != "" && s[0] != d
    ensures var i := FirstOf(s, d);
      Tokens(s, d) == [s[..i]] + if i == |s| then [] else Tokens(s[i + 1..], d)
  {
    NextAtText(s, d);
    if FirstOf(s, d) == |s| {
      assert Tokens("", d) == [];
    }
  }

  lemma TokensHead(s: string, d: char)
    ensures var i := FirstOf(s, d);
      var rest := if i == |s| then [] else Tokens(s[i + 1..], d);
      Tokens(s, d) == if i == 0 then rest else [s[..i]] + rest
  {
    if s == "" {
      assert NextToken(s, d) == NoToken;
    } else if s[0] == d {
      SkipOne(s, d);
    } else {
      TakeOne(s, d);
    }
  }

  lemma NonEmptyHead(piece: string, rest: seq<string>)
    ensures NonEmpty([piece] + rest) == if piece == "" then NonEmpty(rest) else [piece] + NonEmpty(rest)
  {
    assert ([piece] + rest)[1..] == rest;
  }

  lemma LastToken(s: string, d: char)
    requires FirstOf(s, d) == |s|
    ensures Tokens(s, d) == NonEmpty([s])
  {
    TokensHead(s, d);
    assert s[..|s|] == s;
    NonEmptyHead(s, []);
    assert [s] + [] == [s];
  }

  lemma TokenThen(s: string, d: char, i: nat, rest: seq<string>)
    requires i == FirstOf(s, d) < |s| && Tokens(s[i + 1..], d) == NonEmpty(rest)
    ensures Tokens(s, d) == NonEmpty([s[..i]] + rest)
  {
    TokensHead(s, d);
    NonEmptyHead(s[..i], rest);
  }

  /** The tokens are the pieces between the delimiters that are not empty. */
  lemma {:induction false} TokensArePieces(s: string, d: char)
    ensures Tokens(s, d) == NonEmpty(Split(s, d))
    decreases |s|
  {
    var i := FirstOf(s, d);
    if i == |s| {
      LastToken(s, d);
    } else {
      TokensArePieces(s[i + 1..], d);
      TokenThen(s, d, i, Split(s[i + 1..], d));
    }
  }

  /** How much of the file one fgets reads: up to a newline, and at most n characters. */
  function LineLength(file: string, n: nat): (l: nat)
    ensures l <= n && l <= |file| && (file != "" && n > 0 ==> l > 0)
  {
    if file == "" || n == 0 then 0 else if file[0] == '\n' then 1 else 1 + LineLength(file[1..], n - 1)
  }

  function FileLines(file: string): seq<string>
    decreases |file|
  {
    if file == "" then []
    else
      var l := LineLength(file, LOC_MAX_PARAM_LINE - 1);
      [file[..l]] + FileLines(file[l..])
  }

  lemma {:induction false} OneNewline(file: string, n: nat)
    requires file != "" && n > 0
    ensures var l := LineLength(file, n); l > 0 && Free(file[..l - 1], '\n')
    decreases n
  {
    var l := LineLength(file, n);
    if l > 1 {
      OneNewline(file[1..], n - 1);
      assert file[..l - 1][1..] == file[1..][..l - 2];
    }
  }

  /** A line that one fgets can give. */
  ghost predicate IsLine(l: string) {
    0 < |l| < 160 && Free(l[..|l| - 1], '\n')
  }

  lemma FirstLine(file: string)
    requires file != ""
    ensures var l := LineLength(file, LOC_MAX_PARAM_LINE - 1);
      IsLine(file[..l]) && file == file[..l] + file[l..]
  {
    var l := LineLength(file, LOC_MAX_PARAM_LINE - 1);
    OneNewline(file, LOC_MAX_PARAM_LINE - 1);
    assert file[..l][..l - 1] == file[..l - 1];
  }

  /** The lines of a file, put one after the other, are the file, and each fits the buffer. */
  lemma {:induction false} FileLinesWhole(file: string)
    ensures Flatten(FileLines(file)) == file
    ensures forall k :: 0 <= k < |FileLines(file)| ==> IsLine(FileLines(file)[k])
    decreases |file|
  {
    if file != "" {
      var l := LineLength(file, LOC_MAX_PARAM_LINE - 1);
      FirstLine(file);
      FileLinesWhole(file[l..]);
      FlattenCons(file[..l], FileLines(file[l..]));
    }
  }

  // ---------- One line ----------

  /** The number parsers of the C library: atoi, strtol to base 16, atof. */
  datatype Numbers = Numbers(dec: string -> int, hex: string -> int, float: string -> real)

  datatype Item = NoItem | Item(name: string, text: string, number: int, float: real)

  /** A trimmed name and value; a hexadecimal value has no floating-point reading. */
  function MakeItem(name: string, v: string, lib: Numbers): (r: Item)
    ensures r.Item? && r.name == name && r.text == v
  {
    if |v| >= 3 && v[0] == '0' && (v[1] == 'x' || v[1] == 'X') then Item(name, v, lib.hex(v[2..]), 0.0)
    else Item(name, v, lib.dec(v), lib.float(v))
  }

  function ReadItem(line: string, lib: Numbers): Item {
    match NextToken(line, '=')
    case NoToken => NoItem
    case Token(name, rest) =>
      match NextToken(rest, '=')
      case NoToken => NoItem
      case Token(value, _) => MakeItem(AfterTrim(name), AfterTrim(value), lib)
  }

  // ---------- The table ----------

  /** A table entry: its name, whether it has a place for the value and for the flag, and its type. */
  datatype Entry = Entry(name: string, bound: bool, flagged: bool, kind: char)

  datatype Value = Text(text: string) | Number(number: int) | Float(float: real)

  /** What the two pointers of an entry point at. */
  datatype Cell = Cell(value: Value, isSet: bool)

  predicate Takes(e: Entry, name: string) {
    e.name == name && e.bound && (e.kind == 's' || e.kind == 'n' || e.kind == 'f')
  }

  function Stored(kind: char, item: Item): Value
    requires item.Item?
  {
    if kind == 's' then
      Text(if item.text == "NULL" then ""
           else if |item.text| > LOC_MAX_PARAM_STRING then item.text[..LOC_MAX_PARAM_STRING] else item.text)
    else if kind == 'n' then Number(item.number)
    else Float(item.float)
  }

  function SetCell(e: Entry, c: Cell, item: Item): Cell {
    if item.Item? && Takes(e, item.name) then Cell(Stored(e.kind, item), c.isSet || e.flagged) else c
  }

  /** The cells after one line. */
  function Fill(entries: seq<Entry>, cells: seq<Cell>, item: Item): (r: seq<Cell>)
    requires |cells| == |entries|
    ensures |r| == |cells|
  {
    seq(|cells|, i requires 0 <= i < |cells| => SetCell(entries[i], cells[i], item))
  }

  /** How many of the first p entries a name fills. */
  function HitsTo(entries: seq<Entry>, name: string, p: nat): (h: nat)
    requires p <= |entries|
    ensures h <= p
  {
    if p == 0 then 0 else HitsTo(entries, name, p - 1) + if Takes(entries[p - 1], name) then 1 else 0
  }

  function Hits(entries: seq<Entry>, item: Item): nat {
    if item.NoItem? then 0 else HitsTo(entries, item.name, |entries|)
  }

  // ---------- All lines ----------

  function ReadItems(lines: seq<string>, lib: Numbers): (r: seq<Item>)
    ensures |r| == |lines|
  {
    seq(|lines|, i requires 0 <= i < |lines| => ReadItem(lines[i], lib))
  }

  /** The cells after the first p lines, in order. */
  function FillLines(entries: seq<Entry>, cells: seq<Cell>, items: seq<Item>, p: nat): (r: seq<Cell>)
    requires |cells| == |entries| && p <= |items|
    ensures |r| == |cells|
  {
    if p == 0 then cells else Fill(entries, FillLines(entries, cells, items, p - 1), items[p - 1])
  }

  /** How many entries the first p lines fill. */
  function Fills(entries: seq<Entry>, items: seq<Item>, p: nat): nat
    requires p <= |items|
  {
    if p == 0 then 0 else Fills(entries, items, p - 1) + Hits(entries, items[p - 1])
  }

  const UINT32 := 0x1_0000_0000

  /** Subtraction of 32-bit unsigned numbers. */
  function Minus(quota: nat, filled: nat): (r: nat)
    ensures r < UINT32
    ensures filled <= quota < UINT32 ==> r == quota - filled
  {
    (quota - filled) % 0x1_0000_0000
  }

  /** How many lines are used until the unsigned quota, from the p-th line on, is zero. */
  function Used(entries: seq<Entry>, items: seq<Item>, p: nat, quota: nat): (u: nat)
    requires p <= |items|
    ensures p <= u <= |items|
    decreases |items| - p
  {
    if p == |items| || quota == 0 then p
    else Used(entries, items, p + 1, Minus(quota, Hits(entries, items[p])))
  }

  /** The items of a text, line by line. */
  function ItemsOf(data: string, lib: Numbers): seq<Item> {
    ReadItems(Tokens(data, '\n'), lib)
  }

  /** What loc_update_conf returns: the lines used with a quota that starts one short. */
  function UpdateResult(entries: seq<Entry>, items: seq<Item>): (ret: nat)
    requires entries != []
    ensures ret <= |items|
  {
    Used(entries, items, 0, |entries| - 1)
  }

  /** How many lines loc_read_conf_r uses, with a quota of one for each entry. */
  function ReadUsed(entries: seq<Entry>, items: seq<Item>): (used: nat)
    ensures used <= |items|
  {
    Used(entries, items, 0, |entries|)
  }

  /** The cells before i are as they shall be, the others as they were. */
  ghost predicate Reached(was: seq<Cell>, now: seq<Cell>, goal: seq<Cell>, i: nat) {
    && |was| == |now| == |goal|
    && (forall k :: 0 <= k < i && k < |now| ==> now[k] == goal[k])
    && (forall k :: i <= k < |now| ==> now[k] == was[k])
  }

  lemma ReachedNext(was: seq<Cell>, now: seq<Cell>, goal: seq<Cell>, i: nat)
    requires Reached(was, now, goal, i) && i < |now|
    ensures now[i] == was[i] && Reached(was, now[i := goal[i]], goal, i + 1)
  {
  }

  lemma ReachedAll(was: seq<Cell>, now: seq<Cell>, goal: seq<Cell>)
    requires Reached(was, now, goal, |now|) || (Reached(was, now, goal, 0) && was == goal)
    ensures now == goal
  {
  }

  /** The first lines are used, and what is left of the quota decides about the rest. */
  ghost predicate Filling(entries: seq<Entry>, first: seq<Cell>, now: seq<Cell>, items: seq<Item>, used: nat,
                          start: nat, quota: nat) {
    && |first| == |entries| && used <= |items|
    && Used(entries, items, 0, start) == Used(entries, items, used, quota)
    && now == FillLines(entries, first, items, used)
  }

  lemma FillingBegins(entries: seq<Entry>, first: seq<Cell>, items: seq<Item>, quota: nat)
    requires |first| == |entries|
    ensures Filling(entries, first, first, items, 0, quota, quota)
  {
  }

  lemma FillingTakes(entries: seq<Entry>, first: seq<Cell>, now: seq<Cell>, items: seq<Item>, used: nat,
                     start: nat, quota: nat, item: Item)
    requires Filling(entries, first, now, items, used, start, quota)
    requires used < |items| && quota != 0 && item == items[used]
    ensures var after, left := Fill(entries, now, item), Minus(quota, Hits(entries, item));
      Filling(entries, first, after, items, used + 1, start, left)
  {
  }

  lemma FillingEnds(entries: seq<Entry>, first: seq<Cell>, now: seq<Cell>, items: seq<Item>, used: nat,
                    start: nat, quota: nat)
    requires Filling(entries, first, now, items, used, start, quota)
    requires used == |items| || quota == 0
    ensures used == Used(entries, items, 0, start) && now == FillLines(entries, first, items, used)
  {
  }

  lemma LineTaken(lines: seq<string>, i: nat, line: string, rest: seq<string>)
    requires i <= |lines| && lines[i..] == [line] + rest
    ensures i < |lines| && lines[i] == line && lines[i + 1..] == rest
  {
    assert lines[i] == lines[i..][0];
    assert lines[i + 1..] == lines[i..][1..];
  }

  /** The first lines of a text are read, and strtok_r has returned the next. */
  ghost predicate Reading(lines: seq<string>, used: nat, next: Token) {
    used <= |lines| && lines[used..] == FromToken(next, '\n')
  }

  lemma ReadingTakes(lines: seq<string>, used: nat, next: Token)
    requires Reading(lines, used, next) && next.Token?
    ensures used < |lines| && lines[used] == next.text && Reading(lines, used + 1, NextToken(next.rest, '\n'))
  {
    LineTaken(lines, used, next.text, Tokens(next.rest, '\n'));
    FromFirst(next.rest, '\n');
  }

  lemma FillNothing(entries: seq<Entry>, cells: seq<Cell>)
    requires |cells| == |entries|
    ensures Fill(entries, cells, NoItem) == cells
  {
  }

  class ConfigTable {
    const entries: seq<Entry>
    var cells: seq<Cell>

    ghost predicate Valid()
      reads this
    {
      |cells| == |entries| < UINT32
    }

    constructor (entries: seq<Entry>, cells: seq<Cell>)
      requires |cells| == |entries| < UINT32
      ensures Valid() && this.entries == entries && this.cells == cells
    {
      this.entries, this.cells := entries, cells;
    }

    /** loc_set_config_entry: zero if the entry took the value, -1 if not. */
    method SetConfigEntry(i: nat, item: Item) returns (ret: int)
      requires Valid() && i < |entries| && item.Item?
      modifies this
      ensures Valid()
      ensures cells == old(cells)[i := SetCell(entries[i], old(cells)[i], item)]
      ensures ret == if Takes(entries[i], item.name) then 0 else -1
    {
      ret := -1;
      var e := entries[i];
      if e.name == item.name && e.bound {
        if e.kind == 's' {
          var text := "";
          if item.text != "NULL" {
            text := if |item.text| > LOC_MAX_PARAM_STRING then item.text[..LOC_MAX_PARAM_STRING] else item.text;
          }
          cells := cells[i := Cell(Text(text), cells[i].isSet)];
          if e.flagged {
            cells := cells[i := cells[i].(isSet := true)];
          }
          ret := 0;
        } else if e.kind == 'n' {
          cells := cells[i := Cell(Number(item.number), cells[i].isSet)];
          if e.flagged {
            cells := cells[i := cells[i].(isSet := true)];
          }
          ret := 0;
        } else if e.kind == 'f' {
          cells := cells[i := Cell(Float(item.float), cells[i].isSet)];
          if e.flagged {
            cells := cells[i := cells[i].(isSet := true)];
          }
          ret := 0;
        }
      }
    }

    /** The loop of loc_fill_conf_item over the table. */
    method FillEntries(item: Item) returns (filled: nat)
      requires Valid() && item.Item?
      modifies this
      ensures Valid()
      ensures cells == Fill(entries, old(cells), item)
      ensures filled == HitsTo(entries, item.name, |entries|)
    {
      filled := 0;
      ghost var was, goal := cells, Fill(entries, cells, item);
      for i := 0 to |entries|
        invariant Valid() && filled == HitsTo(entries, item.name, i)
        invariant Reached(was, cells, goal, i)
      {
        ReachedNext(was, cells, goal, i);
        var ret := SetConfigEntry(i, item);
        if ret == 0 {
          filled := filled + 1;
        }
      }
      ReachedAll(was, cells, goal);
    }

    /** loc_fill_conf_item: the number of entries the line filled. */
    method FillConfItem(line: string, lib: Numbers, ghost item: Item) returns (filled: nat)
      requires Valid() && item == ReadItem(line, lib)
      modifies this
      ensures Valid()
      ensures cells == Fill(entries, old(cells), item)
      ensures filled == Hits(entries, item) <= |entries|
    {
      filled := 0;
      var value := ReadItem(line, lib);
      if value.Item? {
        filled := FillEntries(value);
      } else {
        FillNothing(entries, cells);
      }
    }

    /** The loop of loc_update_conf: the lines of the text until the quota is zero. */
    method FillFromText(data: string, lib: Numbers, start: nat) returns (used: nat)
      requires Valid() && start < UINT32
      modifies this
      ensures Valid()
      ensures var items := ItemsOf(data, lib);
        used == Used(entries, items, 0, start) && cells == FillLines(entries, old(cells), items, used)
    {
      ghost var first, lines, items := cells, Tokens(data, '\n'), ItemsOf(data, lib);
      var quota: nat := start;
      var next := NextToken(data, '\n');
      used := 0;
      FromFirst(data, '\n');
      FillingBegins(entries, first, items, quota);
      while quota != 0 && next.Token?
        invariant Valid() && 0 <= quota < UINT32
        invariant Reading(lines, used, next)
        invariant Filling(entries, first, cells, items, used, start, quota)
        decreases |lines| - used
      {
        ReadingTakes(lines, used, next);
        FillingTakes(entries, first, cells, items, used, start, quota, items[used]);
        var filled := FillConfItem(next.text, lib, items[used]);
        used := used + 1;
        quota := Minus(quota, filled);
        next := NextToken(next.rest, '\n');
      }
      FillingEnds(entries, first, cells, items, used, start, quota);
    }

    /** loc_update_conf: the number of lines used, or -1 without data or entries. */
    method UpdateConf(data: string, lib: Numbers) returns (ret: int)
      requires Valid()
      modifies this
      ensures Valid()
      ensures data == "" || entries == [] ==> ret == -1 && cells == old(cells)
      ensures |entries| == 1 && data != "" ==> ret == 0 && cells == old(cells)
      ensures data != "" && entries != [] ==>
        var items := ItemsOf(data, lib);
        ret == UpdateResult(entries, items) && cells == FillLines(entries, old(cells), items, ret)
    {
      ret := -1;
      if data != "" && |entries| != 0 {
        ret := FillFromText(data, lib, |entries| - 1);
      }
    }

    /** The first loop of loc_read_conf_r. */
    method ClearFlags()
      requires Valid()
      modifies this
      ensures Valid() && cells == Cleared(entries, old(cells))
    {
      ghost var was, goal := cells, Cleared(entries, cells);
      for i := 0 to |entries|
        invariant Valid() && Reached(was, cells, goal, i)
      {
        ReachedNext(was, cells, goal, i);
        if entries[i].flagged {
          cells := cells[i := cells[i].(isSet := false)];
        }
      }
      ReachedAll(was, cells, goal);
    }

    /** loc_read_conf_r: what is left of the file. */
    method ReadConfR(file: string, lib: Numbers) returns (rest: string)
      requires Valid()
      modifies this
      ensures Valid()
      ensures var items := ReadItems(FileLines(file), lib);
        var used := ReadUsed(entries, items);
        && cells == FillLines(entries, Cleared(entries, old(cells)), items, used)
        && FileLines(rest) == FileLines(file)[used..]
    {
      rest := file;
      var quota: nat := |entries|;
      ghost var goal := Cleared(entries, cells);
      ClearFlags();
      ghost var lines, used := FileLines(file), 0;
      ghost var items := ReadItems(lines, lib);
      ghost var start := quota;
      FillingBegins(entries, goal, items, start);
      while quota != 0
        invariant Valid() && 0 <= used <= |lines| && 0 <= quota < UINT32
        invariant FileLines(rest) == lines[used..]
        invariant Filling(entries, goal, cells, items, used, start, quota)
        decreases |lines| - used
      {
        if rest == "" {
          break;
        }
        var l := LineLength(rest, LOC_MAX_PARAM_LINE - 1);
        LineTaken(lines, used, rest[..l], FileLines(rest[l..]));
        FillingTakes(entries, goal, cells, items, used, start, quota, items[used]);
        var filled := FillConfItem(rest[..l], lib, items[used]);
        quota := Minus(quota, filled);
        rest := rest[l..];
        used := used + 1;
      }
      FillingEnds(entries, goal, cells, items, used, start, quota);
    }
  }

  /** All validity flags cleared. */
  function Cleared(entries: seq<Entry>, cells: seq<Cell>): (r: seq<Cell>)
    requires |cells| == |entries|
    ensures |r| == |cells|
  {
    seq(|cells|, i requires 0 <= i < |cells| =>
      if entries[i].flagged then cells[i].(isSet := false) else cells[i])
  }

  // ---------- What the lines do ----------

  /** No two entries that take values share a name. */
  predicate DistinctNames(entries: seq<Entry>) {
    forall i, j :: 0 <= i < j < |entries| && Takes(entries[i], entries[i].name)
      ==> !Takes(entries[j], entries[i].name)
  }

  lemma {:induction false} HitsOf(entries: seq<Entry>, name: string, p: nat)
    requires p <= |entries|
    ensures HitsTo(entries, name, p) == 0 <==> forall i :: 0 <= i < p ==> !Takes(entries[i], name)
    ensures DistinctNames(entries) ==> HitsTo(entries, name, p) <= 1
  {
    if p > 0 {
      HitsOf(entries, name, p - 1);
    }
  }

  /** With distinct names a line fills one entry at most. */
  lemma OneEntryPerLine(entries: seq<Entry>, item: Item)
    requires DistinctNames(entries)
    ensures Hits(entries, item) <= 1
  {
    if item.Item? {
      HitsOf(entries, item.name, |entries|);
    }
  }

  /** No line fills more entries than the quota has left. */
  ghost predicate NoWrap(entries: seq<Entry>, items: seq<Item>, quota: nat) {
    forall p :: 0 <= p < |items| && Fills(entries, items, p) < quota ==> Fills(entries, items, p + 1) <= quota
  }

  lemma {:induction false} UsedKeepsCount(entries: seq<Entry>, items: seq<Item>, p: nat, quota: nat)
    requires p <= |items| && NoWrap(entries, items, quota) && Fills(entries, items, p) <= quota < UINT32
    ensures var u := Used(entries, items, p, quota - Fills(entries, items, p));
      && Fills(entries, items, u) <= quota
      && (u < |items| ==> Fills(entries, items, u) == quota)
      && (u > p ==> Fills(entries, items, u - 1) < quota)
    decreases |items| - p
  {
    if p < |items| && Fills(entries, items, p) < quota {
      assert Fills(entries, items, p + 1) == Fills(entries, items, p) + Hits(entries, items[p]);
      UsedKeepsCount(entries, items, p + 1, quota);
    }
  }

  /**
   As long as the quota does not wrap, the lines used are all of them, or those up to and including
   the one that makes the quota-th fill.
   */
  lemma QuotaExact(entries: seq<Entry>, items: seq<Item>, quota: nat)
    requires NoWrap(entries, items, quota) && quota < UINT32
    ensures var u := Used(entries, items, 0, quota);
      && Fills(entries, items, u) <= quota
      && (u < |items| ==> Fills(entries, items, u) == quota)
      && (u > 0 ==> Fills(entries, items, u - 1) < quota)
  {
    UsedKeepsCount(entries, items, 0, quota);
  }

  /** With distinct names it never does. */
  lemma DistinctNoWrap(entries: seq<Entry>, items: seq<Item>, quota: nat)
    requires DistinctNames(entries)
    ensures NoWrap(entries, items, quota)
  {
    forall p | 0 <= p < |items| && Fills(entries, items, p) < quota
      ensures Fills(entries, items, p + 1) <= quota
    {
      OneEntryPerLine(entries, items[p]);
    }
  }

  /** The line is for the entry. */
  predicate For(e: Entry, item: Item) {
    item.Item? && Takes(e, item.name)
  }

  /** The last of the first p lines that fills an entry; p if there is none. */
  function LastFor(e: Entry, items: seq<Item>, p: nat): (k: nat)
    requires p <= |items|
    ensures k <= p
  {
    if p == 0 then 0
    else if For(e, items[p - 1]) then p - 1
    else
      var k := LastFor(e, items, p - 1);
      if k == p - 1 then p else k
  }

  lemma {:induction false} LastForMeaning(e: Entry, items: seq<Item>, p: nat)
    requires p <= |items|
    ensures var k := LastFor(e, items, p);
      && (k < p ==> For(e, items[k]))
      && (forall j :: (if k < p then k + 1 else 0) <= j < p ==> !For(e, items[j]))
  {
    if p > 0 {
      LastForMeaning(e, items, p - 1);
    }
  }

  /** Later lines override earlier ones: an entry holds what the last line for it says. */
  lemma {:induction false} LastLineWins(entries: seq<Entry>, cells: seq<Cell>, items: seq<Item>, p: nat, i: nat)
    requires |cells| == |entries| && p <= |items| && i < |entries|
    ensures var after, k := FillLines(entries, cells, items, p)[i], LastFor(entries[i], items, p);
      if k == p then after == cells[i]
      else
        && For(entries[i], items[k])
        && after == Cell(Stored(entries[i].kind, items[k]), cells[i].isSet || entries[i].flagged)
  {
    if p > 0 {
      LastLineWins(entries, cells, items, p - 1, i);
    }
  }
}
