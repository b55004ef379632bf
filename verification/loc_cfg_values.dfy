/**
 What the lines of a configuration (gps/utils/loc_cfg.cpp) leave in the entries of the table:
 the value each type of entry takes from a line, and the validity flags after a file is read.
 */
module LocCfgValues {
  import opened CStrings
  import opened MiscUtils
  import opened LocCfg
  import opened LocCfgQuota
  import opened LocCfgUpdate

  // ---------- What a line says ----------

  /** A hexadecimal value: the prefix and at least one character more. */
  predicate Hexadecimal(v: string) {
    |v| > 2 && (v[..2] == "0x" || v[..2] == "0X")
  }

  lemma FirstField(value: string, tail: string)
    requires value != "" && Free(value, '=') && (tail == "" || tail[0] == '=')
    ensures NextToken(value + tail, '=').Token? && NextToken(value + tail, '=').text == value
  {
    var s := value + tail;
    if tail == "" {
      assert s == value;
      FirstOfMeaning(s, '=');
    } else {
      FirstOfAt(value, tail, '=');
    }
    FreeEach(value, '=');
    NextAtText(s, '=');
    assert s[..|value|] == value;
  }

  lemma LineMade(line: string, name: string, rest: string, value: string, lib: Numbers)
    requires NextToken(line, '=') == Token(name, rest)
    requires NextToken(rest, '=').Token? && NextToken(rest, '=').text == value
    ensures ReadItem(line, lib) == MakeItem(AfterTrim(name), AfterTrim(value), lib)
  {
  }

  lemma ItemMade(name: string, v: string, lib: Numbers)
    ensures MakeItem(name, v, lib) ==
      if Hexadecimal(v) then Item(name, v, lib.hex(v[2..]), 0.0) else Item(name, v, lib.dec(v), lib.float(v))
  {
  }

  /** A name, an equals sign and a value, up to the next equals sign if there is one, both trimmed. */
  lemma LineItem(name: string, value: string, tail: string, lib: Numbers)
    requires name != "" && Free(name, '=') && value != "" && Free(value, '=') && (tail == "" || tail[0] == '=')
    ensures var v := AfterTrim(value);
      ReadItem(name + ("=" + (value + tail)), lib) ==
        if Hexadecimal(v) then Item(AfterTrim(name), v, lib.hex(v[2..]), 0.0)
        else Item(AfterTrim(name), v, lib.dec(v), lib.float(v))
  {
    TokensRead(name, value + tail);
    FirstField(value, tail);
    LineMade(name + ("=" + (value + tail)), name, value + tail, value, lib);
    ItemMade(AfterTrim(name), AfterTrim(value), lib);
  }

  /** A line without an equals sign says nothing. */
  lemma NoEqualsNoItem(line: string, lib: Numbers)
    requires Free(line, '=')
    ensures ReadItem(line, lib) == NoItem
  {
    FreeEach(line, '=');
    if line != "" {
      FirstField(line, "");
      assert line + "" == line;
      NextAtText(line, '=');
    }
  }

  // ---------- What an entry takes from it ----------

  /** Whether an entry takes a value: its name is the line's, it has a place for it, and its type is known. */
  lemma EntryTakes(e: Entry, c: Cell, item: Item)
    requires item.Item?
    ensures var d := SetCell(e, c, item);
      if e.name == item.name && e.bound && (e.kind == 'n' || e.kind == 'f' || e.kind == 's') then
        && d.isSet == (c.isSet || e.flagged)
        && (e.kind == 'n' ==> d.value == Number(item.number))
        && (e.kind == 'f' ==> d.value == Float(item.float))
        && (e.kind == 's' ==> d.value.Text? && d.value.text == if item.text == "NULL" then "" else Limited(item.text))
      else d == c
  {
  }

  /** The longest beginning of at most 80 characters. */
  function Limited(text: string): (t: string)
    ensures t <= text && |t| <= 80 && (t == text || |t| == 80)
  {
    if |text| <= 80 then text else text[..80]
  }

  /** The value that the line leaves in an entry with its name, by the type of the entry. */
  lemma LineStores(e: Entry, c: Cell, name: string, value: string, tail: string, lib: Numbers)
    requires name != "" && Free(name, '=') && value != "" && Free(value, '=') && (tail == "" || tail[0] == '=')
    requires e.name == AfterTrim(name) && e.bound
    ensures var v := AfterTrim(value);
      var d := SetCell(e, c, ReadItem(name + ("=" + (value + tail)), lib));
      && (e.kind == 'n' ==> d == Cell(Number(if Hexadecimal(v) then lib.hex(v[2..]) else lib.dec(v)), c.isSet || e.flagged))
      && (e.kind == 'f' ==> d == Cell(Float(if Hexadecimal(v) then 0.0 else lib.float(v)), c.isSet || e.flagged))
      && (e.kind == 's' ==> d == Cell(Text(if v == "NULL" then "" else Limited(v)), c.isSet || e.flagged))
  {
    LineItem(name, value, tail, lib);
    EntryTakes(e, c, ReadItem(name + ("=" + (value + tail)), lib));
  }

  // ---------- What a file leaves ----------

  /** Clearing the flags keeps every value and every entry without a flag. */
  lemma ClearedMeaning(entries: seq<Entry>, cells: seq<Cell>, i: nat)
    requires |cells| == |entries| && i < |entries|
    ensures var d := Cleared(entries, cells)[i];
      d.value == cells[i].value && d.isSet == (cells[i].isSet && !entries[i].flagged)
  {
  }

  /** After a file is read a flag is set exactly when one of the lines used was for its entry. */
  lemma SetIffAssigned(entries: seq<Entry>, cells: seq<Cell>, items: seq<Item>, i: nat)
    requires |cells| == |entries| && i < |entries| && entries[i].flagged
    ensures var used := ReadUsed(entries, items);
      FillLines(entries, Cleared(entries, cells), items, used)[i].isSet <==> SomeFor(entries[i], items, used)
  {
    var used := ReadUsed(entries, items);
    ClearedMeaning(entries, cells, i);
    LastLineWins(entries, Cleared(entries, cells), items, used, i);
    LastForMeaning(entries[i], items, used);
  }

  /**
   While no subtraction wraps, loc_read_conf_r applies every assignment of its file if and only if they
   are not more than the table has entries: one more than loc_update_conf does.
   */
  lemma EveryLineReadIff(entries: seq<Entry>, items: seq<Item>)
    requires |entries| < UINT32 && Exact(entries, items, 0, |entries|)
    ensures var all := Fills(entries, items, |items|);
      Fills(entries, items, ReadUsed(entries, items)) == all <==> all <= |entries|
  {
    ExactFillsUsedIff(entries, items, |entries|);
  }
}
