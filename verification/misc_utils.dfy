/**
 loc_util_trim_space and loc_util_split_string of gps/utils/loc_misc_utils.cpp,
 in place in a C string buffer.
 */
module MiscUtils {
  import opened Sequences
  import opened CStrings

  lemma FreePart(s: string, a: nat, b: nat, c: char)
    requires a <= b <= |s| && Free(s, c)
    ensures Free(s[a..b], c)
  {
    FreeEach(s, c);
    FreeEach(s[a..b], c);
  }

  lemma HeldPart(was: seq<char>, s: string, w: nat, i: nat)
    requires HoldsAt(was, 0, s) && w <= i <= |s|
    ensures was[w..i] == s[w..i] && NoNul(s[w..i])
    ensures if i < |s| then was[i] == s[i] != NUL else was[i] == NUL
  {
    FreeEach(s, NUL);
    FreePart(s, w, i, NUL);
    assert forall k :: 0 <= k < |s| ==> was[k] == was[0..0 + |s|][k];
  }

  // ---------- Trimming ----------

  /** isspace in the C locale. */
  predicate IsSpace(c: char) {
    c == ' ' || c == '\t' || c == '\n' || c == 11 as char || c == 12 as char || c == '\r'
  }

  /** The blank and the five control characters from tab to carriage return. */
  lemma SpaceMeaning(c: char)
    ensures IsSpace(c) <==> c == ' ' || 9 <= c as int <= 13
  {}

  /** Index of the first non-space among the first p characters; p if there is none. */
  function FirstTo(s: string, p: nat): (f: nat)
    requires p <= |s|
    ensures f <= p
  {
    if p == 0 then 0
    else
      var f := FirstTo(s, p - 1);
      if f < p - 1 then f else if IsSpace(s[p - 1]) then p else p - 1
  }

  /** Index just after the last non-space among the first p characters; 0 if there is none. */
  function EndTo(s: string, p: nat): (e: nat)
    requires p <= |s|
    ensures e <= p
  {
    if p == 0 || !IsSpace(s[p - 1]) then p else EndTo(s, p - 1)
  }

  lemma {:induction false} FirstMeaning(s: string, p: nat)
    requires p <= |s|
    ensures var f := FirstTo(s, p); f < p ==> !IsSpace(s[f]) && f < EndTo(s, p)
    ensures forall k :: 0 <= k < FirstTo(s, p) ==> IsSpace(s[k])
  {
    if p > 0 {
      FirstMeaning(s, p - 1);
    }
  }

  lemma {:induction false} EndMeaning(s: string, p: nat)
    requires p <= |s|
    ensures var e := EndTo(s, p); e > 0 ==> !IsSpace(s[e - 1])
    ensures forall k :: EndTo(s, p) <= k < p ==> IsSpace(s[k])
  {
    if p > 0 {
      EndMeaning(s, p - 1);
    }
  }

  /** The string without its leading and trailing spaces; a string of spaces is left as it is. */
  function AfterTrim(s: string): (t: string) {
    var f, e := FirstTo(s, |s|), EndTo(s, |s|);
    if f < e then s[f..e] else s
  }

  predicate Spaces(s: string) {
    forall i :: 0 <= i < |s| ==> IsSpace(s[i])
  }

  /** t is s without leading and trailing spaces, and a, b are what was there. */
  predicate Trims(s: string, a: string, t: string, b: string) {
    && s == a + t + b && Spaces(a) && Spaces(b)
    && t != "" && !IsSpace(t[0]) && !IsSpace(t[|t| - 1])
  }

  /** Trimming cuts off all leading and trailing spaces and nothing else, unless there is only space. */
  lemma TrimMeaning(s: string) returns (a: string, b: string)
    ensures if Spaces(s) then AfterTrim(s) == s else Trims(s, a, AfterTrim(s), b)
  {
    FirstMeaning(s, |s|);
    EndMeaning(s, |s|);
    var f, e := FirstTo(s, |s|), EndTo(s, |s|);
    if f < |s| {
      a, b := s[..f], s[e..];
      assert s == a + s[f..e] + b;
    } else {
      a, b := "", "";
    }
  }

  /** There is only one way to trim a string. */
  lemma TrimsOnce(s: string, a: string, t: string, b: string, a': string, t': string, b': string)
    requires Trims(s, a, t, b) && Trims(s, a', t', b')
    ensures a == a' && t == t' && b == b'
  {
    assert s[|a|] == t[0] && s[|a'|] == t'[0];
    assert forall i :: 0 <= i < |a| ==> s[i] == a[i];
    assert forall i :: 0 <= i < |a'| ==> s[i] == a'[i];
    assert |a| == |a'|;
    assert s[|s| - |b| - 1] == t[|t| - 1] && s[|s| - |b'| - 1] == t'[|t'| - 1];
    assert forall i :: 0 <= i < |b| ==> s[|s| - |b| + i] == b[i];
    assert forall i :: 0 <= i < |b'| ==> s[|s| - |b'| + i] == b'[i];
    assert |b| == |b'|;
    assert a == s[..|a|] && t == s[|a|..|s| - |b|] && b == s[|s| - |b|..];
    assert a' == s[..|a|] && t' == s[|a|..|s| - |b|] && b' == s[|s| - |b|..];
  }

  /** The buffer after the first p characters were looked at: what was kept is moved to the front. */
  ghost predicate Moved(was: seq<char>, now: seq<char>, p: nat, first: int, write: nat) {
    && |now| == |was| && p <= |was|
    && (if first < 0 then write == 0 else first + write == p && now[..write] == was[first..p])
    && now[write..] == was[write..]
  }

  /** What trimming leaves in the buffer. */
  ghost predicate TrimDone(was: seq<char>, now: seq<char>, s: string) {
    && |now| == |was| && HoldsAt(now, 0, AfterTrim(s))
    && (Spaces(s) ==> now == was)
    && |s| <= |was| && now[|s|..] == was[|s|..]
  }

  lemma RestKept(was: seq<char>, now: seq<char>, n: nat, i: nat, c: char)
    requires |now| == |was| && i < n <= |was|
    requires forall k :: n <= k < |now| ==> now[k] == was[k]
    ensures now[i := c][n..] == was[n..]
  {
  }

  lemma MovedHeld(was: seq<char>, now: seq<char>, s: string, first: nat, end: nat)
    requires HoldsAt(was, 0, s) && first < end <= |s|
    requires Moved(was, now, |s|, first, |s| - first)
    requires end - first == |s| ==> now[|s|] == NUL
    ensures HoldsAt(now[end - first := NUL], 0, s[first..end])
  {
    var t := s[first..end];
    HeldPart(was, s, first, end);
    assert was[first..end] == was[first..|s|][..|t|];
    assert now[|t| := NUL][0..0 + |t|] == now[..|s| - first][..|t|];
  }

  lemma WholeKept(was: seq<char>, now: seq<char>, s: string)
    requires HoldsAt(was, 0, s) && Moved(was, now, |s|, 0, |s|)
    ensures now[|s| := NUL] == was
  {
  }

  lemma TextTrimmed(was: seq<char>, now: seq<char>, s: string, first: nat, end: nat)
    requires HoldsAt(was, 0, s) && first < end <= |s|
    requires Moved(was, now, |s|, first, |s| - first)
    ensures HoldsAt(now[end - first := NUL], 0, s[first..end])
    ensures now[end - first := NUL][|s|..] == was[|s|..]
  {
    MovedHeld(was, now, s, first, end);
    if end - first < |s| {
      RestKept(was, now, |s|, end - first, NUL);
    } else {
      WholeKept(was, now, s);
    }
  }

  lemma SpacesKept(was: seq<char>, now: seq<char>, s: string, write: nat)
    requires HoldsAt(was, 0, s) && Moved(was, now, |s|, -1, write)
    ensures now == was
  {
  }

  /** The first p characters were looked at: where the text begins, and where it ends once moved. */
  ghost predicate Trimming(was: seq<char>, now: seq<char>, s: string, p: nat, first: int, last: int, to: int) {
    && 0 <= to <= p <= |s| < |was|
    && first == (if FirstTo(s, p) < p then FirstTo(s, p) else -1)
    && last == (if first < 0 then -1 else EndTo(s, p) - first)
    && (first >= 0 ==> first < EndTo(s, p))
    && Moved(was, now, p, first, to)
  }

  lemma MoreMoved(was: seq<char>, now: seq<char>, p: nat, first: nat, to: nat)
    requires first <= p < |was| == |now| && to == p - first
    requires now[..to] == was[first..p] && now[to..] == was[to..]
    ensures var now' := now[to := was[p]];
      now'[..to + 1] == was[first..p + 1] && now'[to + 1..] == was[to + 1..]
  {
    var now' := now[to := was[p]];
    assert now'[..to + 1] == now[..to] + [was[p]];
    assert was[first..p + 1] == was[first..p] + [was[p]];
    assert now'[to + 1..] == now[to..][1..] && was[to + 1..] == was[to..][1..];
  }

  lemma MovedStep(was: seq<char>, now: seq<char>, p: nat, first: int, to: nat)
    requires Moved(was, now, p, first, to) && p < |was|
    ensures now[p] == was[p]
    ensures first < 0 ==> Moved(was, now, p + 1, first, 0) && Moved(was, now[0 := was[p]], p + 1, p, 1)
    ensures first >= 0 ==> Moved(was, now[to := was[p]], p + 1, first, to + 1)
  {
    assert now[p] == now[to..][p - to] && was[p] == was[to..][p - to];
    MoreMoved(was, now, p, if first < 0 then p else first, to);
  }

  /** One more character: a space before the text is left out, everything else is moved. */
  lemma TrimmingReads(was: seq<char>, now: seq<char>, s: string, p: nat, first: int, last: int, to: int,
                      now': seq<char>, first': int, last': int, to': int)
    requires Trimming(was, now, s, p, first, last, to) && p < |s| && was[p] == s[p]
    requires first' == if !IsSpace(s[p]) && first == -1 then p else first
    requires if first' == -1 then now' == now && last' == last && to' == to
             else now' == now[to := s[p]] && to' == to + 1 && last' == if IsSpace(s[p]) then last else to + 1
    ensures Trimming(was, now', s, p + 1, first', last', to')
  {
    MovedStep(was, now, p, first, to);
  }

  /** What is not looked at yet is as it was. */
  lemma Unmoved(was: seq<char>, now: seq<char>, s: string, p: nat, first: int, last: int, to: int)
    requires HoldsAt(was, 0, s) && Trimming(was, now, s, p, first, last, to)
    ensures if p < |s| then now[p] == was[p] == s[p] != NUL else now[p] == NUL
  {
    HeldPart(was, s, p, p);
    MovedStep(was, now, p, first, to);
  }

  /** One turn of the loop of loc_util_trim_space. */
  method MoveOne(buf: array<char>, scan: nat, first: int, last: int, write: nat, ghost s: string, ghost was: seq<char>)
    returns (first': int, last': int, write': nat)
    requires HoldsAt(was, 0, s) && Trimming(was, buf[..], s, scan, first, last, write) && scan < |s|
    modifies buf
    ensures Trimming(was, buf[..], s, scan + 1, first', last', write')
  {
    ghost var now := buf[..];
    Unmoved(was, now, s, scan, first, last, write);
    first', last', write' := first, last, write;
    var c := buf[scan];
    if !IsSpace(c) && first == -1 {
      first' := scan;
    }
    if first' != -1 {
      buf[write] := c;
      write' := write + 1;
      if !IsSpace(c) {
        last' := write';
      }
    }
    TrimmingReads(was, now, s, scan, first, last, write, buf[..], first', last', write');
  }

  /** The loop of loc_util_trim_space: move everything from the first non-space on to the front. */
  method MoveUp(buf: array<char>, ghost s: string) returns (first: int, last: int, ghost to: int)
    requires HoldsAt(buf[..], 0, s)
    modifies buf
    ensures Trimming(old(buf[..]), buf[..], s, |s|, first, last, to)
  {
    ghost var was := buf[..];
    var scan, write := 0, 0;
    first, last := -1, -1;
    Unmoved(was, was, s, 0, -1, -1, 0);
    while buf[scan] != NUL
      invariant 0 <= scan <= |s| < buf.Length
      invariant Trimming(was, buf[..], s, scan, first, last, write)
      invariant if scan < |s| then buf[scan] != NUL else buf[scan] == NUL
      decreases |s| - scan
    {
      first, last, write := MoveOne(buf, scan, first, last, write, s, was);
      scan := scan + 1;
      Unmoved(was, buf[..], s, scan, first, last, write);
    }
    to := write;
  }

  lemma TrimmedHeld(was: seq<char>, now: seq<char>, s: string, first: int, last: int, to: int)
    requires HoldsAt(was, 0, s) && Trimming(was, now, s, |s|, first, last, to)
    ensures last == -1 <==> first == -1
    ensures TrimDone(was, if last == -1 then now else now[last := NUL], s)
  {
    FirstMeaning(s, |s|);
    if first < 0 {
      SpacesKept(was, now, s, to);
    } else {
      TextTrimmed(was, now, s, first, EndTo(s, |s|));
      assert !Spaces(s) by {
        assert !IsSpace(s[first]);
      }
    }
  }

  method TrimSpace(buf: array<char>, ghost s: string)
    requires HoldsAt(buf[..], 0, s)
    modifies buf
    ensures TrimDone(old(buf[..]), buf[..], s)
  {
    ghost var was := buf[..];
    var first, last, to := MoveUp(buf, s);
    ghost var now := buf[..];
    TrimmedHeld(was, now, s, first, last, to);
    if last != -1 {
      buf[last] := NUL;
      assert buf[..] == now[last := NUL];
    }
  }

  // ---------- Splitting ----------

  /** Index of the first d; the length if there is none. */
  function FirstOf(s: string, d: char): (i: nat)
    ensures i <= |s|
  {
    if s == "" || s[0] == d then 0 else 1 + FirstOf(s[1..], d)
  }

  /** The pieces of s between the delimiters. */
  function Split(s: string, d: char): (r: seq<string>)
    ensures r != []
    decreases |s|
  {
    var i := FirstOf(s, d);
    if i == |s| then [s] else [s[..i]] + Split(s[i + 1..], d)
  }

  function Join(pieces: seq<string>, d: char): string {
    if pieces == [] then "" else if |pieces| == 1 then pieces[0] else pieces[0] + [d] + Join(pieces[1..], d)
  }

  ghost predicate AllFree(pieces: seq<string>, d: char) {
    pieces == [] || (Free(pieces[0], d) && AllFree(pieces[1..], d))
  }

  lemma {:induction false} FirstOfMeaning(s: string, d: char)
    ensures var i := FirstOf(s, d); Free(s[..i], d) && (i < |s| ==> s[i] == d)
  {
    if s != "" && s[0] != d {
      FirstOfMeaning(s[1..], d);
      var i := FirstOf(s[1..], d);
      assert s[..i + 1][1..] == s[1..][..i];
    }
  }

  lemma {:induction false} FirstOfAt(piece: string, rest: string, d: char)
    requires Free(piece, d) && (rest == "" || rest[0] == d)
    ensures FirstOf(piece + rest, d) == |piece|
  {
    if piece == "" {
      assert piece + rest == rest;
    } else {
      FirstOfAt(piece[1..], rest, d);
      assert (piece + rest)[1..] == piece[1..] + rest;
    }
  }

  lemma CutAt(s: string, i: nat)
    requires i < |s|
    ensures s == s[..i] + [s[i]] + s[i + 1..]
  {
  }

  /** Joining the pieces gives the string back, and no piece holds a delimiter. */
  lemma {:induction false} JoinSplit(s: string, d: char)
    ensures Join(Split(s, d), d) == s && AllFree(Split(s, d), d)
    decreases |s|
  {
    FirstOfMeaning(s, d);
    var i := FirstOf(s, d);
    if i == |s| {
      assert s[..i] == s;
    } else {
      var rest := Split(s[i + 1..], d);
      JoinSplit(s[i + 1..], d);
      CutAt(s, i);
      assert ([s[..i]] + rest)[1..] == rest;
    }
  }

  /** Only the pieces of a string join to it. */
  lemma {:induction false} SplitJoin(pieces: seq<string>, d: char)
    requires pieces != [] && AllFree(pieces, d)
    ensures Split(Join(pieces, d), d) == pieces
    decreases |pieces|
  {
    var head, tail := pieces[0], pieces[1..];
    if tail == [] {
      FirstOfAt(head, "", d);
      assert head + "" == head;
      assert pieces == [head];
    } else {
      SplitJoin(tail, d);
      var rest := [d] + Join(tail, d);
      FirstOfAt(head, rest, d);
      assert Join(pieces, d) == head + rest;
      assert (head + rest)[..|head|] == head && (head + rest)[|head| + 1..] == Join(tail, d);
      assert pieces == [head] + tail;
    }
  }

  /** The room the pieces take, each with the character that ends it. */
  function Width(pieces: seq<string>): nat {
    if pieces == [] then 0 else Width(pieces[..|pieces| - 1]) + |pieces[|pieces| - 1]| + 1
  }

  /** The pieces stand one after the other in the buffer as C strings, and starts are their places. */
  ghost predicate Laid(buf: seq<char>, starts: seq<int>, pieces: seq<string>) {
    && |starts| == |pieces|
    && (pieces == [] ||
        var n := |pieces| - 1;
        && starts[n] == Width(pieces[..n])
        && HoldsAt(buf, Width(pieces[..n]), pieces[n])
        && Laid(buf, starts[..n], pieces[..n]))
  }

  lemma {:induction false} LaidKept(buf: seq<char>, starts: seq<int>, pieces: seq<string>, i: nat, c: char)
    requires Laid(buf, starts, pieces) && Width(pieces) <= i < |buf|
    ensures Laid(buf[i := c], starts, pieces)
    decreases |pieces|
  {
    if pieces != [] {
      var n := |pieces| - 1;
      LaidKept(buf, starts[..n], pieces[..n], i, c);
      var w := Width(pieces[..n]);
      assert buf[i := c][w..w + |pieces[n]|] == buf[w..w + |pieces[n]|];
    }
  }

  lemma LaidNext(buf: seq<char>, starts: seq<int>, pieces: seq<string>, piece: string)
    requires Laid(buf, starts, pieces)
    requires var w := Width(pieces); w + |piece| < |buf| && buf[w..w + |piece|] == piece
    requires NoNul(piece)
    ensures Laid(buf[Width(pieces) + |piece| := NUL], starts + [Width(pieces)], pieces + [piece])
    ensures Width(pieces + [piece]) == Width(pieces) + |piece| + 1
  {
    var w := Width(pieces);
    var now := buf[w + |piece| := NUL];
    LaidKept(buf, starts, pieces, w + |piece|, NUL);
    assert now[w..w + |piece|] == buf[w..w + |piece|];
    assert (pieces + [piece])[..|pieces|] == pieces && (starts + [w])[..|pieces|] == starts;
  }

  /** The piece from start on is the last. */
  lemma LastPiece(s: string, start: nat, d: char)
    requires start <= |s| && Free(s[start..], d)
    ensures Split(s[start..], d) == [s[start..]]
  {
    FirstOfAt(s[start..], "", d);
    assert s[start..] == s[start..] + "";
  }

  lemma RestParts(s: string, start: nat, i: nat)
    requires start <= i < |s|
    ensures s[start..] == s[start..i] + s[i..]
    ensures s[start..][..i - start] == s[start..i] && s[start..][i - start + 1..] == s[i + 1..]
  {
  }

  /** The piece from start on ends at i. */
  lemma PieceFound(s: string, start: nat, i: nat, d: char)
    requires start <= i < |s| && Free(s[start..i], d) && s[i] == d
    ensures Split(s[start..], d) == [s[start..i]] + Split(s[i + 1..], d)
  {
    RestParts(s, start, i);
    FirstOfAt(s[start..i], s[i..], d);
  }

  lemma FreeNext(s: string, start: nat, i: nat, d: char)
    requires start <= i < |s| && Free(s[start..i], d) && s[i] != d
    ensures Free(s[start..i + 1], d)
  {
    FreeConcat(s[start..i], [s[i]], d);
    assert s[start..i + 1] == s[start..i] + [s[i]];
  }

  /** Only delimiters were changed, into ends of strings. */
  ghost predicate OnlyCuts(was: seq<char>, now: seq<char>, d: char) {
    && |now| == |was|
    && forall k :: 0 <= k < |was| ==> now[k] == was[k] || (was[k] == d && now[k] == NUL)
  }

  /** The first pieces are done; the one being read has reached i and holds no delimiter so far. */
  ghost predicate Splitting(was: seq<char>, now: seq<char>, s: string, d: char,
                            starts: seq<int>, done: seq<string>, i: nat) {
    && OnlyCuts(was, now, d)
    && Laid(now, starts, done)
    && Width(done) <= i <= |s| < |was|
    && Free(s[Width(done)..i], d)
    && Split(s, d) == done + Split(s[Width(done)..], d)
    && now[Width(done)..] == was[Width(done)..]
  }

  lemma SplittingBegins(was: seq<char>, s: string, d: char)
    requires |s| < |was|
    ensures Splitting(was, was, s, d, [], [], 0)
  {
    assert s[0..] == s;
    assert [] + Split(s, d) == Split(s, d);
  }

  lemma SplittingReads(was: seq<char>, now: seq<char>, s: string, d: char,
                       starts: seq<int>, done: seq<string>, i: nat)
    requires Splitting(was, now, s, d, starts, done, i)
    requires i < |s| && s[i] != d
    ensures Splitting(was, now, s, d, starts, done, i + 1)
  {
    FreeNext(s, Width(done), i, d);
  }

  lemma UnreadKept(was: seq<char>, now: seq<char>, w: nat, i: nat)
    requires |now| == |was| && w <= i < |was| && now[w..] == was[w..]
    ensures now[i] == was[i] && now[w..i] == was[w..i]
    ensures now[i := NUL][i + 1..] == was[i + 1..]
  {
    assert now[i] == now[w..][i - w] && was[i] == was[w..][i - w];
    assert now[w..i] == now[w..][..i - w] && was[w..i] == was[w..][..i - w];
    assert now[i + 1..] == now[w..][i + 1 - w..] && was[i + 1..] == was[w..][i + 1 - w..];
  }

  lemma ReadAt(was: seq<char>, now: seq<char>, s: string, d: char, starts: seq<int>, done: seq<string>, i: nat)
    requires HoldsAt(was, 0, s) && Splitting(was, now, s, d, starts, done, i)
    ensures if i < |s| then now[i] == s[i] != NUL else now[i] == NUL
  {
    UnreadKept(was, now, Width(done), i);
    HeldPart(was, s, Width(done), i);
  }

  /** Where a piece ends: the pieces so far, and what is left of the string. */
  lemma PieceAdded(s: string, d: char, done: seq<string>, i: nat) returns (more: seq<string>)
    requires Width(done) <= i <= |s| && Free(s[Width(done)..i], d)
    requires Split(s, d) == done + Split(s[Width(done)..], d)
    requires i == |s| || s[i] == d
    ensures more == done + [s[Width(done)..i]] && Width(more) == i + 1
    ensures |more| <= |Split(s, d)| && Split(s, d)[..|more|] == more
    ensures if i == |s| then Split(s, d) == more
            else Split(s, d) == more + Split(s[i + 1..], d) && |Split(s, d)| > |more|
  {
    var w := Width(done);
    more := done + [s[w..i]];
    assert more[..|done|] == done;
    if i == |s| {
      assert s[w..] == s[w..i];
      LastPiece(s, w, d);
    } else {
      PieceFound(s, w, i, d);
      Assoc(done, [s[w..i]], Split(s[i + 1..], d));
    }
  }

  lemma CutLaid(was: seq<char>, now: seq<char>, s: string, d: char,
                starts: seq<int>, done: seq<string>, i: nat)
    requires HoldsAt(was, 0, s) && Splitting(was, now, s, d, starts, done, i)
    requires i == |s| || s[i] == d
    ensures OnlyCuts(was, now[i := NUL], d)
    ensures Laid(now[i := NUL], starts + [Width(done)], done + [s[Width(done)..i]])
  {
    var w := Width(done);
    UnreadKept(was, now, w, i);
    HeldPart(was, s, w, i);
    LaidNext(now, starts, done, s[w..i]);
  }

  /** One more piece, and the places of all pieces so far. */
  lemma SplittingCuts(was: seq<char>, now: seq<char>, s: string, d: char,
                      starts: seq<int>, done: seq<string>, i: nat) returns (more: seq<string>)
    requires HoldsAt(was, 0, s) && Splitting(was, now, s, d, starts, done, i)
    requires i == |s| || s[i] == d
    ensures more == done + [s[Width(done)..i]] && Width(more) == i + 1
    ensures |more| <= |Split(s, d)| && Split(s, d)[..|more|] == more
    ensures OnlyCuts(was, now[i := NUL], d)
    ensures Laid(now[i := NUL], starts + [Width(done)], more)
    ensures if i == |s| then Split(s, d) == more
            else Splitting(was, now[i := NUL], s, d, starts + [Width(done)], more, i + 1)
                 && |Split(s, d)| > |more|
  {
    CutLaid(was, now, s, d, starts, done, i);
    UnreadKept(was, now, Width(done), i);
    more := PieceAdded(s, d, done, i);
    if i < |s| {
      assert s[i + 1..i + 1] == "";
    }
  }

  /** The first pieces of s, at most so many, stand in the buffer at the places in starts. */
  ghost predicate SplitDone(was: seq<char>, now: seq<char>, s: string, d: char, starts: seq<int>, most: nat) {
    && OnlyCuts(was, now, d)
    && |starts| == (if |Split(s, d)| <= most then |Split(s, d)| else most)
    && Laid(now, starts, Split(s, d)[..|starts|])
  }

  /** The table of places: the starts so far, and what was there before. */
  ghost predicate Table(table: seq<int>, starts: seq<int>, places: seq<int>) {
    |starts| <= |places| && table == starts + places[|starts|..]
  }

  lemma TableAdds(table: seq<int>, starts: seq<int>, places: seq<int>, place: int)
    requires Table(table, starts, places) && |starts| < |places|
    ensures Table(table[|starts| := place], starts + [place], places)
  {
  }

  lemma TableParts(table: seq<int>, starts: seq<int>, places: seq<int>)
    requires Table(table, starts, places)
    ensures table[..|starts|] == starts && table[|starts|..] == places[|starts|..]
  {
  }

  method StrLen(buf: array<char>, ghost s: string) returns (n: nat)
    requires HoldsAt(buf[..], 0, s)
    ensures n == |s|
  {
    FreeEach(s, NUL);
    assert forall k :: 0 <= k < |s| ==> buf[k] == buf[..|s|][k];
    n := 0;
    while buf[n] != NUL
      invariant n <= |s|
      decreases |s| - n
    {
      n := n + 1;
    }
  }

  /** End the current piece at i. */
  method EndPiece(buf: array<char>, i: nat, d: char, ghost s: string, ghost most: nat, ghost was: seq<char>,
                  ghost starts: seq<int>, ghost done: seq<string>)
    returns (ghost now: seq<char>, ghost places: seq<int>, ghost more: seq<string>)
    requires HoldsAt(was, 0, s) && Splitting(was, buf[..], s, d, starts, done, i)
    requires i == |s| || s[i] == d
    modifies buf
    ensures buf[..] == now && places == starts + [Width(done)]
    ensures |places| == |more| == |done| + 1 && Width(more) == i + 1
    ensures i < |s| ==> Splitting(was, now, s, d, places, more, i + 1)
    ensures |more| == most || (i == |s| && |more| <= most) ==> SplitDone(was, now, s, d, places, most)
  {
    now, places := buf[..], starts + [Width(done)];
    more := SplittingCuts(was, now, s, d, starts, done, i);
    now := now[i := NUL];
    buf[i] := NUL;
  }

  /** End the current piece at i, and begin another unless the string or the limit is used up. */
  method NextPiece(buf: array<char>, ptrs: array<int>, i: nat, length: nat, max: int, before: nat, d: char,
                   ghost s: string, ghost most: nat, ghost was: seq<char>, ghost starts: seq<int>,
                   ghost done: seq<string>, ghost places: seq<int>)
    returns (go: bool, count: nat, ghost now: seq<char>, ghost found: seq<int>, ghost more: seq<string>)
    requires HoldsAt(was, 0, s) && Splitting(was, buf[..], s, d, starts, done, i)
    requires i == |s| || s[i] == d
    requires length == |s| + 1 && before == |starts| == |done| < most && max <= ptrs.Length
    requires most == if max < 1 then 1 else max
    requires Table(ptrs[..], starts + [Width(done)], places)
    modifies buf, ptrs
    ensures buf[..] == now && found == starts + [Width(done)] && count == |found| == |more| == before + 1
    ensures go ==> i < |s| && count < max && Splitting(was, now, s, d, found, more, i + 1)
                   && Table(ptrs[..], found + [Width(more)], places)
    ensures !go ==> SplitDone(was, now, s, d, found, most) && Table(ptrs[..], found, places)
  {
    ghost var table := ptrs[..];
    now, found, more := EndPiece(buf, i, d, s, most, was, starts, done);
    count := before + 1;
    go := i + 1 < length && count < max;
    if go {
      TableAdds(table, found, places, i + 1);
      ptrs[count] := i + 1;
    }
  }

  /** The loop of loc_util_split_string, once the first place is written. */
  method CutPieces(buf: array<char>, ptrs: array<int>, max: int, d: char, ghost s: string, ghost most: nat)
    returns (count: int, ghost starts: seq<int>)
    requires HoldsAt(buf[..], 0, s)
    requires 1 <= ptrs.Length && max <= ptrs.Length && ptrs[0] == 0
    requires most == if max < 1 then 1 else max
    modifies buf, ptrs
    ensures count == |starts| <= ptrs.Length && Table(ptrs[..], starts, old(ptrs[..]))
    ensures SplitDone(old(buf[..]), buf[..], s, d, starts, most)
  {
    ghost var was, now, places, done := buf[..], buf[..], ptrs[..], [];
    starts := [];
    count := 0;
    var length := StrLen(buf, s);
    length := length + 1;
    SplittingBegins(was, s, d);
    var i := 0;
    while i < length
      invariant 0 <= i < length == |s| + 1
      invariant count == |done| == |starts| < most && (count == 0 || count < max)
      invariant buf[..] == now
      invariant Table(ptrs[..], starts + [Width(done)], places)
      invariant Splitting(was, now, s, d, starts, done, i)
    {
      ReadAt(was, now, s, d, starts, done, i);
      var end := buf[i] == NUL;
      if buf[i] == d || end {
        var go;
        go, count, now, starts, done := NextPiece(buf, ptrs, i, length, max, count, d,
                                                  s, most, was, starts, done, places);
        if !go {
          break;
        }
      } else {
        SplittingReads(was, now, s, d, starts, done, i);
      }
      if end {
        break;
      }
      i := i + 1;
    }
  }

  /** loc_util_split_string; a limit below one acts as one. */
  method SplitString(buf: array<char>, ptrs: array<int>, max: int, d: char, ghost s: string) returns (count: int)
    requires HoldsAt(buf[..], 0, s)
    requires 1 <= ptrs.Length && max <= ptrs.Length
    modifies buf, ptrs
    ensures 0 <= count <= ptrs.Length && ptrs[count..] == old(ptrs[count..])
    ensures SplitDone(old(buf[..]), buf[..], s, d, ptrs[..count], if max < 1 then 1 else max)
  {
    ptrs[0] := 0;
    ghost var first, starts := ptrs[..], [];
    count, starts := CutPieces(buf, ptrs, max, d, s, if max < 1 then 1 else max);
    TableParts(ptrs[..], starts, first);
  }
}
