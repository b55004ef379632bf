/**
 The satellites-in-view sentences of loc_eng_nmea_generate_sv
 (gps/libloc_api_50001/loc_eng_nmea.cpp): which satellites go into which
 sentence, and the loops that write the sentences into one buffer.
 */
module NmeaGsv {
  import opened Sequences
  import opened CStrings
  import opened NmeaChecksum

  const NMEA_SENTENCE_MAX_LENGTH := 200

  /** A satellite, with its float fields already rounded; hasSnr is the test snr > 0. */
  datatype RawSv = RawSv(prn: int, elevation: int, azimuth: int, snr: int, hasSnr: bool)

  /** A satellite with what is printed for it: ",prn,elevation,azimuth," and the signal strength, if any. */
  datatype Sv = Sv(prn: int, place: string, strength: string)

  // ---------- Formatting ----------

  /** "%d" of a non-negative number. */
  function Decimal(n: nat): string {
    (if n < 10 then "" else Decimal(n / 10)) + [HexDigit(n % 10)]
  }

  function Zeros(n: int): string {
    if n <= 0 then "" else "0" + Zeros(n - 1)
  }

  /** "%0wd" */
  function Padded(n: int, w: nat): string {
    if n >= 0 then Zeros(w - |Decimal(n)|) + Decimal(n)
    else "-" + Zeros(w - 1 - |Decimal(-n)|) + Decimal(-n)
  }

  lemma {:induction false} DecimalText(n: nat, c: char)
    requires c == NUL || c == '*' || c == ','
    ensures Free(Decimal(n), c) && |Decimal(n)| >= 1
    ensures n < 10 ==> |Decimal(n)| == 1
    ensures n < 100 ==> |Decimal(n)| <= 2
    ensures n < 1000 ==> |Decimal(n)| <= 3
  {
    var last := [HexDigit(n % 10)];
    assert Free(last, c);
    if n >= 10 {
      DecimalText(n / 10, c);
      FreeConcat(Decimal(n / 10), last, c);
    } else {
      assert Decimal(n) == last;
    }
  }

  lemma {:induction false} ZerosText(n: int, c: char)
    requires c == NUL || c == '*' || c == ','
    ensures Free(Zeros(n), c) && |Zeros(n)| == if n > 0 then n else 0
  {
    if n > 0 {
      ZerosText(n - 1, c);
      FreeConcat("0", Zeros(n - 1), c);
    }
  }

  lemma PaddedText(n: int, w: nat, c: char)
    requires c == NUL || c == '*' || c == ','
    ensures Free(Padded(n, w), c)
    ensures w == 2 && 0 <= n < 100 ==> |Padded(n, w)| == 2
    ensures w == 3 && 0 <= n < 1000 ==> |Padded(n, w)| == 3
  {
    var d := Decimal(if n >= 0 then n else -n);
    DecimalText(if n >= 0 then n else -n, c);
    ZerosText(w - |d|, c);
    ZerosText(w - 1 - |d|, c);
    FreeConcat(Zeros(w - |d|), d, c);
    FreeConcat("-" + Zeros(w - 1 - |d|), d, c);
    FreeConcat("-", Zeros(w - 1 - |d|), c);
  }

  /** A negative number is a minus sign and its amount in what is left of the width. */
  lemma PaddedNegative(n: int, w: nat)
    requires n > 0 && w > 0
    ensures Padded(-n, w) == "-" + Padded(n, w - 1)
  {}

  lemma PlaceText(sv: RawSv, c: char)
    requires c == NUL || c == '*'
    ensures Free(Place(sv), c)
    ensures 0 <= sv.prn < 100 && 0 <= sv.elevation < 100 && 0 <= sv.azimuth < 1000 ==> |Place(sv)| == 11
  {
    PaddedText(sv.prn, 2, c);
    PaddedText(sv.elevation, 2, c);
    PaddedText(sv.azimuth, 3, c);
    var t1 := "," + Padded(sv.prn, 2);
    FreeConcat(",", Padded(sv.prn, 2), c);
    FreeConcat(t1, ",", c);
    FreeConcat(t1 + ",", Padded(sv.elevation, 2), c);
    var t2 := t1 + "," + Padded(sv.elevation, 2);
    FreeConcat(t2, ",", c);
    FreeConcat(t2 + ",", Padded(sv.azimuth, 3), c);
    FreeConcat(t2 + "," + Padded(sv.azimuth, 3), ",", c);
  }

  lemma HeaderText(talker: string, total: nat, number: nat, count: nat, c: char)
    requires (c == NUL || c == '*') && Free(talker, c)
    ensures Free(Header(talker, total, number, count), c)
    ensures total < 10 && number < 10 && count < 100 ==> |Header(talker, total, number, count)| == 11 + |talker|
  {
    DecimalText(total, c);
    DecimalText(number, c);
    PaddedText(count, 2, c);
    FreeEach("GSV,", c);
    FreeConcat("$", talker, c);
    FreeConcat("$" + talker, "GSV,", c);
    var t1 := "$" + talker + "GSV,";
    FreeConcat(t1, Decimal(total), c);
    FreeConcat(t1 + Decimal(total), ",", c);
    var t2 := t1 + Decimal(total) + ",";
    FreeConcat(t2, Decimal(number), c);
    FreeConcat(t2 + Decimal(number), ",", c);
    FreeConcat(t2 + Decimal(number) + ",", Padded(count, 2), c);
  }

  function Header(talker: string, total: nat, number: nat, count: nat): string {
    "$" + talker + "GSV," + Decimal(total) + "," + Decimal(number) + "," + Padded(count, 2)
  }

  function Place(sv: RawSv): string {
    "," + Padded(sv.prn, 2) + "," + Padded(sv.elevation, 2) + "," + Padded(sv.azimuth, 3) + ","
  }

  function Print(sv: RawSv): Sv {
    Sv(sv.prn, Place(sv), if sv.hasSnr then Padded(sv.snr, 2) else "")
  }

  function PrintAll(svs: seq<RawSv>): (r: seq<Sv>)
    ensures |r| == |svs|
  {
    seq(|svs|, i requires 0 <= i < |svs| => Print(svs[i]))
  }

  ghost predicate Printable(svs: seq<Sv>) {
    forall i :: 0 <= i < |svs| ==> NoNul(svs[i].place) && NoNul(svs[i].strength)
  }

  /** What one satellite adds to a sentence. */
  function Item(sv: Sv): string {
    sv.place + sv.strength
  }

  function Items(svs: seq<Sv>): (items: seq<string>)
    ensures |items| == |svs|
  {
    if svs == [] then [] else [Item(svs[0])] + Items(svs[1..])
  }

  lemma {:induction false} ItemsAt(svs: seq<Sv>, i: nat)
    requires i < |svs|
    ensures Items(svs)[i] == Item(svs[i])
  {
    if i > 0 {
      ItemsAt(svs[1..], i - 1);
    }
  }

  /** The first n texts, one after the other. */
  function Join(texts: seq<string>, n: nat): string
    requires n <= |texts|
  {
    if n == 0 then "" else Join(texts, n - 1) + texts[n - 1]
  }

  // ---------- Which satellites go where ----------

  predicate InRange(sv: Sv, lo: int, hi: int) {
    lo <= sv.prn <= hi
  }

  /** The satellites of one constellation among the first p, in input order. */
  function SelectTo(svs: seq<Sv>, p: nat, lo: int, hi: int): seq<Sv>
    requires p <= |svs|
  {
    if p == 0 then []
    else SelectTo(svs, p - 1, lo, hi) + if InRange(svs[p - 1], lo, hi) then [svs[p - 1]] else []
  }

  function Select(svs: seq<Sv>, lo: int, hi: int): seq<Sv> {
    SelectTo(svs, |svs|, lo, hi)
  }

  function Total(n: nat): nat {
    n / 4 + (if n % 4 != 0 then 1 else 0)
  }

  function Smaller(a: nat, b: nat): nat {
    if a < b then a else b
  }

  /** The satellites of the sentence with the given number, counted from 1. */
  function Share(sel: seq<Sv>, number: nat): seq<Sv>
    requires 1 <= number <= Total(|sel|)
  {
    sel[4 * (number - 1)..Smaller(4 * number, |sel|)]
  }

  function Body(talker: string, sel: seq<Sv>, number: nat): string
    requires 1 <= number <= Total(|sel|)
  {
    Header(talker, Total(|sel|), number, |sel|) + Join(Items(Share(sel, number)), |Share(sel, number)|)
  }

  /** A sentence as loc_eng_nmea_send gets it: the text in the buffer, and the length passed with it. */
  datatype Sent = Sent(text: string, length: int)

  function Finish(body: string): Sent
    requires body != ""
  {
    Sent(Cut(body + Trailer(body[1..]), NMEA_SENTENCE_MAX_LENGTH), |body| - 1 + 5)
  }

  function Sentences(talker: string, sel: seq<Sv>, upTo: nat): (r: seq<Sent>)
    requires upTo <= Total(|sel|)
    ensures |r| == upTo
  {
    seq(upTo, k requires 0 <= k < upTo => Finish(Body(talker, sel, k + 1)))
  }

  /** The first bodies, before their checksums, leave room for the terminating NUL. */
  predicate FirstFit(talker: string, sel: seq<Sv>, n: nat)
    requires n <= Total(|sel|)
  {
    n == 0 || (FirstFit(talker, sel, n - 1) && |Body(talker, sel, n)| < NMEA_SENTENCE_MAX_LENGTH)
  }

  lemma SentencesNext(talker: string, sel: seq<Sv>, n: nat)
    requires n < Total(|sel|)
    ensures Sentences(talker, sel, n + 1) == Sentences(talker, sel, n) + [Finish(Body(talker, sel, n + 1))]
  {
    var next := Sentences(talker, sel, n + 1);
    assert next[..n] == Sentences(talker, sel, n);
    assert next == next[..n] + [next[n]];
  }

  function Blank(talker: string): string {
    "$" + talker + "GSV,1,1,0,"
  }

  lemma PrefixCount(svs: seq<Sv>, p: nat, sv: Sv)
    requires p < |svs|
    ensures multiset(svs[..p + 1])[sv] == multiset(svs[..p])[sv] + if svs[p] == sv then 1 else 0
  {
    TakeOneMore(svs, p);
    CountOneMore(svs[..p], svs[p], sv);
  }

  lemma SelectedCount(svs: seq<Sv>, p: nat, lo: int, hi: int, sv: Sv)
    requires p < |svs|
    ensures multiset(SelectTo(svs, p + 1, lo, hi))[sv] ==
      multiset(SelectTo(svs, p, lo, hi))[sv] + if svs[p] == sv && InRange(sv, lo, hi) then 1 else 0
  {
    CountOneMore(SelectTo(svs, p, lo, hi), svs[p], sv);
  }

  lemma SelectCountsNext(svs: seq<Sv>, q: nat, lo: int, hi: int, sv: Sv)
    requires q < |svs|
    requires multiset(SelectTo(svs, q, lo, hi))[sv] == if InRange(sv, lo, hi) then multiset(svs[..q])[sv] else 0
    ensures multiset(SelectTo(svs, q + 1, lo, hi))[sv] ==
      if InRange(sv, lo, hi) then multiset(svs[..q + 1])[sv] else 0
  {
    PrefixCount(svs, q, sv);
    SelectedCount(svs, q, lo, hi, sv);
  }

  /** The satellites selected are those in range, as often as the list holds them. */
  lemma {:induction false} SelectCounts(svs: seq<Sv>, p: nat, lo: int, hi: int, sv: Sv)
    requires p <= |svs|
    ensures multiset(SelectTo(svs, p, lo, hi))[sv] == if InRange(sv, lo, hi) then multiset(svs[..p])[sv] else 0
  {
    if p == 0 {
      assert svs[..p] == [];
    } else {
      var q := p - 1;
      SelectCounts(svs, q, lo, hi, sv);
      SelectCountsNext(svs, q, lo, hi, sv);
    }
  }

  lemma CountOneMore(svs: seq<Sv>, last: Sv, sv: Sv)
    ensures multiset(svs + [last])[sv] == multiset(svs)[sv] + if last == sv then 1 else 0
  {}

  lemma TakeOneMore(svs: seq<Sv>, p: nat)
    requires p < |svs|
    ensures svs[..p + 1] == svs[..p] + [svs[p]]
  {}

  lemma TotalBounds(n: nat)
    ensures 4 * Total(n) - 3 <= n <= 4 * Total(n) || n == Total(n) == 0
  {}

  lemma {:induction false} SharesCover(sel: seq<Sv>, upTo: nat)
    requires upTo <= Total(|sel|)
    ensures Flatten(seq(upTo, k requires 0 <= k < upTo => Share(sel, k + 1))) == sel[..Smaller(4 * upTo, |sel|)]
    decreases upTo
  {
    if upTo > 0 {
      TotalBounds(|sel|);
      SharesCover(sel, upTo - 1);
      var parts := seq(upTo, k requires 0 <= k < upTo => Share(sel, k + 1));
      assert parts[..upTo - 1] == seq(upTo - 1, k requires 0 <= k < upTo - 1 => Share(sel, k + 1));
    }
  }

  /**
   The sentences of a constellation share out its satellites: all of them, once,
   in input order, in ceil(n/4) sentences of four except a last one of one to four.
   */
  lemma GsvPartition(svs: seq<Sv>, lo: int, hi: int)
    ensures var sel := Select(svs, lo, hi);
      var t := Total(|sel|);
      && t == (|sel| + 3) / 4
      && Flatten(seq(t, k requires 0 <= k < t => Share(sel, k + 1))) == sel
      && (forall k :: 1 <= k < t ==> |Share(sel, k)| == 4)
      && (t > 0 ==> 1 <= |Share(sel, t)| <= 4)
  {
    var sel := Select(svs, lo, hi);
    TotalBounds(|sel|);
    SharesCover(sel, Total(|sel|));
  }

  // ---------- The loops ----------

  /** One snprintf at pMarker, the check of its result, and the advance of pMarker. */
  method Append(buf: array<char>, marker: nat, ghost soFar: string, text: string) returns (next: nat, ok: bool)
    requires buf.Length == NMEA_SENTENCE_MAX_LENGTH && marker == |soFar| < buf.Length
    requires buf[..marker] == soFar && NoNul(soFar) && NoNul(text)
    modifies buf
    ensures ok <==> marker + |text| < NMEA_SENTENCE_MAX_LENGTH
    ensures ok ==> next == marker + |text| && HoldsAt(buf[..], 0, soFar + text)
  {
    var lengthRemaining := buf.Length - marker;
    var length := Snprintf(buf, marker, lengthRemaining, text);
    ok := 0 <= length < lengthRemaining;
    next := marker;
    if ok {
      next := marker + length;
      assert Cut(text, lengthRemaining) == text;
      JoinHeld(buf[..], soFar, text);
    }
  }

  /** The satellites selected so far are the first of those selected in the end. */
  lemma {:induction false} SelectPrefix(svs: seq<Sv>, p: nat, lo: int, hi: int)
    requires p <= |svs|
    ensures SelectTo(svs, p, lo, hi) <= Select(svs, lo, hi)
    decreases |svs| - p
  {
    if p < |svs| {
      SelectPrefix(svs, p + 1, lo, hi);
    }
  }

  /** One satellite's part of a sentence, in its two steps. */
  method AppendSv(buf: array<char>, marker: nat, ghost soFar: string, sv: Sv) returns (next: nat, ok: bool)
    requires buf.Length == NMEA_SENTENCE_MAX_LENGTH && marker == |soFar| && HoldsAt(buf[..], 0, soFar)
    requires NoNul(sv.place) && NoNul(sv.strength)
    modifies buf
    ensures ok <==> |soFar + Item(sv)| < NMEA_SENTENCE_MAX_LENGTH
    ensures ok ==> next == |soFar + Item(sv)| && HoldsAt(buf[..], 0, soFar + Item(sv))
  {
    next, ok := Append(buf, marker, soFar, sv.place);
    Assoc(soFar, sv.place, sv.strength);
    if ok && sv.strength != "" {
      next, ok := Append(buf, next, soFar + sv.place, sv.strength);
    } else if ok {
      assert soFar + sv.place + "" == soFar + sv.place;
    }
  }

  lemma {:induction false} JoinGrows(texts: seq<string>, k: nat, n: nat)
    requires k <= n <= |texts|
    ensures |Join(texts, k)| <= |Join(texts, n)|
    decreases n
  {
    if k < n {
      JoinGrows(texts, k, n - 1);
    }
  }

  /** A satellite in range that comes up next is the next of the selected ones. */
  lemma NextSelected(svs: seq<Sv>, p: nat, lo: int, hi: int)
    requires p < |svs| && InRange(svs[p], lo, hi)
    ensures var c := |SelectTo(svs, p, lo, hi)|;
      c < |Select(svs, lo, hi)| && Select(svs, lo, hi)[c] == svs[p]
  {
    SelectPrefix(svs, p + 1, lo, hi);
  }

  /** The buffer holds the header and the first i items of the sentence. */
  ghost predicate Filled(buf: seq<char>, marker: nat, header: string, items: seq<string>, i: nat) {
    i <= |items| && marker == |header + Join(items, i)| && HoldsAt(buf, 0, header + Join(items, i))
  }

  /** One satellite more in the sentence, or the sentence is too long. */
  method TakeSv(buf: array<char>, marker: nat, ghost header: string, ghost items: seq<string>, ghost i: nat, sv: Sv)
    returns (next: nat, ok: bool)
    requires buf.Length == NMEA_SENTENCE_MAX_LENGTH
    requires Filled(buf[..], marker, header, items, i) && i < |items| && items[i] == Item(sv)
    requires NoNul(sv.place) && NoNul(sv.strength)
    modifies buf
    ensures ok ==> Filled(buf[..], next, header, items, i + 1)
    ensures !ok ==> |header + Join(items, |items|)| >= NMEA_SENTENCE_MAX_LENGTH
  {
    Assoc(header, Join(items, i), items[i]);
    JoinGrows(items, i + 1, |items|);
    next, ok := AppendSv(buf, marker, header + Join(items, i), sv);
  }

  /** Where the selection stands before sentence number, with i satellites of it taken. */
  ghost predicate At(svs: seq<Sv>, p: nat, lo: int, hi: int, number: nat, i: nat) {
    p <= |svs| && number >= 1 && |SelectTo(svs, p, lo, hi)| == 4 * (number - 1) + i
  }

  lemma TakeStep(svs: seq<Sv>, p: nat, lo: int, hi: int, number: nat, i: nat)
    requires 1 <= number <= Total(|Select(svs, lo, hi)|)
    requires At(svs, p, lo, hi, number, i) && i < 4 && p < |svs| && InRange(svs[p], lo, hi)
    ensures At(svs, p + 1, lo, hi, number, i + 1)
    ensures var items := Items(Share(Select(svs, lo, hi), number));
      i < |items| && items[i] == Item(svs[p])
  {
    NextSelected(svs, p, lo, hi);
    ItemsAt(Share(Select(svs, lo, hi), number), i);
  }

  lemma StopStep(svs: seq<Sv>, p: nat, lo: int, hi: int, number: nat, i: nat)
    requires 1 <= number <= Total(|Select(svs, lo, hi)|)
    requires At(svs, p, lo, hi, number, i) && i <= 4 && (i == 4 || p == |svs|)
    ensures i == |Share(Select(svs, lo, hi), number)|
    ensures number < Total(|Select(svs, lo, hi)|) ==> At(svs, p, lo, hi, number + 1, 0)
  {
    SelectPrefix(svs, p, lo, hi);
  }

  /** The for loop that puts up to four satellites, from position start on, after the header. */
  method FillSentence(buf: array<char>, headerLength: nat, ghost header: string, ghost number: nat, ghost items: seq<string>,
                      svs: seq<Sv>, start: nat, lo: int, hi: int) returns (p: nat, ok: bool)
    requires buf.Length == NMEA_SENTENCE_MAX_LENGTH && Filled(buf[..], headerLength, header, items, 0)
    requires 1 <= number <= Total(|Select(svs, lo, hi)|) && items == Items(Share(Select(svs, lo, hi), number))
    requires At(svs, start, lo, hi, number, 0) && Printable(svs)
    modifies buf
    ensures ok <==> |header + Join(items, |items|)| < NMEA_SENTENCE_MAX_LENGTH
    ensures ok ==> HoldsAt(buf[..], 0, header + Join(items, |items|))
    ensures ok && number < Total(|Select(svs, lo, hi)|) ==> At(svs, p, lo, hi, number + 1, 0)
  {
    p, ok := start, true;
    var marker, i := headerLength, 0;
    while p < |svs| && i < 4
      invariant ok && 0 <= i <= 4 && At(svs, p, lo, hi, number, i)
      invariant Filled(buf[..], marker, header, items, i)
    {
      if InRange(svs[p], lo, hi) {
        TakeStep(svs, p, lo, hi, number, i);
        marker, ok := TakeSv(buf, marker, header, items, i, svs[p]);
        if !ok {
          return;
        }
        i := i + 1;
      }
      p := p + 1;
    }
    StopStep(svs, p, lo, hi, number, i);
  }

  /** loc_eng_nmea_put_checksum, and what loc_eng_nmea_send is then given. */
  method Send(buf: array<char>, ghost body: string) returns (s: Sent)
    requires buf.Length == NMEA_SENTENCE_MAX_LENGTH && body != "" && HoldsAt(buf[..], 0, body)
    modifies buf
    ensures s == Finish(body)
  {
    var length := PutChecksum(buf, buf.Length, body);
    var strlen := if length + 1 < buf.Length then length + 1 else buf.Length - 1;
    s := Sent(buf[..strlen], length);
  }

  /** strlcpy of a fixed sentence, its checksum, and its sending. */
  method SendFixed(buf: array<char>, text: string) returns (s: Sent)
    requires buf.Length == NMEA_SENTENCE_MAX_LENGTH && 0 < |text| < buf.Length && NoNul(text)
    modifies buf
    ensures s == Finish(text)
  {
    var n := Snprintf(buf, 0, buf.Length, text);
    s := Send(buf, text);
  }

  lemma CountNext(svs: seq<Sv>, i: nat, lo: int, hi: int)
    requires i < |svs|
    ensures |SelectTo(svs, i + 1, lo, hi)| == |SelectTo(svs, i, lo, hi)| + if InRange(svs[i], lo, hi) then 1 else 0
  {
  }

  /** The counting loop of loc_eng_nmea_generate_sv. */
  method CountSvs(svs: seq<Sv>) returns (gpsCount: nat, glnCount: nat)
    ensures gpsCount == |Select(svs, 1, 32)| && glnCount == |Select(svs, 65, 96)|
  {
    gpsCount, glnCount := 0, 0;
    for i := 0 to |svs|
      invariant gpsCount == |SelectTo(svs, i, 1, 32)| && glnCount == |SelectTo(svs, i, 65, 96)|
    {
      CountNext(svs, i, 1, 32);
      CountNext(svs, i, 65, 96);
      if InRange(svs[i], 1, 32) {
        gpsCount := gpsCount + 1;
      } else if InRange(svs[i], 65, 96) {
        glnCount := glnCount + 1;
      }
    }
  }

  /** The sentences of one constellation; ok is false when a formatting check fails and the function returns. */
  method GenerateGsv(buf: array<char>, talker: string, count: nat, svs: seq<Sv>, lo: int, hi: int)
    returns (sent: seq<Sent>, ok: bool)
    requires buf.Length == NMEA_SENTENCE_MAX_LENGTH && NoNul(talker) && |talker| == 2 && Printable(svs)
    requires count == |Select(svs, lo, hi)|
    modifies buf
    ensures count == 0 ==> ok && sent == [Finish(Blank(talker))]
    ensures count > 0 ==>
      var sel := Select(svs, lo, hi);
      && |sent| <= Total(count) && sent == Sentences(talker, sel, |sent|)
      && (ok <==> |sent| == Total(count))
      && FirstFit(talker, sel, |sent|)
      && (!ok ==> |Body(talker, sel, |sent| + 1)| >= NMEA_SENTENCE_MAX_LENGTH)
  {
    sent, ok := [], true;
    if count == 0 {
      BlankText(talker);
      var s := SendFixed(buf, Blank(talker));
      return [s], true;
    }
    ghost var sel := Select(svs, lo, hi);
    var total := Total(count);
    var number, p := 1, 0;
    while number <= total
      invariant ok && 1 <= number <= total + 1 && |sent| == number - 1
      invariant number <= total ==> At(svs, p, lo, hi, number, 0)
      invariant sent == Sentences(talker, sel, number - 1)
      invariant FirstFit(talker, sel, number - 1)
    {
      var s;
      s, p, ok := GenerateOne(buf, talker, number, total, count, svs, p, lo, hi);
      if !ok {
        return;
      }
      SentencesNext(talker, sel, number - 1);
      sent := sent + [s];
      number := number + 1;
    }
  }

  /** One turn of the while loop over the sentences. */
  method GenerateOne(buf: array<char>, talker: string, number: nat, total: nat, count: nat,
                     svs: seq<Sv>, start: nat, lo: int, hi: int) returns (s: Sent, p: nat, ok: bool)
    requires buf.Length == NMEA_SENTENCE_MAX_LENGTH && NoNul(talker) && Printable(svs)
    requires count == |Select(svs, lo, hi)| && total == Total(count) && 1 <= number <= total
    requires At(svs, start, lo, hi, number, 0)
    modifies buf
    ensures ok <==> |Body(talker, Select(svs, lo, hi), number)| < NMEA_SENTENCE_MAX_LENGTH
    ensures ok ==> s == Finish(Body(talker, Select(svs, lo, hi), number))
    ensures ok && number < total ==> At(svs, p, lo, hi, number + 1, 0)
  {
    s, p := Sent("", 0), start;
    var header := Header(talker, total, number, count);
    ghost var items := Items(Share(Select(svs, lo, hi), number));
    HeaderText(talker, total, number, count, NUL);
    var marker;
    marker, ok := Append(buf, 0, "", header);
    assert "" + header == header + Join(items, 0);
    if ok {
      p, ok := FillSentence(buf, marker, header, number, items, svs, start, lo, hi);
      if ok {
        s := Send(buf, header + Join(items, |items|));
      }
    }
  }

  lemma BlankText(talker: string)
    requires NoNul(talker)
    ensures NoNul(Blank(talker))
  {
    FreeEach(talker, NUL);
    FreeEach(Blank(talker), NUL);
  }
}
