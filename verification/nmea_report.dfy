/**
 Everything loc_eng_nmea_generate_sv sends (gps/libloc_api_50001/loc_eng_nmea.cpp):
 both constellations and the blank position sentences. No formatting check ever fails,
 and every sentence is whole and carries its checksum.
 */
module NmeaReport {
  import opened CStrings
  import opened NmeaChecksum
  import opened NmeaGsv

  const INT_MAX := 0x7FFF_FFFF

  // ---------- How long texts get ----------

  function Pow10(d: nat): nat {
    if d == 0 then 1 else 10 * Pow10(d - 1)
  }

  lemma {:induction false} DecimalWidth(n: nat, d: nat)
    requires d >= 1 && n < Pow10(d)
    ensures |Decimal(n)| <= d
  {
    if n >= 10 {
      DecimalWidth(n / 10, d - 1);
    }
  }

  /** A field of the C type int. */
  predicate IsInt(n: int) {
    -INT_MAX - 1 <= n <= INT_MAX
  }

  lemma TenDigits(n: nat)
    ensures n <= INT_MAX + 1 ==> |Decimal(n)| <= 10
    ensures n <= 0x2000_0000 ==> |Decimal(n)| <= 9
  {
    assert Pow10(3) == 1000;
    assert Pow10(6) == 1000000;
    assert Pow10(9) == 1000000000;
    if n <= 0x2000_0000 {
      DecimalWidth(n, 9);
    } else if n <= INT_MAX + 1 {
      DecimalWidth(n, 10);
    }
  }

  lemma PaddedWidth(n: int, w: nat)
    requires IsInt(n) && w <= 3
    ensures |Padded(n, w)| <= 11 && (n >= 0 ==> |Padded(n, w)| <= 10)
  {
    var d := Decimal(if n >= 0 then n else -n);
    TenDigits(if n >= 0 then n else -n);
    ZerosText(w - |d|, NUL);
    ZerosText(w - 1 - |d|, NUL);
  }

  /** The fields of a satellite as the code prints them are of type int. */
  predicate IntFields(sv: RawSv) {
    IsInt(sv.prn) && IsInt(sv.elevation) && IsInt(sv.azimuth) && IsInt(sv.snr)
  }

  /** Fields that print in their nominal widths. */
  predicate FieldsInRange(sv: RawSv) {
    && 0 <= sv.prn < 100 && 0 <= sv.elevation < 100 && 0 <= sv.azimuth < 1000
    && (sv.hasSnr ==> 0 <= sv.snr < 100)
  }

  /** At most 39 characters for a satellite of a constellation, and 13 when its fields are in range. */
  function ItemWidth(inRange: bool): nat {
    if inRange then 13 else 39
  }

  ghost predicate ShortItem(sv: Sv, inRange: bool) {
    |Item(sv)| <= ItemWidth(inRange) && Free(Item(sv), '*')
  }

  lemma ItemShort(sv: RawSv, inRange: bool)
    requires if inRange then FieldsInRange(sv) else IntFields(sv) && 0 <= sv.prn < 100
    ensures ShortItem(Print(sv), inRange)
  {
    PlaceText(sv, '*');
    PaddedText(sv.prn, 2, '*');
    PaddedText(sv.snr, 2, '*');
    FreeConcat(Place(sv), Print(sv).strength, '*');
    if !inRange {
      PaddedWidth(sv.elevation, 2);
      PaddedWidth(sv.azimuth, 3);
      PaddedWidth(sv.snr, 2);
    }
  }

  /** In range every field has its nominal width: two digits each, three for the azimuth. */
  lemma ItemWidths(sv: RawSv)
    requires FieldsInRange(sv)
    ensures |Padded(sv.prn, 2)| == |Padded(sv.elevation, 2)| == 2 && |Padded(sv.azimuth, 3)| == 3
    ensures |Item(Print(sv))| == if sv.hasSnr then 13 else 11
  {
    PaddedText(sv.prn, 2, '*');
    PaddedText(sv.elevation, 2, '*');
    PaddedText(sv.azimuth, 3, '*');
    PaddedText(sv.snr, 2, '*');
    PlaceText(sv, '*');
  }

  lemma {:induction false} SelectedFrom(svs: seq<Sv>, p: nat, lo: int, hi: int, inRange: bool)
    requires p <= |svs| && forall i :: 0 <= i < |svs| && InRange(svs[i], lo, hi) ==> ShortItem(svs[i], inRange)
    ensures var sel := SelectTo(svs, p, lo, hi);
      |sel| <= p && forall i :: 0 <= i < |sel| ==> ShortItem(sel[i], inRange)
  {
    if p > 0 {
      SelectedFrom(svs, p - 1, lo, hi, inRange);
    }
  }

  lemma {:induction false} JoinShort(share: seq<Sv>, n: nat, inRange: bool)
    requires n <= |share| && forall i :: 0 <= i < |share| ==> ShortItem(share[i], inRange)
    ensures |Join(Items(share), n)| <= (if inRange then 13 * n else 39 * n) && Free(Join(Items(share), n), '*')
  {
    if n > 0 {
      JoinShort(share, n - 1, inRange);
      ItemsAt(share, n - 1);
      FreeConcat(Join(Items(share), n - 1), Items(share)[n - 1], '*');
    }
  }

  lemma HeaderWidth(talker: string, total: nat, number: nat, count: nat)
    requires |talker| == 2 && number <= total <= 0x2000_0000 && count <= INT_MAX
    ensures |Header(talker, total, number, count)| <= 37
  {
    TenDigits(total);
    TenDigits(number);
    PaddedWidth(count, 2);
  }

  lemma ShareAtMostFour(sel: seq<Sv>, number: nat)
    requires 1 <= number <= Total(|sel|)
    ensures |Share(sel, number)| <= 4 && Total(|sel|) <= |sel| / 4 + 1
  {
    TotalBounds(|sel|);
  }

  /** A body leaves room for its checksum, and has at most 65 characters when all fields are in range. */
  lemma BodyShort(talker: string, sel: seq<Sv>, number: nat, inRange: bool)
    requires |talker| == 2 && Free(talker, '*')
    requires |sel| <= (if inRange then 36 else INT_MAX)
    requires forall i :: 0 <= i < |sel| ==> ShortItem(sel[i], inRange)
    requires 1 <= number <= Total(|sel|)
    ensures var body := Body(talker, sel, number);
      |body| <= (if inRange then 65 else 193) && body[0] == '$' && Free(body, '*')
  {
    var share, total := Share(sel, number), Total(|sel|);
    ShareAtMostFour(sel, number);
    HeaderText(talker, total, number, |sel|, '*');
    HeaderWidth(talker, total, number, |sel|);
    JoinShort(share, |share|, inRange);
    FreeConcat(Header(talker, total, number, |sel|), Join(Items(share), |share|), '*');
    assert Header(talker, total, number, |sel|)[0] == '$';
  }

  /** Whole, with the right checksum, and sent with a length that does not count the dollar sign. */
  predicate Proper(s: Sent) {
    Accepts(s.text) && s.length == |s.text| - 1
  }

  /** A body that leaves room for its checksum is sent whole, and a verifier accepts it. */
  lemma FinishedAccepted(body: string)
    requires 1 <= |body| <= 194 && body[0] == '$' && Free(body, '*')
    ensures var s := Finish(body);
      Proper(s) && |s.text| == |body| + 5 && s.text[..|body|] == body && FirstStar(s.text) == |body|
  {
    FreeEach(body, '*');
    assert body == "$" + body[1..];
    ChecksumRoundTrip(body[1..], NMEA_SENTENCE_MAX_LENGTH);
    var s := Finish(body);
    assert s.text == body + Trailer(body[1..]);
    FirstStarIs(s.text, |body|);
  }

  /** The satellites of a constellation, given what the modem's list holds. */
  lemma ItemsShort(raw: seq<RawSv>, lo: int, hi: int, inRange: bool)
    requires 0 <= lo && hi < 100
    requires forall i :: 0 <= i < |raw| ==> if inRange then FieldsInRange(raw[i]) else IntFields(raw[i])
    ensures var sel := Select(PrintAll(raw), lo, hi);
      |sel| <= |raw| && forall i :: 0 <= i < |sel| ==> ShortItem(sel[i], inRange)
  {
    var svs := PrintAll(raw);
    forall i | 0 <= i < |svs| && InRange(svs[i], lo, hi) ensures ShortItem(svs[i], inRange) {
      ItemShort(raw[i], inRange);
    }
    SelectedFrom(svs, |svs|, lo, hi, inRange);
  }

  lemma ConstellationFits(talker: string, raw: seq<RawSv>, lo: int, hi: int, number: nat)
    requires |talker| == 2 && Free(talker, '*') && 0 <= lo && hi < 100
    requires forall i :: 0 <= i < |raw| ==> FieldsInRange(raw[i])
    requires var sel := Select(PrintAll(raw), lo, hi); |sel| <= 36 && 1 <= number <= Total(|sel|)
    ensures var s := Finish(Body(talker, Select(PrintAll(raw), lo, hi), number));
      Proper(s) && |s.text| <= 82
  {
    ItemsShort(raw, lo, hi, true);
    BodyShort(talker, Select(PrintAll(raw), lo, hi), number, true);
    FinishedAccepted(Body(talker, Select(PrintAll(raw), lo, hi), number));
  }

  /** Whatever the fields hold, every body of a constellation leaves room for its checksum. */
  lemma BodyAlwaysFits(talker: string, raw: seq<RawSv>, lo: int, hi: int, number: nat)
    requires |talker| == 2 && Free(talker, '*') && 0 <= lo && hi < 100
    requires |raw| <= INT_MAX && forall i :: 0 <= i < |raw| ==> IntFields(raw[i])
    requires 1 <= number <= Total(|Select(PrintAll(raw), lo, hi)|)
    ensures var body := Body(talker, Select(PrintAll(raw), lo, hi), number);
      |body| <= 193 && body[0] == '$' && Free(body, '*')
  {
    ItemsShort(raw, lo, hi, false);
    BodyShort(talker, Select(PrintAll(raw), lo, hi), number, false);
  }

  // ---------- The whole report ----------

  const BLANK_GSA := "$GPGSA," + "A,1,,,," + ",,,,,,," + ",,,,"
  const BLANK_VTG := "$GPVTG," + ",T,,M,," + "N,,K,N"
  const BLANK_RMC := "$GPRMC," + ",V,,,,," + ",,,,,N"
  const BLANK_GGA := "$GPGGA," + ",,,,,0," + ",,,,,,,"

  function Constellation(talker: string, sel: seq<Sv>): seq<Sent> {
    if sel == [] then [Finish(Blank(talker))] else Sentences(talker, sel, Total(|sel|))
  }

  /** What is sent when no satellite is used, and so no position report will follow. */
  function NoPosition(): seq<Sent> {
    [Finish(BLANK_GSA), Finish(BLANK_VTG), Finish(BLANK_RMC), Finish(BLANK_GGA)]
  }

  /** Everything loc_eng_nmea_generate_sv sends. */
  function Report(svs: seq<Sv>, usedMask: bv32): seq<Sent> {
    Constellation("GP", Select(svs, 1, 32)) + Constellation("GL", Select(svs, 65, 96))
      + (if usedMask == 0 then NoPosition() else [])
  }

  /** Every sentence of the report, before its checksum, leaves room for the terminating NUL. */
  ghost predicate AllFit(svs: seq<Sv>) {
    var gps, gln := Select(svs, 1, 32), Select(svs, 65, 96);
    && (forall k :: 1 <= k <= Total(|gps|) ==> |Body("GP", gps, k)| < NMEA_SENTENCE_MAX_LENGTH)
    && (forall k :: 1 <= k <= Total(|gln|) ==> |Body("GL", gln, k)| < NMEA_SENTENCE_MAX_LENGTH)
  }

  /**
   No formatting check fails, for no list of satellites that an int can count and whatever
   their fields hold: the error returns of the sentence loops are never taken.
   */
  lemma AlwaysFits(raw: seq<RawSv>)
    requires |raw| <= INT_MAX && forall i :: 0 <= i < |raw| ==> IntFields(raw[i])
    ensures AllFit(PrintAll(raw))
  {
    TalkerText();
    var gps, gln := Select(PrintAll(raw), 1, 32), Select(PrintAll(raw), 65, 96);
    forall k | 1 <= k <= Total(|gps|) ensures |Body("GP", gps, k)| < NMEA_SENTENCE_MAX_LENGTH {
      BodyAlwaysFits("GP", raw, 1, 32, k);
    }
    forall k | 1 <= k <= Total(|gln|) ensures |Body("GL", gln, k)| < NMEA_SENTENCE_MAX_LENGTH {
      BodyAlwaysFits("GL", raw, 65, 96, k);
    }
  }

  /** The sentences of both constellations; nothing more after one that does not fit. */
  method GenerateBoth(sentence: array<char>, svs: seq<Sv>) returns (sent: seq<Sent>, ok: bool)
    requires sentence.Length == NMEA_SENTENCE_MAX_LENGTH && Printable(svs)
    modifies sentence
    ensures AllFit(svs) ==>
      ok && sent == Constellation("GP", Select(svs, 1, 32)) + Constellation("GL", Select(svs, 65, 96))
  {
    TalkerText();
    var gpsCount, glnCount := CountSvs(svs);
    sent, ok := GenerateGsv(sentence, "GP", gpsCount, svs, 1, 32);
    if ok {
      var part;
      part, ok := GenerateGsv(sentence, "GL", glnCount, svs, 65, 96);
      sent := sent + part;
    }
  }

  /** loc_eng_nmea_generate_sv: what is sent, and the mask kept for the position report. */
  method GenerateSv(raw: seq<RawSv>, usedMask: bv32, oldMask: bv32) returns (sent: seq<Sent>, svUsedMask: bv32)
    requires |raw| <= INT_MAX && forall i :: 0 <= i < |raw| ==> IntFields(raw[i])
    ensures sent == Report(PrintAll(raw), usedMask)
    ensures svUsedMask == if usedMask == 0 then oldMask else usedMask
  {
    PrintedIsPrintable(raw);
    svUsedMask := oldMask;
    var sentence := new char[NMEA_SENTENCE_MAX_LENGTH];
    var ok;
    sent, ok := GenerateBoth(sentence, PrintAll(raw));
    if ok {
      if usedMask == 0 {
        var fixed := SendNoPosition(sentence);
        sent := sent + fixed;
      } else {
        svUsedMask := usedMask;
      }
    }
    AlwaysFits(raw);
  }

  method SendNoPosition(buf: array<char>) returns (sent: seq<Sent>)
    requires buf.Length == NMEA_SENTENCE_MAX_LENGTH
    modifies buf
    ensures sent == NoPosition()
  {
    GsaText(NUL);
    VtgText(NUL);
    RmcText(NUL);
    GgaText(NUL);
    var gsa := SendFixed(buf, BLANK_GSA);
    var vtg := SendFixed(buf, BLANK_VTG);
    var rmc := SendFixed(buf, BLANK_RMC);
    var gga := SendFixed(buf, BLANK_GGA);
    sent := [gsa, vtg, rmc, gga];
  }

  lemma GsaText(c: char)
    requires c == NUL || c == '*'
    ensures Free(BLANK_GSA, c)
  {
    FreeEach("$GPGSA,", c);
    FreeEach("A,1,,,,", c);
    FreeConcat("$GPGSA,", "A,1,,,,", c);
    FreeEach(",,,,,,,", c);
    FreeConcat("$GPGSA," + "A,1,,,,", ",,,,,,,", c);
    FreeEach(",,,,", c);
    FreeConcat("$GPGSA," + "A,1,,,," + ",,,,,,,", ",,,,", c);
  }

  lemma VtgText(c: char)
    requires c == NUL || c == '*'
    ensures Free(BLANK_VTG, c)
  {
    FreeEach("$GPVTG,", c);
    FreeEach(",T,,M,,", c);
    FreeConcat("$GPVTG,", ",T,,M,,", c);
    FreeEach("N,,K,N", c);
    FreeConcat("$GPVTG," + ",T,,M,,", "N,,K,N", c);
  }

  lemma RmcText(c: char)
    requires c == NUL || c == '*'
    ensures Free(BLANK_RMC, c)
  {
    FreeEach("$GPRMC,", c);
    FreeEach(",V,,,,,", c);
    FreeConcat("$GPRMC,", ",V,,,,,", c);
    FreeEach(",,,,,N", c);
    FreeConcat("$GPRMC," + ",V,,,,,", ",,,,,N", c);
  }

  lemma GgaText(c: char)
    requires c == NUL || c == '*'
    ensures Free(BLANK_GGA, c)
  {
    FreeEach("$GPGGA,", c);
    FreeEach(",,,,,0,", c);
    FreeConcat("$GPGGA,", ",,,,,0,", c);
    FreeEach(",,,,,,,", c);
    FreeConcat("$GPGGA," + ",,,,,0,", ",,,,,,,", c);
  }

  lemma PrintedIsPrintable(raw: seq<RawSv>)
    ensures Printable(PrintAll(raw))
  {
    forall i | 0 <= i < |raw| ensures NoNul(PrintAll(raw)[i].place) && NoNul(PrintAll(raw)[i].strength) {
      PlaceText(raw[i], NUL);
      PaddedText(raw[i].snr, 2, NUL);
    }
  }

  lemma TalkerText()
    ensures NoNul("GP") && NoNul("GL") && Free("GP", '*') && Free("GL", '*')
  {
    FreeEach("GP", NUL);
    FreeEach("GL", NUL);
    FreeEach("GP", '*');
    FreeEach("GL", '*');
  }

  // ---------- Every sentence is proper ----------

  lemma BlankProper(talker: string)
    requires |talker| == 2 && Free(talker, '*')
    ensures Proper(Finish(Blank(talker))) && |Finish(Blank(talker)).text| <= 82
    ensures Free(Blank(talker), '*') && |Blank(talker)| == 13 && Blank(talker)[0] == '$'
  {
    FreeEach(talker, '*');
    FreeEach(Blank(talker), '*');
    FinishedAccepted(Blank(talker));
  }

  lemma FixedProper(text: string)
    requires 1 <= |text| <= 77 && text[0] == '$' && Free(text, '*')
    ensures Proper(Finish(text)) && |Finish(text).text| <= 82
  {
    FinishedAccepted(text);
  }

  lemma NoPositionBegins()
    ensures BLANK_GSA[0] == '$' && BLANK_VTG[0] == '$' && BLANK_RMC[0] == '$' && BLANK_GGA[0] == '$'
    ensures |BLANK_GSA| == 25 && |BLANK_VTG| == 20 && |BLANK_RMC| == 20 && |BLANK_GGA| == 21
  {
  }

  lemma NoPositionProper()
    ensures forall i :: 0 <= i < 4 ==> Proper(NoPosition()[i]) && |NoPosition()[i].text| <= 82
  {
    GsaText('*');
    VtgText('*');
    RmcText('*');
    GgaText('*');
    NoPositionBegins();
    FixedProper(BLANK_GSA);
    FixedProper(BLANK_VTG);
    FixedProper(BLANK_RMC);
    FixedProper(BLANK_GGA);
  }

  predicate AllProper(sent: seq<Sent>) {
    forall i :: 0 <= i < |sent| ==> Proper(sent[i])
  }

  /** Section 5.3 of NMEA 0183 allows a sentence at most 82 characters. */
  predicate AllShort(sent: seq<Sent>) {
    forall i :: 0 <= i < |sent| ==> |sent[i].text| <= 82
  }

  lemma ConstellationProper(talker: string, raw: seq<RawSv>, lo: int, hi: int)
    requires |talker| == 2 && Free(talker, '*') && 0 <= lo && hi < 100
    requires |raw| <= INT_MAX && forall i :: 0 <= i < |raw| ==> IntFields(raw[i])
    ensures AllProper(Constellation(talker, Select(PrintAll(raw), lo, hi)))
  {
    var sel := Select(PrintAll(raw), lo, hi);
    BlankProper(talker);
    forall k | 1 <= k <= Total(|sel|) ensures Proper(Finish(Body(talker, sel, k))) {
      BodyAlwaysFits(talker, raw, lo, hi, k);
      FinishedAccepted(Body(talker, sel, k));
    }
    TotalBounds(|sel|);
  }

  /** Every sentence of every report is whole and accepted, and its length is one less than its text's. */
  lemma ReportProper(raw: seq<RawSv>, usedMask: bv32)
    requires |raw| <= INT_MAX && forall i :: 0 <= i < |raw| ==> IntFields(raw[i])
    ensures AllProper(Report(PrintAll(raw), usedMask))
  {
    TalkerText();
    ConstellationProper("GP", raw, 1, 32);
    ConstellationProper("GL", raw, 65, 96);
    NoPositionProper();
  }

  lemma ConstellationShort(talker: string, raw: seq<RawSv>, lo: int, hi: int)
    requires |talker| == 2 && Free(talker, '*') && 0 <= lo && hi < 100
    requires forall i :: 0 <= i < |raw| ==> FieldsInRange(raw[i])
    requires |Select(PrintAll(raw), lo, hi)| <= 36
    ensures AllShort(Constellation(talker, Select(PrintAll(raw), lo, hi)))
  {
    var sel := Select(PrintAll(raw), lo, hi);
    BlankProper(talker);
    forall k | 1 <= k <= Total(|sel|) ensures |Finish(Body(talker, sel, k)).text| <= 82 {
      ConstellationFits(talker, raw, lo, hi, k);
    }
    TotalBounds(|sel|);
  }

  /**
   With fields in range and at most 36 satellites of each constellation, which makes the sentence
   counts one digit long, every sentence of the report has at most 82 characters.
   */
  lemma InRangeFits(raw: seq<RawSv>, usedMask: bv32)
    requires forall i :: 0 <= i < |raw| ==> FieldsInRange(raw[i])
    requires |Select(PrintAll(raw), 1, 32)| <= 36 && |Select(PrintAll(raw), 65, 96)| <= 36
    ensures AllShort(Report(PrintAll(raw), usedMask))
  {
    TalkerText();
    ConstellationShort("GP", raw, 1, 32);
    ConstellationShort("GL", raw, 65, 96);
    NoPositionProper();
  }
}
