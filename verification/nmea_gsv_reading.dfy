/**
 What a receiver reads from the sentences that are sent: it takes the text before the
 checksum, splits it at the commas, and takes four fields for a satellite.
 */
module NmeaGsvReading {
  import opened Sequences
  import opened CStrings
  import opened NmeaChecksum
  import opened NmeaGsv
  import opened NmeaReport
  import Fields = MiscUtils

  // ---------- Numbers ----------

  function Value(digits: string): int {
    if digits == "" then 0
    else 10 * Value(digits[..|digits| - 1]) + (digits[|digits| - 1] as int - '0' as int)
  }

  lemma ValueNext(digits: string, last: char)
    ensures Value(digits + [last]) == 10 * Value(digits) + (last as int - '0' as int)
  {
    assert (digits + [last])[..|digits|] == digits;
  }

  lemma {:induction false} DecimalReads(n: nat)
    ensures Value(Decimal(n)) == n
  {
    if n < 10 {
      ValueNext("", HexDigit(n));
      assert "" + [HexDigit(n)] == Decimal(n);
    } else {
      DecimalReads(n / 10);
      ValueNext(Decimal(n / 10), HexDigit(n % 10));
    }
  }

  lemma {:induction false} ZerosEnd(k: nat)
    ensures Zeros(k + 1) == Zeros(k) + "0"
  {
    if k > 0 {
      ZerosEnd(k - 1);
    }
  }

  lemma {:induction false} ZerosRead(k: nat, digits: string)
    ensures Value(Zeros(k) + digits) == Value(digits)
    decreases |digits|, k
  {
    if digits != "" {
      var n := |digits| - 1;
      ZerosRead(k, digits[..n]);
      assert Zeros(k) + digits == (Zeros(k) + digits[..n]) + [digits[n]];
      ValueNext(Zeros(k) + digits[..n], digits[n]);
    } else if k > 0 {
      ZerosRead(k - 1, "");
      ZerosEnd(k - 1);
      ValueNext(Zeros(k - 1), '0');
      assert Zeros(k) + "" == Zeros(k - 1) + ['0'] && Zeros(k - 1) + "" == Zeros(k - 1);
    } else {
      assert Zeros(k) + "" == "";
    }
  }

  lemma PaddedReads(n: nat, w: nat)
    ensures Value(Padded(n, w)) == n && Padded(n, w) != ""
  {
    DecimalReads(n);
    DecimalText(n, ',');
    if w > |Decimal(n)| {
      ZerosRead(w - |Decimal(n)|, Decimal(n));
    } else {
      assert "" + Decimal(n) == Decimal(n);
    }
  }

  // ---------- Fields ----------

  function SvFields(sv: RawSv): (f: seq<string>)
    ensures |f| == 4
  {
    [Padded(sv.prn, 2), Padded(sv.elevation, 2), Padded(sv.azimuth, 3), if sv.hasSnr then Padded(sv.snr, 2) else ""]
  }

  /** The fields of the first n satellites. */
  function AllFields(svs: seq<RawSv>, n: nat): (f: seq<string>)
    requires n <= |svs|
    ensures |f| == 4 * n
  {
    if n == 0 then [] else AllFields(svs, n - 1) + SvFields(svs[n - 1])
  }

  function HeaderFields(talker: string, total: nat, number: nat, count: nat): seq<string> {
    ["$" + talker + "GSV", Decimal(total), Decimal(number), Padded(count, 2)]
  }

  function WithCommas(fields: seq<string>): string {
    if fields == [] then "" else "," + fields[0] + WithCommas(fields[1..])
  }

  lemma {:induction false} CommasConcat(a: seq<string>, b: seq<string>)
    ensures WithCommas(a + b) == WithCommas(a) + WithCommas(b)
    decreases |a|
  {
    if a == [] {
      assert a + b == b;
    } else {
      CommasConcat(a[1..], b);
      assert (a + b)[1..] == a[1..] + b;
      Assoc("," + a[0], WithCommas(a[1..]), WithCommas(b));
    }
  }

  lemma {:induction false} JoinCommas(first: string, rest: seq<string>)
    ensures Fields.Join([first] + rest, ',') == first + WithCommas(rest)
    decreases |rest|
  {
    if rest == [] {
      assert [first] + rest == [first] && first + "" == first;
    } else {
      JoinCommas(rest[0], rest[1..]);
      assert [rest[0]] + rest[1..] == rest && ([first] + rest)[1..] == rest;
      Assoc(first, [','], rest[0] + WithCommas(rest[1..]));
      Assoc([','], rest[0], WithCommas(rest[1..]));
    }
  }

  lemma Regroup(a: string, b: string, c: string, d: string)
    ensures a + "," + b + "," + c + "," + d == a + ("," + b + ("," + c + ("," + d)))
  {
  }

  lemma ThreeCommas(b: string, c: string, d: string)
    ensures WithCommas([b, c, d]) == "," + b + ("," + c + ("," + d))
  {
    assert [b, c, d][1..] == [c, d] && [c, d][1..] == [d];
    assert WithCommas([d]) == "," + d;
    assert WithCommas([c, d]) == "," + c + ("," + d);
  }

  lemma FourCommas(a: string, b: string, c: string, d: string)
    ensures WithCommas([a, b, c, d]) == "," + a + "," + b + "," + c + "," + d
  {
    assert [a, b, c, d][1..] == [b, c, d];
    ThreeCommas(b, c, d);
    Regroup("," + a, b, c, d);
  }

  lemma ItemCommas(sv: RawSv)
    ensures Item(Print(sv)) == WithCommas(SvFields(sv))
  {
    var f := SvFields(sv);
    FourCommas(f[0], f[1], f[2], f[3]);
  }

  lemma {:induction false} ItemsCommas(svs: seq<RawSv>, n: nat)
    requires n <= |svs|
    ensures Join(Items(PrintAll(svs)), n) == WithCommas(AllFields(svs, n))
  {
    if n > 0 {
      ItemsCommas(svs, n - 1);
      ItemsAt(PrintAll(svs), n - 1);
      ItemCommas(svs[n - 1]);
      CommasConcat(AllFields(svs, n - 1), SvFields(svs[n - 1]));
    }
  }

  lemma TalkerComma(talker: string)
    ensures "$" + talker + "GSV," == "$" + talker + "GSV" + ","
  {
  }

  lemma HeaderCommas(talker: string, total: nat, number: nat, count: nat)
    ensures var f := HeaderFields(talker, total, number, count);
      Header(talker, total, number, count) == f[0] + WithCommas(f[1..])
  {
    var f := HeaderFields(talker, total, number, count);
    assert f[1..] == [f[1], f[2], f[3]];
    ThreeCommas(f[1], f[2], f[3]);
    Regroup(f[0], f[1], f[2], f[3]);
    TalkerComma(talker);
  }

  // ---------- No field holds a comma ----------

  lemma {:induction false} AllFreeConcat(a: seq<string>, b: seq<string>)
    requires Fields.AllFree(a, ',') && Fields.AllFree(b, ',')
    ensures Fields.AllFree(a + b, ',')
    decreases |a|
  {
    if a == [] {
      assert a + b == b;
    } else {
      AllFreeConcat(a[1..], b);
      assert (a + b)[1..] == a[1..] + b;
    }
  }

  lemma FourFree(a: string, b: string, c: string, d: string)
    requires Free(a, ',') && Free(b, ',') && Free(c, ',') && Free(d, ',')
    ensures Fields.AllFree([a, b, c, d], ',')
  {
    assert [a, b, c, d][1..] == [b, c, d] && [b, c, d][1..] == [c, d] && [c, d][1..] == [d] && [d][1..] == [];
    assert Fields.AllFree([d], ',');
    assert Fields.AllFree([c, d], ',');
    assert Fields.AllFree([b, c, d], ',');
  }

  lemma {:induction false} FieldsFree(svs: seq<RawSv>, n: nat)
    requires n <= |svs|
    ensures Fields.AllFree(AllFields(svs, n), ',')
  {
    if n > 0 {
      FieldsFree(svs, n - 1);
      var sv := svs[n - 1];
      PaddedText(sv.prn, 2, ',');
      PaddedText(sv.elevation, 2, ',');
      PaddedText(sv.azimuth, 3, ',');
      PaddedText(sv.snr, 2, ',');
      var f := SvFields(sv);
      FourFree(f[0], f[1], f[2], f[3]);
      AllFreeConcat(AllFields(svs, n - 1), SvFields(sv));
    }
  }

  lemma HeaderFree(talker: string, total: nat, number: nat, count: nat)
    requires Free(talker, ',')
    ensures Fields.AllFree(HeaderFields(talker, total, number, count), ',')
  {
    DecimalText(total, ',');
    DecimalText(number, ',');
    PaddedText(count, 2, ',');
    FreeEach("GSV", ',');
    FreeConcat("$", talker, ',');
    FreeConcat("$" + talker, "GSV", ',');
    FourFree("$" + talker + "GSV", Decimal(total), Decimal(number), Padded(count, 2));
  }

  lemma FieldsJoined(first: string, rest: seq<string>, f: seq<string>)
    ensures (first + WithCommas(rest)) + WithCommas(f) == Fields.Join([first] + (rest + f), ',')
  {
    CommasConcat(rest, f);
    Assoc(first, WithCommas(rest), WithCommas(f));
    JoinCommas(first, rest + f);
  }

  lemma HeadFirst(h: seq<string>, f: seq<string>)
    requires h != []
    ensures [h[0]] + (h[1..] + f) == h + f
  {
  }

  lemma FieldsSplit(h: seq<string>, f: seq<string>)
    requires h != [] && Fields.AllFree(h, ',') && Fields.AllFree(f, ',')
    ensures Fields.Split((h[0] + WithCommas(h[1..])) + WithCommas(f), ',') == h + f
  {
    FieldsJoined(h[0], h[1..], f);
    HeadFirst(h, f);
    AllFreeConcat(h, f);
    Fields.SplitJoin(h + f, ',');
  }

  /** Split at the commas, a body gives the four fields of its header and four for each satellite. */
  lemma BodySplits(talker: string, total: nat, number: nat, count: nat, svs: seq<RawSv>)
    requires Free(talker, ',')
    ensures Fields.Split(Header(talker, total, number, count) + Join(Items(PrintAll(svs)), |svs|), ',') ==
      HeaderFields(talker, total, number, count) + AllFields(svs, |svs|)
  {
    HeaderCommas(talker, total, number, count);
    ItemsCommas(svs, |svs|);
    HeaderFree(talker, total, number, count);
    FieldsFree(svs, |svs|);
    FieldsSplit(HeaderFields(talker, total, number, count), AllFields(svs, |svs|));
  }

  // ---------- Reading ----------

  /** The satellite that four fields describe; an empty strength field means none was measured. */
  function ReadSv(f: seq<string>): RawSv
    requires |f| == 4
  {
    RawSv(Value(f[0]), Value(f[1]), Value(f[2]), Value(f[3]), f[3] != "")
  }

  function ReadSvs(f: seq<string>): seq<RawSv> {
    if |f| < 4 then [] else [ReadSv(f[..4])] + ReadSvs(f[4..])
  }

  /** A satellite as the sentences tell it: without the strength that is not sent. */
  function Told(sv: RawSv): RawSv {
    if sv.hasSnr then sv else sv.(snr := 0)
  }

  function AllTold(svs: seq<RawSv>): (r: seq<RawSv>)
    ensures |r| == |svs|
  {
    seq(|svs|, i requires 0 <= i < |svs| => Told(svs[i]))
  }

  predicate NonNegative(sv: RawSv) {
    sv.prn >= 0 && sv.elevation >= 0 && sv.azimuth >= 0 && (sv.hasSnr ==> sv.snr >= 0)
  }

  lemma SvReads(sv: RawSv)
    requires NonNegative(sv)
    ensures ReadSv(SvFields(sv)) == Told(sv)
  {
    PaddedReads(sv.prn, 2);
    PaddedReads(sv.elevation, 2);
    PaddedReads(sv.azimuth, 3);
    if sv.hasSnr {
      PaddedReads(sv.snr, 2);
    }
  }

  lemma {:induction false} ReadOneMore(f: seq<string>, four: seq<string>, n: nat)
    requires |f| == 4 * n && |four| == 4
    ensures ReadSvs(f + four) == ReadSvs(f) + [ReadSv(four)]
    decreases n
  {
    if n == 0 {
      assert f + four == four && four[..4] == four && ReadSvs(four[4..]) == [];
    } else {
      ReadOneMore(f[4..], four, n - 1);
      assert (f + four)[..4] == f[..4] && (f + four)[4..] == f[4..] + four;
      Assoc([ReadSv(f[..4])], ReadSvs(f[4..]), [ReadSv(four)]);
    }
  }

  lemma ToldNext(svs: seq<RawSv>, n: nat)
    requires n < |svs|
    ensures AllTold(svs)[..n + 1] == AllTold(svs)[..n] + [Told(svs[n])]
  {
  }

  lemma SvsReadNext(svs: seq<RawSv>, q: nat)
    requires q < |svs| && NonNegative(svs[q]) && ReadSvs(AllFields(svs, q)) == AllTold(svs)[..q]
    ensures ReadSvs(AllFields(svs, q + 1)) == AllTold(svs)[..q + 1]
  {
    SvReads(svs[q]);
    ReadOneMore(AllFields(svs, q), SvFields(svs[q]), q);
    ToldNext(svs, q);
  }

  lemma {:induction false} SvsRead(svs: seq<RawSv>, n: nat)
    requires n <= |svs| && forall i :: 0 <= i < |svs| ==> NonNegative(svs[i])
    ensures ReadSvs(AllFields(svs, n)) == AllTold(svs)[..n]
  {
    if n == 0 {
      assert AllFields(svs, n) == [];
    } else {
      SvsRead(svs, n - 1);
      SvsReadNext(svs, n - 1);
    }
  }

  /** The satellites of one constellation, as the modem reports them. */
  function RawTo(svs: seq<RawSv>, p: nat, lo: int, hi: int): seq<RawSv>
    requires p <= |svs|
  {
    if p == 0 then []
    else RawTo(svs, p - 1, lo, hi) + if lo <= svs[p - 1].prn <= hi then [svs[p - 1]] else []
  }

  lemma PrintNext(svs: seq<RawSv>, sv: RawSv)
    ensures PrintAll(svs + [sv]) == PrintAll(svs) + [Print(sv)]
  {
  }

  lemma SelectPrintedNext(svs: seq<RawSv>, q: nat, lo: int, hi: int)
    requires q < |svs| && SelectTo(PrintAll(svs), q, lo, hi) == PrintAll(RawTo(svs, q, lo, hi))
    ensures SelectTo(PrintAll(svs), q + 1, lo, hi) == PrintAll(RawTo(svs, q + 1, lo, hi))
  {
    var sv := svs[q];
    assert PrintAll(svs)[q] == Print(sv) && Print(sv).prn == sv.prn;
    if lo <= sv.prn <= hi {
      PrintNext(RawTo(svs, q, lo, hi), sv);
    }
  }

  lemma {:induction false} SelectPrinted(svs: seq<RawSv>, p: nat, lo: int, hi: int)
    requires p <= |svs|
    ensures SelectTo(PrintAll(svs), p, lo, hi) == PrintAll(RawTo(svs, p, lo, hi))
  {
    if p == 0 {
      assert PrintAll([]) == [];
    } else {
      var q := p - 1;
      SelectPrinted(svs, q, lo, hi);
      SelectPrintedNext(svs, q, lo, hi);
    }
  }

  lemma {:induction false} RawsKept(svs: seq<RawSv>, p: nat, lo: int, hi: int)
    requires p <= |svs| && forall i :: 0 <= i < |svs| && lo <= svs[i].prn <= hi ==> NonNegative(svs[i])
    ensures forall i :: 0 <= i < |RawTo(svs, p, lo, hi)| ==> NonNegative(RawTo(svs, p, lo, hi)[i])
  {
    if p > 0 {
      RawsKept(svs, p - 1, lo, hi);
    }
  }

  /** The satellites in the fields of a body. */
  function ReadBody(body: string): seq<RawSv> {
    var f := Fields.Split(body, ',');
    if |f| < 4 then [] else ReadSvs(f[4..])
  }

  /** The numbers of a header: how many sentences, which one this is, how many satellites there are. */
  datatype Head = Head(total: int, number: int, count: int)

  function ReadHead(body: string): Head {
    var f := Fields.Split(body, ',');
    if |f| < 4 then Head(0, 0, 0) else Head(Value(f[1]), Value(f[2]), Value(f[3]))
  }

  /** What comes before the checksum. */
  function Payload(text: string): string {
    text[..FirstStar(text)]
  }

  function Address(text: string): string {
    Fields.Split(Payload(text), ',')[0]
  }

  function ShareOf(svs: seq<RawSv>, number: nat): seq<RawSv>
    requires 1 <= number <= Total(|svs|)
  {
    svs[4 * (number - 1)..Smaller(4 * number, |svs|)]
  }

  lemma PrintPart(svs: seq<RawSv>, a: nat, b: nat)
    requires a <= b <= |svs|
    ensures PrintAll(svs[a..b]) == PrintAll(svs)[a..b]
  {
    var part, whole := PrintAll(svs[a..b]), PrintAll(svs);
    forall i | 0 <= i < b - a ensures part[i] == whole[a + i] {
      assert svs[a..b][i] == svs[a + i];
    }
    assert part == whole[a..b];
  }

  lemma ShareOfPrinted(svs: seq<RawSv>, number: nat)
    requires 1 <= number <= Total(|svs|)
    ensures PrintAll(ShareOf(svs, number)) == Share(PrintAll(svs), number)
  {
    PrintPart(svs, 4 * (number - 1), Smaller(4 * number, |svs|));
  }

  lemma ToldWhole(svs: seq<RawSv>, h: seq<string>, f: seq<string>)
    requires |h| == 4
    ensures AllTold(svs)[..|svs|] == AllTold(svs) && (h + f)[4..] == f
  {
  }

  lemma BodyFields(talker: string, svs: seq<RawSv>, sel: seq<Sv>, number: nat)
    requires Free(talker, ',') && sel == PrintAll(svs) && 1 <= number <= Total(|sel|)
    ensures var share := ShareOf(svs, number);
      Fields.Split(Body(talker, sel, number), ',') ==
        HeaderFields(talker, Total(|svs|), number, |svs|) + AllFields(share, |share|)
  {
    ShareOfPrinted(svs, number);
    BodySplits(talker, Total(|svs|), number, |svs|, ShareOf(svs, number));
  }

  lemma BodyReads(talker: string, svs: seq<RawSv>, sel: seq<Sv>, number: nat)
    requires Free(talker, ',') && sel == PrintAll(svs) && 1 <= number <= Total(|sel|)
    requires forall i :: 0 <= i < |svs| ==> NonNegative(svs[i])
    ensures ReadBody(Body(talker, sel, number)) == AllTold(ShareOf(svs, number))
  {
    var share := ShareOf(svs, number);
    BodyFields(talker, svs, sel, number);
    SvsRead(share, |share|);
    ToldWhole(share, HeaderFields(talker, Total(|svs|), number, |svs|), AllFields(share, |share|));
  }

  lemma HeaderValues(talker: string, total: nat, number: nat, count: nat)
    ensures var h := HeaderFields(talker, total, number, count);
      Value(h[1]) == total && Value(h[2]) == number && Value(h[3]) == count
  {
    DecimalReads(total);
    DecimalReads(number);
    PaddedReads(count, 2);
  }

  lemma HeadFields(body: string, h: seq<string>, f: seq<string>)
    requires |h| == 4 && Fields.Split(body, ',') == h + f
    ensures ReadHead(body) == Head(Value(h[1]), Value(h[2]), Value(h[3]))
  {
    assert (h + f)[1] == h[1] && (h + f)[2] == h[2] && (h + f)[3] == h[3];
  }

  /** The header of a body tells the number of sentences, its own number, and the number of satellites. */
  lemma HeadReads(talker: string, svs: seq<RawSv>, sel: seq<Sv>, number: nat)
    requires Free(talker, ',') && sel == PrintAll(svs) && 1 <= number <= Total(|sel|)
    ensures ReadHead(Body(talker, sel, number)) == Head((|svs| + 3) / 4, number, |svs|)
  {
    var share := ShareOf(svs, number);
    BodyFields(talker, svs, sel, number);
    HeadFields(Body(talker, sel, number), HeaderFields(talker, Total(|svs|), number, |svs|), AllFields(share, |share|));
    HeaderValues(talker, Total(|svs|), number, |svs|);
  }

  lemma BodyAddress(talker: string, svs: seq<RawSv>, sel: seq<Sv>, number: nat)
    requires Free(talker, ',') && sel == PrintAll(svs) && 1 <= number <= Total(|sel|)
    ensures Fields.Split(Body(talker, sel, number), ',')[0] == "$" + talker + "GSV"
  {
    BodyFields(talker, svs, sel, number);
  }

  /** What a receiver has read after the first sentences. */
  function ReadUpTo(talker: string, sel: seq<Sv>, upTo: nat): seq<RawSv>
    requires upTo <= Total(|sel|)
  {
    if upTo == 0 then [] else ReadUpTo(talker, sel, upTo - 1) + ReadBody(Body(talker, sel, upTo))
  }

  /** The shares of the first sentences. */
  function SharesUpTo(svs: seq<RawSv>, upTo: nat): seq<RawSv>
    requires upTo <= Total(|svs|)
  {
    if upTo == 0 then [] else SharesUpTo(svs, upTo - 1) + AllTold(ShareOf(svs, upTo))
  }

  lemma ShareNext(svs: seq<RawSv>, number: nat)
    requires 1 <= number <= Total(|svs|)
    ensures AllTold(svs)[..Smaller(4 * number, |svs|)] ==
      AllTold(svs)[..Smaller(4 * (number - 1), |svs|)] + AllTold(ShareOf(svs, number))
  {
    TotalBounds(|svs|);
  }

  lemma {:induction false} SharesWhole(svs: seq<RawSv>, upTo: nat)
    requires upTo <= Total(|svs|)
    ensures SharesUpTo(svs, upTo) == AllTold(svs)[..Smaller(4 * upTo, |svs|)]
  {
    if upTo > 0 {
      SharesWhole(svs, upTo - 1);
      ShareNext(svs, upTo);
    }
  }

  lemma {:induction false} SharesTold(talker: string, svs: seq<RawSv>, sel: seq<Sv>, upTo: nat)
    requires Free(talker, ',') && sel == PrintAll(svs) && upTo <= Total(|sel|)
    requires forall i :: 0 <= i < |svs| ==> NonNegative(svs[i])
    ensures ReadUpTo(talker, sel, upTo) == SharesUpTo(svs, upTo)
  {
    if upTo > 0 {
      SharesTold(talker, svs, sel, upTo - 1);
      BodyReads(talker, svs, sel, upTo);
    }
  }

  lemma ConstellationTold(svs: seq<RawSv>, talker: string, lo: int, hi: int)
    requires Free(talker, ',')
    requires forall i :: 0 <= i < |svs| && lo <= svs[i].prn <= hi ==> NonNegative(svs[i])
    ensures var sel := Select(PrintAll(svs), lo, hi);
      ReadUpTo(talker, sel, Total(|sel|)) == AllTold(RawTo(svs, |svs|, lo, hi))
  {
    var raws := RawTo(svs, |svs|, lo, hi);
    SelectPrinted(svs, |svs|, lo, hi);
    RawsKept(svs, |svs|, lo, hi);
    TotalBounds(|raws|);
    SharesTold(talker, raws, PrintAll(raws), Total(|raws|));
    SharesWhole(raws, Total(|raws|));
    ToldWhole(raws, HeaderFields(talker, 0, 0, 0), []);
  }

  // ---------- The sentences as they are sent ----------

  /** The sentences with one address, in order, each without its checksum. */
  function Addressed(talker: string, sent: seq<Sent>): seq<string> {
    if sent == [] then []
    else
      var n := |sent| - 1;
      Addressed(talker, sent[..n])
        + if Address(sent[n].text) == "$" + talker + "GSV" then [Payload(sent[n].text)] else []
  }

  lemma AddressedOne(talker: string, sent: seq<Sent>, s: Sent)
    ensures Addressed(talker, sent + [s]) ==
      Addressed(talker, sent) + if Address(s.text) == "$" + talker + "GSV" then [Payload(s.text)] else []
  {
    assert (sent + [s])[..|sent|] == sent;
  }

  lemma {:induction false} AddressedConcat(talker: string, a: seq<Sent>, b: seq<Sent>)
    ensures Addressed(talker, a + b) == Addressed(talker, a) + Addressed(talker, b)
    decreases |b|
  {
    if b == [] {
      assert a + b == a;
    } else {
      var n := |b| - 1;
      AddressedConcat(talker, a, b[..n]);
      assert a + b == (a + b[..n]) + [b[n]] && b == b[..n] + [b[n]];
      AddressedOne(talker, a + b[..n], b[n]);
      AddressedOne(talker, b[..n], b[n]);
      var last := if Address(b[n].text) == "$" + talker + "GSV" then [Payload(b[n].text)] else [];
      Assoc(Addressed(talker, a), Addressed(talker, b[..n]), last);
    }
  }

  /** The satellites of some bodies, in order. */
  function ReadBodies(bodies: seq<string>): seq<RawSv> {
    if bodies == [] then [] else ReadBodies(bodies[..|bodies| - 1]) + ReadBody(bodies[|bodies| - 1])
  }

  /** What a receiver reads about one constellation: the satellites of all sentences with its address. */
  function ReadAll(talker: string, sent: seq<Sent>): seq<RawSv> {
    ReadBodies(Addressed(talker, sent))
  }

  /** And the numbers of their headers. */
  function ReadHeads(talker: string, sent: seq<Sent>): (r: seq<Head>)
    ensures |r| == |Addressed(talker, sent)|
  {
    var bodies := Addressed(talker, sent);
    seq(|bodies|, k requires 0 <= k < |bodies| => ReadHead(bodies[k]))
  }

  /** A finished sentence gives its body back. */
  lemma PayloadFinished(body: string)
    requires 1 <= |body| <= 194 && body[0] == '$' && Free(body, '*')
    ensures Payload(Finish(body).text) == body
  {
    FinishedAccepted(body);
  }

  /** One sentence as it is sent, whatever its fields hold: accepted, with its address and its body. */
  lemma SentenceAddressed(talker: string, raw: seq<RawSv>, lo: int, hi: int, number: nat)
    requires IsTalker(talker) && 0 <= lo && hi < 100 && Countable(raw)
    requires 1 <= number <= Total(|Select(PrintAll(raw), lo, hi)|)
    ensures var sel := Select(PrintAll(raw), lo, hi);
      var s := Finish(Body(talker, sel, number));
      && Accepts(s.text) && Address(s.text) == "$" + talker + "GSV"
      && Payload(s.text) == Body(talker, sel, number)
  {
    var sel := Select(PrintAll(raw), lo, hi);
    SelectPrinted(raw, |raw|, lo, hi);
    BodyAlwaysFits(talker, raw, lo, hi, number);
    PayloadFinished(Body(talker, sel, number));
    FinishedAccepted(Body(talker, sel, number));
    BodyAddress(talker, RawTo(raw, |raw|, lo, hi), sel, number);
  }

  /** And all fields of the satellites of its share. */
  lemma SentenceReads(talker: string, raw: seq<RawSv>, lo: int, hi: int, number: nat)
    requires IsTalker(talker) && 0 <= lo && hi < 100 && Countable(raw)
    requires forall i :: 0 <= i < |raw| && lo <= raw[i].prn <= hi ==> NonNegative(raw[i])
    requires 1 <= number <= Total(|Select(PrintAll(raw), lo, hi)|)
    ensures var sel, raws := Select(PrintAll(raw), lo, hi), RawTo(raw, |raw|, lo, hi);
      var s := Finish(Body(talker, sel, number));
      && Accepts(s.text) && Address(s.text) == "$" + talker + "GSV"
      && |raws| == |sel| && ReadBody(Payload(s.text)) == AllTold(ShareOf(raws, number))
  {
    var sel, raws := Select(PrintAll(raw), lo, hi), RawTo(raw, |raw|, lo, hi);
    SelectPrinted(raw, |raw|, lo, hi);
    RawsKept(raw, |raw|, lo, hi);
    SentenceAddressed(talker, raw, lo, hi, number);
    BodyReads(talker, raws, sel, number);
  }

  /** An int counts the satellites and holds their fields. */
  predicate Countable(raw: seq<RawSv>) {
    |raw| <= INT_MAX && forall i :: 0 <= i < |raw| ==> IntFields(raw[i])
  }

  /** A talker identifier: two characters that separate nothing. */
  ghost predicate IsTalker(talker: string) {
    |talker| == 2 && Free(talker, '*') && Free(talker, ',')
  }

  lemma Addresses(talker: string, other: string)
    requires |talker| == |other| == 2
    ensures "$" + talker + "GSV" == "$" + other + "GSV" <==> talker == other
  {
    assert ("$" + talker + "GSV")[1..3] == talker && ("$" + other + "GSV")[1..3] == other;
  }

  /** The bodies of the first sentences. */
  function Bodies(talker: string, sel: seq<Sv>, upTo: nat): (r: seq<string>)
    requires upTo <= Total(|sel|)
    ensures |r| == upTo
  {
    if upTo == 0 then [] else Bodies(talker, sel, upTo - 1) + [Body(talker, sel, upTo)]
  }

  lemma {:induction false} SentencesRead(reader: string, talker: string, raw: seq<RawSv>, lo: int, hi: int, upTo: nat)
    requires IsTalker(talker) && |reader| == 2 && 0 <= lo && hi < 100 && Countable(raw)
    requires upTo <= Total(|Select(PrintAll(raw), lo, hi)|)
    ensures var sel := Select(PrintAll(raw), lo, hi);
      Addressed(reader, Sentences(talker, sel, upTo)) == if reader == talker then Bodies(talker, sel, upTo) else []
  {
    var sel := Select(PrintAll(raw), lo, hi);
    if upTo > 0 {
      SentencesRead(reader, talker, raw, lo, hi, upTo - 1);
      SentencesNext(talker, sel, upTo - 1);
      SentenceAddressed(talker, raw, lo, hi, upTo);
      Addresses(talker, reader);
      AddressedOne(reader, Sentences(talker, sel, upTo - 1), Finish(Body(talker, sel, upTo)));
    }
  }

  lemma {:induction false} BodiesTold(talker: string, sel: seq<Sv>, upTo: nat)
    requires upTo <= Total(|sel|)
    ensures ReadBodies(Bodies(talker, sel, upTo)) == ReadUpTo(talker, sel, upTo)
  {
    if upTo > 0 {
      BodiesTold(talker, sel, upTo - 1);
      var bodies := Bodies(talker, sel, upTo);
      assert bodies[..|bodies| - 1] == Bodies(talker, sel, upTo - 1);
    }
  }

  /** The numbers that the sentences of a constellation of n satellites carry; a blank one stands for none. */
  function HeadsOf(n: nat): (r: seq<Head>)
    ensures |r| == if n == 0 then 1 else (n + 3) / 4
    ensures forall k :: 0 <= k < |r| ==> r[k] == if n == 0 then Head(1, 1, 0) else Head((n + 3) / 4, k + 1, n)
  {
    if n == 0 then [Head(1, 1, 0)]
    else seq((n + 3) / 4, k requires 0 <= k < (n + 3) / 4 => Head((n + 3) / 4, k + 1, n))
  }

  lemma {:induction false} BodyAt(talker: string, sel: seq<Sv>, upTo: nat, k: nat)
    requires k < upTo <= Total(|sel|)
    ensures Bodies(talker, sel, upTo)[k] == Body(talker, sel, k + 1)
  {
    var before := Bodies(talker, sel, upTo - 1);
    if k < upTo - 1 {
      BodyAt(talker, sel, upTo - 1, k);
      assert (before + [Body(talker, sel, upTo)])[k] == before[k];
    }
  }

  lemma BlankCommas(talker: string)
    ensures var h := ["$" + talker + "GSV", "1", "1", "0"];
      Blank(talker) == (h[0] + WithCommas(h[1..])) + WithCommas([""])
  {
    var h := ["$" + talker + "GSV", "1", "1", "0"];
    assert [""][1..] == [] && WithCommas([""]) == "," + "" + "" == ",";
    assert h[1..] == ["1", "1", "0"];
    ThreeCommas("1", "1", "0");
    assert Blank(talker) == (h[0] + ("," + "1" + ("," + "1" + ("," + "0")))) + ",";
  }

  lemma BlankFields(talker: string)
    requires Free(talker, ',')
    ensures Fields.Split(Blank(talker), ',') == ["$" + talker + "GSV", "1", "1", "0"] + [""]
  {
    var h := ["$" + talker + "GSV", "1", "1", "0"];
    FreeEach("GSV", ',');
    FreeConcat("$", talker, ',');
    FreeConcat("$" + talker, "GSV", ',');
    FourFree(h[0], "1", "1", "0");
    BlankCommas(talker);
    FieldsSplit(h, [""]);
  }

  lemma BlankReads(talker: string)
    requires IsTalker(talker)
    ensures Accepts(Finish(Blank(talker)).text) && Payload(Finish(Blank(talker)).text) == Blank(talker)
    ensures Address(Finish(Blank(talker)).text) == "$" + talker + "GSV"
    ensures ReadBody(Blank(talker)) == [] && ReadHead(Blank(talker)) == Head(1, 1, 0)
  {
    BlankProper(talker);
    PayloadFinished(Blank(talker));
    BlankFields(talker);
    assert (["$" + talker + "GSV", "1", "1", "0"] + [""])[4..] == [""];
    ValueNext("", '1');
    ValueNext("", '0');
    assert "" + ['1'] == "1" && "" + ['0'] == "0";
  }

  lemma BlankAddressed(reader: string, talker: string)
    requires IsTalker(talker) && |reader| == 2
    ensures Addressed(reader, [Finish(Blank(talker))]) == if reader == talker then [Blank(talker)] else []
  {
    BlankReads(talker);
    Addresses(talker, reader);
    AddressedOne(reader, [], Finish(Blank(talker)));
    assert [] + [Finish(Blank(talker))] == [Finish(Blank(talker))];
  }

  /** The bodies of a constellation, or the one of its blank sentence. */
  function ConstellationBodies(talker: string, sel: seq<Sv>): seq<string> {
    if sel == [] then [Blank(talker)] else Bodies(talker, sel, Total(|sel|))
  }

  lemma ConstellationReads(reader: string, talker: string, raw: seq<RawSv>, lo: int, hi: int)
    requires IsTalker(talker) && |reader| == 2 && 0 <= lo && hi < 100 && Countable(raw)
    ensures var sel := Select(PrintAll(raw), lo, hi);
      Addressed(reader, Constellation(talker, sel)) == if reader == talker then ConstellationBodies(talker, sel) else []
  {
    var sel := Select(PrintAll(raw), lo, hi);
    if sel == [] {
      BlankAddressed(reader, talker);
    } else {
      SentencesRead(reader, talker, raw, lo, hi, Total(|sel|));
    }
  }

  ghost predicate TellHeads(bodies: seq<string>, n: nat) {
    |bodies| == |HeadsOf(n)| && forall k :: 0 <= k < |bodies| ==> ReadHead(bodies[k]) == HeadsOf(n)[k]
  }

  /** What the bodies of a constellation tell: its satellites. */
  lemma BodiesTellSvs(talker: string, raw: seq<RawSv>, lo: int, hi: int)
    requires IsTalker(talker)
    requires forall i :: 0 <= i < |raw| && lo <= raw[i].prn <= hi ==> NonNegative(raw[i])
    ensures ReadBodies(ConstellationBodies(talker, Select(PrintAll(raw), lo, hi))) == AllTold(RawTo(raw, |raw|, lo, hi))
  {
    var sel := Select(PrintAll(raw), lo, hi);
    SelectPrinted(raw, |raw|, lo, hi);
    if sel == [] {
      BlankTells(talker);
    } else {
      ConstellationTold(raw, talker, lo, hi);
      BodiesTold(talker, sel, Total(|sel|));
    }
  }

  /** And in their headers its numbers. */
  lemma BodiesTellNumbers(talker: string, raw: seq<RawSv>, lo: int, hi: int)
    requires IsTalker(talker)
    ensures TellHeads(ConstellationBodies(talker, Select(PrintAll(raw), lo, hi)), |RawTo(raw, |raw|, lo, hi)|)
  {
    var sel, raws := Select(PrintAll(raw), lo, hi), RawTo(raw, |raw|, lo, hi);
    SelectPrinted(raw, |raw|, lo, hi);
    if sel == [] {
      BlankTells(talker);
    } else {
      BodiesInOrder(talker, sel, Total(|sel|));
      BodiesTellHeads(Bodies(talker, sel, Total(|sel|)), talker, raws, sel, Total(|sel|));
    }
  }

  lemma BlankTells(talker: string)
    requires IsTalker(talker)
    ensures ReadBodies([Blank(talker)]) == [] && TellHeads([Blank(talker)], 0)
  {
    BlankReads(talker);
    assert [Blank(talker)][..0] == [];
  }

  lemma TotalCeil(n: nat)
    ensures Total(n) == (n + 3) / 4
  {
  }

  /** The bodies are those of the sentences in order; each tells the numbers given for it. */
  lemma BodiesTellHeads(bodies: seq<string>, talker: string, svs: seq<RawSv>, sel: seq<Sv>, total: nat)
    requires IsTalker(talker) && sel == PrintAll(svs) && svs != [] && total == Total(|sel|) == |bodies|
    requires forall k :: 0 <= k < total ==> bodies[k] == Body(talker, sel, k + 1)
    ensures TellHeads(bodies, |svs|)
  {
    TotalCeil(|sel|);
    forall k | 0 <= k < total ensures ReadHead(bodies[k]) == HeadsOf(|svs|)[k] {
      HeadReads(talker, svs, sel, k + 1);
    }
  }

  lemma BodiesInOrder(talker: string, sel: seq<Sv>, upTo: nat)
    requires upTo <= Total(|sel|)
    ensures forall k :: 0 <= k < upTo ==> Bodies(talker, sel, upTo)[k] == Body(talker, sel, k + 1)
  {
    forall k | 0 <= k < upTo ensures Bodies(talker, sel, upTo)[k] == Body(talker, sel, k + 1) {
      BodyAt(talker, sel, upTo, k);
    }
  }

  /** A sentence whose text begins with another address and a comma is passed over. */
  lemma OtherPassed(reader: string, address: string, rest: string)
    requires Free(address, ',') && rest != "" && rest[0] == ',' && address != "$" + reader + "GSV"
    requires var body := address + rest; 1 <= |body| <= 194 && body[0] == '$' && Free(body, '*')
    ensures Address(Finish(address + rest).text) != "$" + reader + "GSV"
  {
    var body := address + rest;
    PayloadFinished(body);
    Fields.FirstOfAt(address, rest, ',');
    assert Fields.Split(body, ',')[0] == body[..|address|] == address;
  }

  lemma NotGsv(reader: string, address: string)
    requires |reader| == 2 && |address| == 6 && (address[4] != 'S' || address[5] != 'V')
    ensures address != "$" + reader + "GSV"
  {
    var gsv := "$" + reader + "GSV";
    assert gsv[4] == 'S' && gsv[5] == 'V';
  }

  lemma GsaPassed(reader: string)
    requires |reader| == 2
    ensures Address(Finish(BLANK_GSA).text) != "$" + reader + "GSV"
  {
    GsaText('*');
    NoPositionBegins();
    FreeEach("$GPGSA", ',');
    NotGsv(reader, "$GPGSA");
    assert BLANK_GSA == "$GPGSA" + BLANK_GSA[6..];
    OtherPassed(reader, "$GPGSA", BLANK_GSA[6..]);
  }

  lemma VtgPassed(reader: string)
    requires |reader| == 2
    ensures Address(Finish(BLANK_VTG).text) != "$" + reader + "GSV"
  {
    VtgText('*');
    NoPositionBegins();
    FreeEach("$GPVTG", ',');
    NotGsv(reader, "$GPVTG");
    assert BLANK_VTG == "$GPVTG" + BLANK_VTG[6..];
    OtherPassed(reader, "$GPVTG", BLANK_VTG[6..]);
  }

  lemma RmcPassed(reader: string)
    requires |reader| == 2
    ensures Address(Finish(BLANK_RMC).text) != "$" + reader + "GSV"
  {
    RmcText('*');
    NoPositionBegins();
    FreeEach("$GPRMC", ',');
    NotGsv(reader, "$GPRMC");
    assert BLANK_RMC == "$GPRMC" + BLANK_RMC[6..];
    OtherPassed(reader, "$GPRMC", BLANK_RMC[6..]);
  }

  lemma GgaPassed(reader: string)
    requires |reader| == 2
    ensures Address(Finish(BLANK_GGA).text) != "$" + reader + "GSV"
  {
    GgaText('*');
    NoPositionBegins();
    FreeEach("$GPGGA", ',');
    NotGsv(reader, "$GPGGA");
    assert BLANK_GGA == "$GPGGA" + BLANK_GGA[6..];
    OtherPassed(reader, "$GPGGA", BLANK_GGA[6..]);
  }

  lemma PositionPassed(reader: string)
    requires |reader| == 2
    ensures Addressed(reader, NoPosition()) == []
  {
    GsaPassed(reader);
    VtgPassed(reader);
    RmcPassed(reader);
    GgaPassed(reader);
    FourPassed(reader, Finish(BLANK_GSA), Finish(BLANK_VTG), Finish(BLANK_RMC), Finish(BLANK_GGA));
  }

  lemma FourPassed(reader: string, a: Sent, b: Sent, c: Sent, d: Sent)
    requires forall s :: s in [a, b, c, d] ==> Address(s.text) != "$" + reader + "GSV"
    ensures Addressed(reader, [a, b, c, d]) == []
  {
    AddressedOne(reader, [], a);
    AddressedOne(reader, [a], b);
    AddressedOne(reader, [a, b], c);
    AddressedOne(reader, [a, b, c], d);
    assert [] + [a] == [a] && [a] + [b] == [a, b] && [a, b] + [c] == [a, b, c] && [a, b, c] + [d] == [a, b, c, d];
    assert a in [a, b, c, d] && b in [a, b, c, d] && c in [a, b, c, d] && d in [a, b, c, d];
  }

  lemma Talkers()
    ensures IsTalker("GP") && IsTalker("GL") && "GP" != "GL"
  {
    TalkerText();
    FreeEach("GP", ',');
    FreeEach("GL", ',');
    assert "GP"[1] != "GL"[1];
  }

  /** Besides, what is told about the satellites is not negative. */
  predicate Reported(raw: seq<RawSv>) {
    && Countable(raw)
    && (forall i :: 0 <= i < |raw| && (1 <= raw[i].prn <= 32 || 65 <= raw[i].prn <= 96) ==> NonNegative(raw[i]))
  }

  lemma ReportParts(reader: string, gp: string, gl: string, raw: seq<RawSv>, fixed: seq<Sent>)
    requires |reader| == 2 && IsTalker(gp) && IsTalker(gl) && gp != gl && Countable(raw)
    requires Addressed(reader, fixed) == []
    ensures Addressed(reader, Constellation(gp, Select(PrintAll(raw), 1, 32))
                              + Constellation(gl, Select(PrintAll(raw), 65, 96)) + fixed) ==
      if reader == gp then ConstellationBodies(gp, Select(PrintAll(raw), 1, 32))
      else if reader == gl then ConstellationBodies(gl, Select(PrintAll(raw), 65, 96))
      else []
  {
    var gps := Constellation(gp, Select(PrintAll(raw), 1, 32));
    var gln := Constellation(gl, Select(PrintAll(raw), 65, 96));
    ConstellationReads(reader, gp, raw, 1, 32);
    ConstellationReads(reader, gl, raw, 65, 96);
    AddressedConcat(reader, gps, gln);
    AddressedConcat(reader, gps + gln, fixed);
  }

  lemma ReportAddressed(raw: seq<RawSv>, usedMask: bv32)
    requires Countable(raw)
    ensures var sent := Report(PrintAll(raw), usedMask);
      && Addressed("GP", sent) == ConstellationBodies("GP", Select(PrintAll(raw), 1, 32))
      && Addressed("GL", sent) == ConstellationBodies("GL", Select(PrintAll(raw), 65, 96))
  {
    var gp, gl := "GP", "GL";
    var fixed := if usedMask == 0 then NoPosition() else [];
    Talkers();
    PositionPassed(gp);
    PositionPassed(gl);
    ReportParts(gp, gp, gl, raw, fixed);
    ReportParts(gl, gp, gl, raw, fixed);
  }

  /**
   A receiver that reads the sentences of a report gets back, under GP and under GL, every
   satellite of the PRN range in the modem's list, once, in order, with all its fields.
   */
  lemma GsvReadBack(raw: seq<RawSv>, usedMask: bv32)
    requires Reported(raw)
    ensures var sent := Report(PrintAll(raw), usedMask);
      && AllProper(sent)
      && ReadAll("GP", sent) == AllTold(RawTo(raw, |raw|, 1, 32))
      && ReadAll("GL", sent) == AllTold(RawTo(raw, |raw|, 65, 96))
  {
    Talkers();
    ReportProper(raw, usedMask);
    ReportAddressed(raw, usedMask);
    BodiesTellSvs("GP", raw, 1, 32);
    BodiesTellSvs("GL", raw, 65, 96);
  }

  /** Where the list has a satellite of the PRN range. */
  function Places(raw: seq<RawSv>, p: nat, lo: int, hi: int): set<nat>
    requires p <= |raw|
  {
    set i: nat | i < p && lo <= raw[i].prn <= hi
  }

  lemma {:induction false} PlacesCounted(raw: seq<RawSv>, p: nat, lo: int, hi: int)
    requires p <= |raw|
    ensures |RawTo(raw, p, lo, hi)| == |Places(raw, p, lo, hi)|
  {
    if p > 0 {
      PlacesCounted(raw, p - 1, lo, hi);
      assert Places(raw, p, lo, hi) ==
        Places(raw, p - 1, lo, hi) + if lo <= raw[p - 1].prn <= hi then {p - 1} else {};
    }
  }

  /**
   And from the headers, under GP and under GL, how many sentences there are, one for every four
   satellites, the number of each, and how many satellites of the PRN range the list has.
   */
  lemma HeadsReadBack(raw: seq<RawSv>, usedMask: bv32)
    requires Countable(raw)
    ensures var sent := Report(PrintAll(raw), usedMask);
      && ReadHeads("GP", sent) == HeadsOf(|Places(raw, |raw|, 1, 32)|)
      && ReadHeads("GL", sent) == HeadsOf(|Places(raw, |raw|, 65, 96)|)
  {
    Talkers();
    ReportAddressed(raw, usedMask);
    BodiesTellNumbers("GP", raw, 1, 32);
    BodiesTellNumbers("GL", raw, 65, 96);
    PlacesCounted(raw, |raw|, 1, 32);
    PlacesCounted(raw, |raw|, 65, 96);
  }

  /** When no satellite is used, the report goes on with the four blank position sentences. */
  lemma BlanksWhenUnused(raw: seq<RawSv>, usedMask: bv32)
    requires usedMask != 0
    ensures Report(PrintAll(raw), 0) == Report(PrintAll(raw), usedMask)
      + [Finish("$GPGSA,A,1,,,,,,,,,,,,,,,"), Finish("$GPVTG,,T,,M,,N,,K,N"),
         Finish("$GPRMC,,V,,,,,,,,,,N"), Finish("$GPGGA,,,,,,0,,,,,,,,")]
  {
    BlankLiterals();
  }

  lemma BlankLiterals()
    ensures BLANK_GSA == "$GPGSA,A,1,,,,,,,,,,,,,,," && BLANK_VTG == "$GPVTG,,T,,M,,N,,K,N"
    ensures BLANK_RMC == "$GPRMC,,V,,,,,,,,,,N" && BLANK_GGA == "$GPGGA,,,,,,0,,,,,,,,"
  {
  }
}
