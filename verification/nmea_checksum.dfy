/** loc_eng_nmea_put_checksum of gps/libloc_api_50001/loc_eng_nmea.cpp, in place in a C string buffer. */
module NmeaChecksum {
  import opened CStrings

  function Bits(c: char): bv8 {
    (c as int % 256) as bv8
  }

  /** XOR of all characters. */
  function Checksum(s: string): bv8 {
    if s == "" then 0 else Checksum(s[..|s| - 1]) ^ Bits(s[|s| - 1])
  }

  function HexDigit(n: int): (c: char)
    requires 0 <= n < 16
    ensures c != NUL && c != '*' && c != ','
  {
    if n < 10 then ('0' as int + n) as char else ('A' as int + n - 10) as char
  }

  /** "*%02X\r\n" */
  function FormatChecksum(c: bv8): (t: string)
    ensures |t| == 5 && NoNul(t)
  {
    FreeEach(['*', HexDigit(c as int / 16), HexDigit(c as int % 16), '\r', '\n'], NUL);
    ['*', HexDigit(c as int / 16), HexDigit(c as int % 16), '\r', '\n']
  }

  function Trailer(body: string): string {
    FormatChecksum(Checksum(body))
  }

  /**
   snprintf of an already formatted text: writes what fits in room characters,
   always ending it with a NUL, and returns the length of the whole text.
   */
  method Snprintf(buf: array<char>, at: nat, room: nat, text: string) returns (length: int)
    requires 1 <= room && at + room <= buf.Length
    requires NoNul(text)
    modifies buf
    ensures length == |text|
    ensures HoldsAt(buf[..], at, Cut(text, room))
    ensures buf[..at] == old(buf[..at]) && buf[at + room..] == old(buf[at + room..])
  {
    var n := if |text| < room then |text| else room - 1;
    for i := 0 to n
      invariant forall k :: 0 <= k < i ==> buf[at + k] == text[k]
      invariant forall k :: 0 <= k < at || at + room <= k < buf.Length ==> buf[k] == old(buf[k])
    {
      buf[at + i] := text[i];
    }
    buf[at + n] := NUL;
    length := |text|;
    FreeEach(text, NUL);
    FreeEach(Cut(text, room), NUL);
  }

  /** The loop of put_checksum: p ends at the NUL. */
  method SumBody(buf: array<char>, ghost sentence: string) returns (p: nat, length: nat, checksum: bv8)
    requires 1 <= |sentence| && HoldsAt(buf[..], 0, sentence)
    ensures p == |sentence| && length == p - 1
    ensures checksum == Checksum(sentence[1..])
  {
    FreeEach(sentence, NUL);
    assert forall k :: 0 <= k <= |sentence| ==> buf[k] == if k < |sentence| then sentence[k] else NUL by {
      assert forall k :: 0 <= k < |sentence| ==> buf[..|sentence|][k] == sentence[k];
    }
    p, length, checksum := 1, 0, 0;
    while buf[p] != NUL
      invariant length == p - 1 && 1 <= p <= |sentence|
      invariant checksum == Checksum(sentence[1..p])
      decreases |sentence| - p
    {
      ChecksumStep(sentence, p);
      checksum := checksum ^ Bits(buf[p]);
      p := p + 1;
      length := length + 1;
    }
    assert sentence[1..p] == sentence[1..];
  }

  /**
   Appends the checksum to the sentence in the buffer and returns the length of
   the finished sentence without its '$'. What does not fit is cut off.
   */
  method PutChecksum(buf: array<char>, maxSize: nat, ghost sentence: string) returns (length: int)
    requires 1 <= |sentence| < maxSize <= buf.Length && HoldsAt(buf[..], 0, sentence)
    modifies buf
    ensures length == |sentence| - 1 + 5
    ensures HoldsAt(buf[..], 0, Cut(sentence + Trailer(sentence[1..]), maxSize))
    ensures buf[maxSize..] == old(buf[maxSize..])
  {
    var p, bodyLength, checksum := SumBody(buf, sentence);
    var checksumLength := Snprintf(buf, p, maxSize - bodyLength - 1, FormatChecksum(checksum));
    length := bodyLength + checksumLength;
    JoinHeld(buf[..], sentence, Cut(FormatChecksum(checksum), maxSize - p));
    CutConcat(sentence, FormatChecksum(checksum), maxSize);
  }

  lemma ChecksumStep(s: string, p: nat)
    requires 1 <= p < |s|
    ensures Checksum(s[1..p + 1]) == Checksum(s[1..p]) ^ Bits(s[p])
  {
    assert s[1..p + 1][..p - 1] == s[1..p];
  }

  lemma CutConcat(s: string, t: string, size: nat)
    requires |s| < size
    ensures Cut(s + t, size) == s + Cut(t, size - |s|)
  {}

  /** What is left of a text in a buffer of the given size. */
  function Cut(s: string, size: nat): string
    requires 1 <= size
  {
    if |s| < size then s else s[..size - 1]
  }

  /** That is the longest beginning that a NUL can follow. */
  lemma CutMeaning(s: string, size: nat)
    requires 1 <= size
    ensures var t := Cut(s, size); t <= s && |t| < size && (t == s || |t| == size - 1)
  {}

  // ---------- The receiving side: section 5.2.3 of NMEA 0183 ----------

  function HexValue(c: char): int {
    if '0' <= c <= '9' then c as int - '0' as int
    else if 'A' <= c <= 'F' then c as int - 'A' as int + 10
    else -1
  }

  function FirstStar(s: string): (i: nat)
    ensures i <= |s|
    ensures forall k :: 0 <= k < i ==> s[k] != '*'
    ensures i < |s| ==> s[i] == '*'
  {
    if s == "" || s[0] == '*' then 0 else 1 + FirstStar(s[1..])
  }

  /** One of the low eight bits of a character. */
  predicate HasBit(c: char, mask: bv8) {
    (c as int % 256) as bv8 & mask != 0
  }

  /** How many characters have the bit. */
  function Ones(s: string, mask: bv8): nat {
    if s == "" then 0
    else Ones(s[..|s| - 1], mask) + if HasBit(s[|s| - 1], mask) then 1 else 0
  }

  /** The value has the bit exactly when an odd number of characters have it. */
  predicate EvenParity(s: string, v: bv8, mask: bv8) {
    v & mask != 0 <==> Ones(s, mask) % 2 == 1
  }

  /** Each bit of the value makes the number of characters with that bit even. */
  predicate Checks(s: string, v: bv8) {
    && EvenParity(s, v, 1) && EvenParity(s, v, 2) && EvenParity(s, v, 4) && EvenParity(s, v, 8)
    && EvenParity(s, v, 16) && EvenParity(s, v, 32) && EvenParity(s, v, 64) && EvenParity(s, v, 128)
  }

  /** '$', characters, '*', two hex digits that check the characters bit by bit, CR LF. */
  predicate Accepts(s: string) {
    var k := FirstStar(s);
    && k >= 1 && |s| == k + 5
    && s[0] == '$' && s[k + 3] == '\r' && s[k + 4] == '\n'
    && HexValue(s[k + 1]) >= 0 && HexValue(s[k + 2]) >= 0
    && Checks(s[1..k], (HexValue(s[k + 1]) * 16 + HexValue(s[k + 2])) as bv8)
  }

  predicate OneBit(mask: bv8) {
    mask == 1 || mask == 2 || mask == 4 || mask == 8 || mask == 16 || mask == 32 || mask == 64 || mask == 128
  }

  lemma XorBit(a: bv8, b: bv8, mask: bv8)
    requires OneBit(mask)
    ensures (a ^ b) & mask != 0 <==> (a & mask != 0) != (b & mask != 0)
  {}

  lemma ParityNext(was: bv8, c: char, mask: bv8)
    requires OneBit(mask)
    ensures (was ^ Bits(c)) & mask != 0 <==> (was & mask != 0) != HasBit(c, mask)
  {
    XorBit(was, Bits(c), mask);
  }

  /** The checksum has a bit exactly when an odd number of characters have it. */
  lemma {:induction false} ChecksumParity(s: string, mask: bv8)
    requires OneBit(mask)
    ensures EvenParity(s, Checksum(s), mask)
  {
    if s != "" {
      var n := |s| - 1;
      ChecksumParity(s[..n], mask);
      ParityNext(Checksum(s[..n]), s[n], mask);
    }
  }

  lemma SameBits(a: bv8, b: bv8)
    requires forall mask :: OneBit(mask) ==> (a & mask != 0 <==> b & mask != 0)
    ensures a == b
  {
    assert OneBit(1) && OneBit(2) && OneBit(4) && OneBit(8) && OneBit(16) && OneBit(32) && OneBit(64) && OneBit(128);
    EightBits(a, b);
  }

  lemma EightBits(a: bv8, b: bv8)
    requires (a & 1 != 0) == (b & 1 != 0) && (a & 2 != 0) == (b & 2 != 0)
    requires (a & 4 != 0) == (b & 4 != 0) && (a & 8 != 0) == (b & 8 != 0)
    requires (a & 16 != 0) == (b & 16 != 0) && (a & 32 != 0) == (b & 32 != 0)
    requires (a & 64 != 0) == (b & 64 != 0) && (a & 128 != 0) == (b & 128 != 0)
    ensures a == b
  {}

  /** So it is the only value that checks the characters. */
  lemma ChecksIffChecksum(s: string, v: bv8)
    ensures Checks(s, v) <==> v == Checksum(s)
  {
    forall mask | OneBit(mask) ensures EvenParity(s, Checksum(s), mask) {
      ChecksumParity(s, mask);
    }
    if Checks(s, v) {
      SameBits(v, Checksum(s));
    }
  }

  lemma FirstStarIs(s: string, k: nat)
    requires k < |s| && s[k] == '*' && forall i :: 0 <= i < k ==> s[i] != '*'
    ensures FirstStar(s) == k
  {}

  lemma ByteBack(c: bv8, v: int)
    requires v == c as int
    ensures v as bv8 == c
  {}

  lemma HexReads(c: bv8)
    ensures var t := FormatChecksum(c);
      HexValue(t[1]) >= 0 && HexValue(t[2]) >= 0 && HexValue(t[1]) * 16 + HexValue(t[2]) == c as int
  {}

  /** A sentence is accepted exactly when it carries the checksum of its body. */
  lemma AcceptsIffChecksum(body: string, c: bv8)
    requires '*' !in body
    ensures Accepts("$" + body + FormatChecksum(c)) <==> c == Checksum(body)
  {
    var t := FormatChecksum(c);
    var s := "$" + body + t;
    var k := |body| + 1;
    assert s[1..k] == body;
    assert s[k] == t[0] && s[k + 1] == t[1] && s[k + 2] == t[2] && s[k + 3] == t[3] && s[k + 4] == t[4];
    FirstStarIs(s, k);
    HexReads(c);
    ByteBack(c, HexValue(t[1]) * 16 + HexValue(t[2]));
    ChecksIffChecksum(body, c);
  }

  /** What put_checksum makes of a body with enough room is accepted, and is one longer than the length returned. */
  lemma ChecksumRoundTrip(body: string, size: nat)
    requires '*' !in body && |body| + 6 < size
    ensures var s := Cut("$" + body + Trailer(body), size);
      Accepts(s) && s[1..|body| + 1] == body && |body| + 5 == |s| - 1
  {
    AcceptsIffChecksum(body, Checksum(body));
  }

  lemma XorCancels(a: bv8, b: bv8, c: bv8)
    ensures a ^ b == a ^ c ==> b == c
    ensures b ^ a == c ^ a ==> b == c
  {}

  /** Changing one character of a body changes its checksum. */
  lemma {:induction false} OneChangeShows(s: string, i: nat, c: char)
    requires i < |s| && Bits(c) != Bits(s[i])
    ensures Checksum(s[i := c]) != Checksum(s)
    decreases |s|
  {
    var n := |s| - 1;
    if i == n {
      assert s[i := c][..n] == s[..n];
      XorCancels(Checksum(s[..n]), Bits(c), Bits(s[n]));
    } else {
      assert s[i := c][..n] == s[..n][i := c];
      OneChangeShows(s[..n], i, c);
      XorCancels(Bits(s[n]), Checksum(s[..n][i := c]), Checksum(s[..n]));
    }
  }

  /** A verifier rejects a sentence in which one character of the body was garbled. */
  lemma OneErrorDetected(body: string, i: nat, c: char)
    requires '*' !in body && i < |body| && c != '*' && Bits(c) != Bits(body[i])
    ensures !Accepts("$" + body[i := c] + Trailer(body))
  {
    OneChangeShows(body, i, c);
    AcceptsIffChecksum(body[i := c], Checksum(body));
  }
}
