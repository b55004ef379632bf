/** C strings: sequences of characters in a buffer, ended by a NUL. */
module CStrings {

  const NUL: char := 0 as char

  /** The character does not occur. */
  ghost predicate Free(s: string, c: char) {
    s == "" || (s[0] != c && Free(s[1..], c))
  }

  ghost predicate NoNul(s: string) {
    Free(s, NUL)
  }

  lemma {:induction false} FreeEach(s: string, c: char)
    ensures Free(s, c) <==> forall i :: 0 <= i < |s| ==> s[i] != c
  {
    if s != "" {
      FreeEach(s[1..], c);
      assert forall i :: 1 <= i < |s| ==> s[i] == s[1..][i - 1];
    }
  }

  lemma FreeConcat(s: string, t: string, c: char)
    ensures Free(s + t, c) <==> Free(s, c) && Free(t, c)
  {
    FreeEach(s, c);
    FreeEach(t, c);
    FreeEach(s + t, c);
    assert forall i :: 0 <= i < |s| ==> (s + t)[i] == s[i];
    assert forall i :: 0 <= i < |t| ==> (s + t)[|s| + i] == t[i];
  }

  /** The buffer holds the C string s from position at on. */
  ghost predicate HoldsAt(buf: seq<char>, at: nat, s: string) {
    && at + |s| < |buf|
    && buf[at..at + |s|] == s && buf[at + |s|] == NUL
    && NoNul(s)
  }

  lemma JoinHeld(buf: seq<char>, s: string, t: string)
    requires |s| <= |buf| && buf[..|s|] == s && NoNul(s)
    requires HoldsAt(buf, |s|, t)
    ensures HoldsAt(buf, 0, s + t)
  {
    assert buf[..|s| + |t|] == buf[..|s|] + buf[|s|..|s| + |t|];
    FreeConcat(s, t, NUL);
  }
}
