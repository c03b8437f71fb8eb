/** Well-formed UTF-8 (section 4 of RFC 3629), and where it may be cut. */
module Utf8 {
  import opened Wire

  predicate In(s: Bytes, i: nat, low: int, high: int) {
    i < |s| && low <= s[i] <= high
  }

  predicate Tail(s: Bytes, i: nat) {
    In(s, i, 0x80, 0xBF)
  }

  /** Length of the well-formed character at the front of `s`, or 0 if there is none. */
  function CharLength(s: Bytes): (n: nat)
    ensures n <= |s| && n <= 4
    ensures forall i :: 1 <= i < n ==> s[i] >= 0x80
    ensures n > 1 ==> s[0] >= 0x80
  {
    if In(s, 0, 0x00, 0x7F) then 1
    else if In(s, 0, 0xC2, 0xDF) && Tail(s, 1) then 2
    else if && Tail(s, 2)
            && (|| (In(s, 0, 0xE0, 0xE0) && In(s, 1, 0xA0, 0xBF))
                || (In(s, 0, 0xE1, 0xEC) && Tail(s, 1))
                || (In(s, 0, 0xED, 0xED) && In(s, 1, 0x80, 0x9F))
                || (In(s, 0, 0xEE, 0xEF) && Tail(s, 1))) then 3
    else if && Tail(s, 2) && Tail(s, 3)
            && (|| (In(s, 0, 0xF0, 0xF0) && In(s, 1, 0x90, 0xBF))
                || (In(s, 0, 0xF1, 0xF3) && Tail(s, 1))
                || (In(s, 0, 0xF4, 0xF4) && In(s, 1, 0x80, 0x8F))) then 4
    else 0
  }

  predicate ValidUtf8(s: Bytes) {
    s == [] || (CharLength(s) > 0 && ValidUtf8(s[CharLength(s)..]))
  }

  /** The front character does not depend on what follows it. */
  lemma CharLengthPrefix(s: Bytes, k: nat)
    requires CharLength(s) > 0 && CharLength(s) <= k <= |s|
    ensures CharLength(s[..k]) == CharLength(s)
  {
  }

  /** One well-formed character in front of well-formed text is well-formed text. */
  lemma FrontCharacter(s: Bytes, n: nat)
    requires 0 < n == CharLength(s) && ValidUtf8(s[n..])
    ensures ValidUtf8(s)
  {
    hide CharLength;
  }

  lemma DropCharacter(s: Bytes)
    requires s != [] && ValidUtf8(s)
    ensures CharLength(s) > 0 && ValidUtf8(s[CharLength(s)..])
  {
    hide CharLength;
  }

  lemma EmptyIsValid(s: Bytes)
    requires s == []
    ensures ValidUtf8(s)
  {
  }

  /** Well-formed text cut after any ASCII byte is well-formed on both sides. */
  lemma {:induction false} CutAfterAscii(s: Bytes, i: nat)
    requires ValidUtf8(s) && i < |s| && s[i] < 0x80
    ensures ValidUtf8(s[..i + 1]) && ValidUtf8(s[i + 1..])
    decreases |s|
  {
    hide CharLength, ValidUtf8;
    var n := CharLength(s);
    DropCharacter(s);
    CharLengthPrefix(s, if i < n then n else i + 1);
    if i < n {
      assert i == 0 && n == 1;
      EmptyIsValid(s[..1][1..]);
    } else {
      CutAfterAscii(s[n..], i - n);
      assert s[..i + 1][n..] == s[n..][..i - n + 1];
      assert s[n..][i - n + 1..] == s[i + 1..];
    }
    FrontCharacter(s[..i + 1], n);
  }
}
