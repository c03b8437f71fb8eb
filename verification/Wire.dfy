/** Byte strings, fixed-width integers in both byte orders, and the prefix parsers
    from which every binary decoder of the model is assembled. */
module Wire {
  type byte = b: int | 0 <= b < 256
  type Bytes = seq<byte>

  const U16: nat := 0x1_0000
  const U32: nat := 0x1_0000_0000
  const U64: nat := 0x1_0000_0000_0000_0000

  datatype Result<+T, +E> = Ok(value: T) | Err(error: E) {
    predicate IsFailure() { Err? }
    function PropagateFailure<U>(): Result<U, E> requires Err? { Err(error) }
    function Extract(): T requires Ok? { value }
  }

  datatype Option<+T> = None | Some(value: T) {
    predicate IsFailure() { None? }
    function PropagateFailure<U>(): Option<U> requires None? { None }
    function Extract(): T requires Some? { value }
  }

  /** The outcome of reading one field from the front of a byte string. */
  datatype Parsed<+T> = NoParse | Parsed(value: T, rest: Bytes) {
    predicate IsFailure() { NoParse? }
    function PropagateFailure<U>(): Parsed<U> requires NoParse? { NoParse }
    function Extract(): (T, Bytes) requires Parsed? { (value, rest) }
  }

  function Ascii(text: string): (s: Bytes)
    requires forall i :: 0 <= i < |text| ==> text[i] < 128 as char
    ensures |s| == |text|
    ensures forall i :: 0 <= i < |text| ==> s[i] == text[i] as int
  {
    seq(|text|, i requires 0 <= i < |text| => text[i] as int)
  }

  function Pow256(n: nat): (p: nat)
    ensures p > 0
  {
    if n == 0 then 1 else 256 * Pow256(n - 1)
  }

  lemma Widths()
    ensures Pow256(1) == 256 && Pow256(2) == U16 && Pow256(4) == U32 && Pow256(8) == U64
  {
    assert Pow256(3) == 256 * Pow256(2);
    assert Pow256(4) == 256 * Pow256(3);
    assert Pow256(6) == 256 * Pow256(5) == 65536 * Pow256(4);
    assert Pow256(8) == 256 * Pow256(7) == 65536 * Pow256(6);
  }

  // ----- little endian (storage records) -----

  function Le(v: nat, n: nat): (s: Bytes)
    ensures |s| == n
  {
    if n == 0 then [] else [v % 256] + Le(v / 256, n - 1)
  }

  function LeValue(s: Bytes): nat {
    if s == [] then 0 else s[0] + 256 * LeValue(s[1..])
  }

  lemma DropDigit(v: nat, n: nat)
    requires v < Pow256(n)
    ensures if n == 0 then v == 0 else v / 256 < Pow256(n - 1)
  {
  }

  lemma AddDigit(digit: byte, v: nat, n: nat)
    requires v < Pow256(n)
    ensures digit + 256 * v < Pow256(n + 1)
    ensures (digit + 256 * v) / 256 == v && (digit + 256 * v) % 256 == digit
  {
  }

  lemma {:induction false} LeValueOfLe(v: nat, n: nat)
    requires v < Pow256(n)
    ensures LeValue(Le(v, n)) == v
  {
    hide Pow256;
    DropDigit(v, n);
    if n != 0 {
      LeValueOfLe(v / 256, n - 1);
      assert Le(v, n)[1..] == Le(v / 256, n - 1);
    }
  }

  lemma {:induction false} LeOfLeValue(s: Bytes)
    ensures LeValue(s) < Pow256(|s|)
    ensures Le(LeValue(s), |s|) == s
  {
    if s != [] {
      hide Pow256;
      LeOfLeValue(s[1..]);
      AddDigit(s[0], LeValue(s[1..]), |s| - 1);
      assert s == [s[0]] + s[1..];
    }
  }

  // ----- big endian (configuration envelopes and the cache) -----

  function Be(v: nat, n: nat): (s: Bytes)
    ensures |s| == n
  {
    if n == 0 then [] else Be(v / 256, n - 1) + [v % 256]
  }

  function BeValue(s: Bytes): nat {
    if s == [] then 0 else 256 * BeValue(s[..|s| - 1]) + s[|s| - 1]
  }

  lemma {:induction false} BeValueOfBe(v: nat, n: nat)
    requires v < Pow256(n)
    ensures BeValue(Be(v, n)) == v
  {
    hide Pow256;
    DropDigit(v, n);
    if n != 0 {
      BeValueOfBe(v / 256, n - 1);
      assert Be(v, n)[..n - 1] == Be(v / 256, n - 1);
    }
  }

  lemma {:induction false} BeOfBeValue(s: Bytes)
    ensures BeValue(s) < Pow256(|s|)
    ensures Be(BeValue(s), |s|) == s
  {
    if s != [] {
      hide Pow256;
      BeOfBeValue(s[..|s| - 1]);
      AddDigit(s[|s| - 1], BeValue(s[..|s| - 1]), |s| - 1);
      assert s == s[..|s| - 1] + [s[|s| - 1]];
    }
  }

  // ----- prefix parsers -----

  function Take(s: Bytes, n: nat): (p: Parsed<Bytes>)
    ensures p.Parsed? <==> n <= |s|
    ensures p.Parsed? ==> |p.value| == n && s == p.value + p.rest
  {
    if n <= |s| then Parsed(s[..n], s[n..]) else NoParse
  }

  lemma TakeAppend(a: Bytes, rest: Bytes)
    ensures Take(a + rest, |a|) == Parsed(a, rest)
  {
    assert (a + rest)[..|a|] == a && (a + rest)[|a|..] == rest;
  }

  function TakeLe(s: Bytes, n: nat): (p: Parsed<nat>) {
    var (raw, rest) :- Take(s, n);
    Parsed(LeValue(raw), rest)
  }

  function TakeBe(s: Bytes, n: nat): (p: Parsed<nat>) {
    var (raw, rest) :- Take(s, n);
    Parsed(BeValue(raw), rest)
  }

  lemma TakeLeAppend(v: nat, n: nat, rest: Bytes)
    requires v < Pow256(n)
    ensures TakeLe(Le(v, n) + rest, n) == Parsed(v, rest)
  {
    TakeAppend(Le(v, n), rest);
    LeValueOfLe(v, n);
  }

  lemma TakeLeSound(s: Bytes, n: nat)
    ensures var p := TakeLe(s, n); p.Parsed? ==> p.value < Pow256(n) && s == Le(p.value, n) + p.rest
    ensures TakeLe(s, n).Parsed? <==> n <= |s|
  {
    if n <= |s| { LeOfLeValue(s[..n]); }
  }

  lemma TakeBeAppend(v: nat, n: nat, rest: Bytes)
    requires v < Pow256(n)
    ensures TakeBe(Be(v, n) + rest, n) == Parsed(v, rest)
  {
    TakeAppend(Be(v, n), rest);
    BeValueOfBe(v, n);
  }

  lemma TakeBeSound(s: Bytes, n: nat)
    ensures var p := TakeBe(s, n); p.Parsed? ==> p.value < Pow256(n) && s == Be(p.value, n) + p.rest
    ensures TakeBe(s, n).Parsed? <==> n <= |s|
  {
    if n <= |s| { BeOfBeValue(s[..n]); }
  }

  // ----- a two-byte length followed by that many bytes (storage identifiers) -----

  function Text16Then(text: Bytes, tail: Bytes): Bytes {
    Le(|text| % U16, 2) + (text + tail)
  }

  function TakeText16(s: Bytes): Parsed<Bytes> {
    var (length, rest) :- TakeLe(s, 2);
    Take(rest, length)
  }

  lemma TakeText16Append(text: Bytes, tail: Bytes)
    requires |text| < U16
    ensures TakeText16(Text16Then(text, tail)) == Parsed(text, tail)
  {
    hide Le, TakeLe;
    Widths();
    TakeLeAppend(|text|, 2, text + tail);
    TakeAppend(text, tail);
  }

  lemma TakeText16Sound(s: Bytes)
    ensures var p := TakeText16(s); p.Parsed? ==> |p.value| < U16 && s == Text16Then(p.value, p.rest)
  {
    hide Le, TakeLe;
    Widths();
    TakeLeSound(s, 2);
  }

  // ----- a four-byte length followed by that many bytes (configuration fields) -----

  function Text32Then(text: Bytes, tail: Bytes): Bytes {
    Be(|text| % U32, 4) + (text + tail)
  }

  function TakeText32(s: Bytes): Parsed<Bytes> {
    var (length, rest) :- TakeBe(s, 4);
    Take(rest, length)
  }

  lemma TakeText32Append(text: Bytes, tail: Bytes)
    requires |text| < U32
    ensures TakeText32(Text32Then(text, tail)) == Parsed(text, tail)
  {
    hide Be, TakeBe;
    Widths();
    TakeBeAppend(|text|, 4, text + tail);
    TakeAppend(text, tail);
  }

  lemma TakeText32Sound(s: Bytes)
    ensures var p := TakeText32(s); p.Parsed? ==> |p.value| < U32 && s == Text32Then(p.value, p.rest)
  {
    hide Be, TakeBe;
    Widths();
    TakeBeSound(s, 4);
  }
}
