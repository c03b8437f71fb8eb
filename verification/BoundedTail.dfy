/** The bounded log tail: the last complete lines of a file, limited in number and in bytes. */
module BoundedTail {
  import opened Wire
  import opened Utf8

  const NEWLINE: byte := 10

  datatype TailError = Io | InvalidText

  function Newlines(s: Bytes): nat {
    if s == [] then 0 else (if s[0] == NEWLINE then 1 else 0) + Newlines(s[1..])
  }

  predicate LineStart(content: Bytes, a: nat)
    requires a <= |content|
  {
    a == 0 || content[a - 1] == NEWLINE
  }

  /** Just after the last newline, or 0 when there is none. */
  function LastLineEnd(content: Bytes): (b: nat)
    ensures b <= |content| && LineStart(content, b)
    ensures forall i :: b <= i < |content| ==> content[i] != NEWLINE
  {
    if content == [] then 0
    else if content[|content| - 1] == NEWLINE then |content|
    else LastLineEnd(content[..|content| - 1])
  }

  /** From `a` on, the complete lines lie in the last `cap` bytes and number at most `lines`. */
  predicate Fits(content: Bytes, lines: nat, cap: nat, a: nat) {
    && |content| - cap <= a <= LastLineEnd(content)
    && LineStart(content, a)
    && Newlines(content[a..LastLineEnd(content)]) <= lines
  }

  /** `text` is the longest fitting run of complete lines ending at the last newline. */
  ghost predicate IsTail(content: Bytes, lines: nat, cap: nat, text: Bytes) {
    || (exists a: nat :: Fits(content, lines, cap, a)
          && (forall other: nat :: Fits(content, lines, cap, other) ==> a <= other)
          && text == content[a..LastLineEnd(content)])
    || ((forall a: nat :: !Fits(content, lines, cap, a)) && text == [])
  }

  lemma {:induction false} NewlinesShrink(s: Bytes, i: nat, j: nat)
    requires i <= j <= |s|
    ensures Newlines(s[j..]) <= Newlines(s[i..])
    decreases j - i
  {
    if i < j {
      NewlinesShrink(s, i + 1, j);
      assert s[i..][1..] == s[i + 1..];
    }
  }

  lemma LastLineEndUnique(content: Bytes, b: nat)
    requires b <= |content| && LineStart(content, b) && forall i :: b <= i < |content| ==> content[i] != NEWLINE
    ensures LastLineEnd(content) == b
  {
    assert LineStart(content, LastLineEnd(content));
  }

  /** Complete lines of well-formed text are well-formed. */
  lemma CompleteLinesAreUtf8(content: Bytes, a: nat)
    requires ValidUtf8(content) && a <= LastLineEnd(content) && LineStart(content, a)
    ensures ValidUtf8(content[a..LastLineEnd(content)])
  {
    hide CharLength, LastLineEnd;
    var b := LastLineEnd(content);
    var upTo := content[..b];
    if b == 0 {
      assert content[a..b] == [];
    } else {
      CutAfterAscii(content, b - 1);
      if a == 0 {
        assert content[a..b] == upTo;
      } else {
        CutAfterAscii(upTo, a - 1);
        assert upTo[a..] == content[a..b];
      }
    }
  }

  method FirstNewline(bytes: Bytes) returns (r: Option<nat>)
    ensures match r
      case None => forall i :: 0 <= i < |bytes| ==> bytes[i] != NEWLINE
      case Some(k) => k < |bytes| && bytes[k] == NEWLINE && forall i :: 0 <= i < k ==> bytes[i] != NEWLINE
  {
    for k := 0 to |bytes|
      invariant forall i :: 0 <= i < k ==> bytes[i] != NEWLINE
    {
      if bytes[k] == NEWLINE { return Some(k); }
    }
    return None;
  }

  method LastNewline(bytes: Bytes) returns (r: Option<nat>)
    ensures match r
      case None => forall i :: 0 <= i < |bytes| ==> bytes[i] != NEWLINE
      case Some(k) => k < |bytes| && bytes[k] == NEWLINE && forall i :: k < i < |bytes| ==> bytes[i] != NEWLINE
  {
    for k := |bytes| downto 0
      invariant forall i :: k <= i < |bytes| ==> bytes[i] != NEWLINE
    {
      if bytes[k] == NEWLINE { return Some(k); }
    }
    return None;
  }

  /** Where the last `lines` lines of newline-terminated text begin. */
  method StartOfLast(bytes: Bytes, lines: nat) returns (start: nat)
    ensures start <= |bytes| && LineStart(bytes, start)
    ensures Newlines(bytes[start..]) <= lines
    ensures forall a :: 0 <= a < start && LineStart(bytes, a) ==> Newlines(bytes[a..]) > lines
  {
    var lineCount := 0;
    var index := |bytes|;
    assert bytes[index..] == [];
    while index > 0
      invariant index <= |bytes| && lineCount == Newlines(bytes[index..]) <= lines
    {
      index := index - 1;
      assert bytes[index..][1..] == bytes[index + 1..];
      if bytes[index] == NEWLINE {
        lineCount := lineCount + 1;
        if lineCount > lines {
          forall a | 0 <= a < index + 1 && LineStart(bytes, a) ensures Newlines(bytes[a..]) > lines {
            NewlinesShrink(bytes, a, index);
          }
          return index + 1;
        }
      }
    }
    return 0;
  }

  /** The window of the file, cut back to its first line start; `base` is where it begins. */
  method Window(content: Bytes, cap: nat) returns (r: Option<Bytes>, ghost base: nat)
    ensures match r
      case None => forall a: nat :: |content| - cap <= a <= |content| ==> !LineStart(content, a)
      case Some(bytes) =>
        && |content| - cap <= base <= |content| && LineStart(content, base) && bytes == content[base..]
        && forall a: nat :: |content| - cap <= a < base ==> !LineStart(content, a)
  {
    var readStart := if |content| >= cap then |content| - cap else 0;
    var atBoundary := readStart == 0 || content[readStart - 1] == NEWLINE;
    var bytes := content[readStart..];
    base := readStart;
    if !atBoundary {
      var first := FirstNewline(bytes);
      if first.None? {
        forall a | readStart <= a <= |content| ensures !LineStart(content, a) {
          if a > readStart { assert content[a - 1] == bytes[a - 1 - readStart]; }
        }
        return None, base;
      }
      base := readStart + first.value + 1;
      forall a | readStart <= a < base ensures !LineStart(content, a) {
        if a > readStart { assert content[a - 1] == bytes[a - 1 - readStart]; }
      }
      assert content[base - 1] == bytes[first.value];
      bytes := bytes[first.value + 1..];
    }
    return Some(bytes), base;
  }

  method Decode(bytes: Bytes) returns (r: Result<Bytes, TailError>)
    ensures r == if ValidUtf8(bytes) then Ok(bytes) else Err(InvalidText)
  {
    return if ValidUtf8(bytes) then Ok(bytes) else Err(InvalidText);
  }

  lemma TailValid(content: Bytes, lines: nat, cap: nat, text: Bytes)
    requires IsTail(content, lines, cap, text) && ValidUtf8(content)
    ensures ValidUtf8(text)
  {
    if a: nat :| Fits(content, lines, cap, a) && text == content[a..LastLineEnd(content)] {
      CompleteLinesAreUtf8(content, a);
    }
  }

  /** `read_bounded_tail_file` over the file's bytes. */
  method ReadBoundedTail(content: Bytes, requestedLines: nat, maxResponseBytes: nat)
    returns (r: Result<Bytes, TailError>, ghost text: Bytes)
    ensures requestedLines == 0 || maxResponseBytes == 0 ==> r == Err(Io)
    ensures requestedLines > 0 && maxResponseBytes > 0 ==>
      && IsTail(content, requestedLines, maxResponseBytes, text)
      && r == (if ValidUtf8(text) then Ok(text) else Err(InvalidText))
    ensures requestedLines > 0 && maxResponseBytes > 0 && ValidUtf8(content) ==> r == Ok(text)
  {
    text := [];
    if requestedLines == 0 || maxResponseBytes == 0 {
      return Err(Io), text;
    }
    var window, base := Window(content, maxResponseBytes);
    if window.None? {
      return Ok([]), text;
    }
    var bytes := window.value;
    var last := LastNewline(bytes);
    if last.None? {
      NoCompleteLine(content, requestedLines, maxResponseBytes, base);
      return Ok([]), text;
    }
    bytes := bytes[..last.value + 1];
    ghost var end := base + last.value + 1;
    assert bytes == content[base..end];
    LastLineEndUnique(content, end);
    var start := StartOfLast(bytes, requestedLines);
    TailFound(content, requestedLines, maxResponseBytes, base, start);
    bytes := bytes[start..];
    text := bytes;
    assert bytes == content[base + start..end];
    r := Decode(bytes);
    if ValidUtf8(content) { TailValid(content, requestedLines, maxResponseBytes, text); }
  }

  /** No newline from the first line start of the window on: no complete line lies in it. */
  lemma NoCompleteLine(content: Bytes, lines: nat, cap: nat, base: nat)
    requires |content| - cap <= base <= |content| && LineStart(content, base)
    requires forall i :: base <= i < |content| ==> content[i] != NEWLINE
    requires forall a: nat :: |content| - cap <= a < base ==> !LineStart(content, a)
    ensures IsTail(content, lines, cap, [])
  {
    LastLineEndUnique(content, base);
    assert content[base..base] == [];
    assert Fits(content, lines, cap, base);
    forall other: nat | Fits(content, lines, cap, other) ensures base <= other {
    }
  }

  lemma TailFound(content: Bytes, lines: nat, cap: nat, base: nat, start: nat)
    requires |content| - cap <= base <= LastLineEnd(content) && LineStart(content, base)
    requires forall a: nat :: |content| - cap <= a < base ==> !LineStart(content, a)
    requires var bytes := content[base..LastLineEnd(content)];
      && start <= |bytes| && LineStart(bytes, start) && Newlines(bytes[start..]) <= lines
      && forall a :: 0 <= a < start && LineStart(bytes, a) ==> Newlines(bytes[a..]) > lines
    ensures IsTail(content, lines, cap, content[base + start..LastLineEnd(content)])
  {
    var end := LastLineEnd(content);
    var bytes := content[base..end];
    assert bytes[start..] == content[base + start..end];
    assert Fits(content, lines, cap, base + start);
    forall other: nat | Fits(content, lines, cap, other) ensures base + start <= other {
      if base <= other < base + start {
        assert bytes[other - base..] == content[other..end];
        assert LineStart(bytes, other - base);
      }
    }
  }
}
