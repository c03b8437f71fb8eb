/** Splitting text at separator characters and joining it again. */
module Texts {

  predicate PieceOf(part: string, s: string, separators: set<char>) {
    forall c <- part :: c in s && c !in separators
  }

  /** The pieces between separators; always at least one. */
  function Split(s: string, separators: set<char>): (r: seq<string>)
    ensures |r| >= 1
    ensures forall i :: 0 <= i < |r| ==> PieceOf(r[i], s, separators)
  {
    if s == "" then [""]
    else
      var rest := Split(s[1..], separators);
      if s[0] in separators then [""] + rest else [[s[0]] + rest[0]] + rest[1..]
  }

  function Join(parts: seq<string>, separator: char): string {
    if parts == [] then ""
    else if |parts| == 1 then parts[0]
    else parts[0] + [separator] + Join(parts[1..], separator)
  }

  predicate Free(s: string, separators: set<char>) {
    forall c <- s :: c !in separators
  }

  lemma {:induction false} SplitFree(s: string, separators: set<char>)
    requires Free(s, separators)
    ensures Split(s, separators) == [s]
  {
    if s != "" {
      SplitFree(s[1..], separators);
      assert [s[0]] + s[1..] == s;
    }
  }

  lemma {:induction false} SplitFirst(first: string, separator: char, rest: string, separators: set<char>)
    requires Free(first, separators) && separator in separators
    ensures Split(first + [separator] + rest, separators) == [first] + Split(rest, separators)
  {
    var s := first + [separator] + rest;
    if first == "" {
      assert s[1..] == rest;
    } else {
      SplitFirst(first[1..], separator, rest, separators);
      assert s[1..] == first[1..] + [separator] + rest;
      assert [first[0]] + first[1..] == first;
    }
  }

  lemma {:induction false} SplitJoin(parts: seq<string>, separator: char, separators: set<char>)
    requires parts != [] && separator in separators && forall part <- parts :: Free(part, separators)
    ensures Split(Join(parts, separator), separators) == parts
  {
    if |parts| == 1 {
      SplitFree(parts[0], separators);
    } else {
      SplitJoin(parts[1..], separator, separators);
      SplitFirst(parts[0], separator, Join(parts[1..], separator), separators);
    }
  }

  lemma {:induction false} JoinSplit(s: string, separator: char)
    ensures Join(Split(s, {separator}), separator) == s
  {
    if s != "" {
      JoinSplit(s[1..], separator);
      var r, rest := Split(s, {separator}), Split(s[1..], {separator});
      if s[0] == separator {
        assert r[1..] == rest;
      } else {
        assert r[1..] == rest[1..];
        assert s == [s[0]] + s[1..];
        if |rest| > 1 {
          assert Join(r, separator) == [s[0]] + (rest[0] + [separator] + Join(rest[1..], separator));
        }
      }
    }
  }

  /** The last piece is what follows the last separator. */
  lemma {:induction false} JoinInit(parts: seq<string>, separator: char)
    requires |parts| >= 2
    ensures Join(parts, separator) == Join(parts[..|parts| - 1], separator) + [separator] + parts[|parts| - 1]
  {
    var init, tail := parts[..|parts| - 1], parts[1..];
    if |parts| > 2 {
      JoinInit(tail, separator);
      var middle := tail[..|tail| - 1];
      assert init[1..] == middle;
      var x, last := Join(middle, separator), [separator] + parts[|parts| - 1];
      assert Join(tail, separator) == x + last;
      assert Join(init, separator) == parts[0] + [separator] + x;
      assert parts[0] + [separator] + (x + last) == (parts[0] + [separator] + x) + last;
    }
  }

  lemma {:induction false} JoinChars(parts: seq<string>, separator: char, c: char)
    requires c in Join(parts, separator)
    ensures c == separator || exists i :: 0 <= i < |parts| && c in parts[i]
  {
    if |parts| > 1 && c !in parts[0] && c != separator {
      JoinChars(parts[1..], separator, c);
      var i :| 0 <= i < |parts[1..]| && c in parts[1..][i];
      assert parts[1..][i] == parts[i + 1];
    }
  }

  predicate StartsWith(s: string, prefix: string) {
    prefix <= s
  }
}
