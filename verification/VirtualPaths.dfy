/** Virtual paths: Windows-style input, checked component by component, with a folded lookup key. */
module VirtualPaths {
  import opened Wire
  import opened Keys
  import opened Texts

  const MAX_PATH_LENGTH := 260
  const MAX_COMPONENT_LENGTH := 128
  const MAX_COMPONENTS := 64

  const SEPARATORS: set<char> := {'\\', '/'}

  const RESERVED: set<string> := {
    "CON", "PRN", "AUX", "NUL",
    "COM1", "COM2", "COM3", "COM4", "COM5", "COM6", "COM7", "COM8", "COM9",
    "LPT1", "LPT2", "LPT3", "LPT4", "LPT5", "LPT6", "LPT7", "LPT8", "LPT9"
  }

  datatype VirtualPath = VirtualPath(display: seq<string>, lookup: string)

  datatype PathError = InvalidPath

  /** Bytes a character takes in UTF-8 (section 3 of RFC 3629). */
  function Utf8Width(c: char): nat {
    var n := c as int;
    if n < 0x80 then 1 else if n < 0x800 then 2 else if n < 0x10000 then 3 else 4
  }

  function Utf8Length(s: string): nat {
    if s == "" then 0 else Utf8Width(s[0]) + Utf8Length(s[1..])
  }

  function LowerChar(c: char): char {
    if 'A' <= c <= 'Z' then (c as int + 32) as char else c
  }

  function UpperChar(c: char): char {
    if 'a' <= c <= 'z' then (c as int - 32) as char else c
  }

  function Lower(s: string): string {
    seq(|s|, i requires 0 <= i < |s| => LowerChar(s[i]))
  }

  function Upper(s: string): string {
    seq(|s|, i requires 0 <= i < |s| => UpperChar(s[i]))
  }

  predicate IsControl(c: char) {
    c as int < 0x20 || 0x7F <= c as int <= 0x9F
  }

  predicate Forbidden(c: char) {
    IsControl(c) || c in {'<', '>', '"', '|', '?', '*'}
  }

  predicate ValidComponent(part: string) {
    && part != ""
    && Utf8Length(part) <= MAX_COMPONENT_LENGTH
    && part != "." && part != ".."
    && part[|part| - 1] != '.' && part[|part| - 1] != ' '
    && (forall c <- part :: !Forbidden(c))
    && Upper(Split(part, {'.'})[0]) !in RESERVED
  }

  predicate IsDeviceOrUnc(input: string) {
    var upper := Upper(input);
    StartsWith(upper, "\\\\") || StartsWith(upper, "\\DEVICE\\") || StartsWith(upper, "\\?\\")
  }

  function NonEmpty(parts: seq<string>): (r: seq<string>)
    ensures forall part <- r :: part in parts && part != ""
  {
    if parts == [] then []
    else if parts[0] == "" then NonEmpty(parts[1..])
    else [parts[0]] + NonEmpty(parts[1..])
  }

  function LowerAll(parts: seq<string>): seq<string> {
    seq(|parts|, i requires 0 <= i < |parts| => Lower(parts[i]))
  }

  function LookupKey(display: seq<string>): string {
    Join(LowerAll(display), '/')
  }

  function Parse(input: string): Result<VirtualPath, PathError> {
    if input == "" || Utf8Length(input) > MAX_PATH_LENGTH || '\0' in input || input[0] in SEPARATORS
       || ':' in input || IsDeviceOrUnc(input)
    then Err(InvalidPath)
    else
      var display := NonEmpty(Split(input, SEPARATORS));
      if display == [] || |display| > MAX_COMPONENTS || exists part <- display :: !ValidComponent(part)
      then Err(InvalidPath)
      else Ok(VirtualPath(display, LookupKey(display)))
  }

  function DisplayPath(v: VirtualPath): string {
    Join(v.display, '\\')
  }

  /** The parent as the source computes it: split the key, drop the last piece, join the rest. */
  function ParentBySplitting(lookup: string): Option<string> {
    var pieces := Split(lookup, {'/'});
    if |pieces| == 1 then None else Some(Join(pieces[..|pieces| - 1], '/'))
  }

  lemma ParentOfChild(parent: string, name: string)
    requires '/' !in name
    ensures ParentKey(parent + ['/'] + name) == Some(parent)
  {
    var key := parent + ['/'] + name;
    forall j | |parent| < j < |key| ensures key[j] != '/' {
      assert key[j] == name[j - |parent| - 1];
      assert name[j - |parent| - 1] in name;
    }
    LastSlashIs(key, |parent|);
    assert key[..|parent|] == parent;
  }

  lemma ParentIsBeforeLastSlash(lookup: string)
    ensures ParentBySplitting(lookup) == ParentKey(lookup)
  {
    hide ParentKey, Split, Join;
    var pieces := Split(lookup, {'/'});
    JoinSplit(lookup, '/');
    var last := pieces[|pieces| - 1];
    assert PieceOf(last, lookup, {'/'});
    if |pieces| == 1 {
      assert pieces == [last];
      JoinOne(last);
      NoParent(lookup);
    } else {
      JoinInit(pieces, '/');
      ParentOfChild(Join(pieces[..|pieces| - 1], '/'), last);
    }
  }

  lemma JoinOne(part: string)
    ensures Join([part], '/') == part
  {
  }

  lemma NoParent(key: string)
    ensures '/' !in key ==> ParentKey(key) == None
  {
  }

  /** Text that can stand in one column of an index line. */
  predicate Clean(s: string) {
    forall c <- s :: c != '\t' && c != '\n' && c != '\r'
  }

  lemma LowerKeeps(part: string, c: char)
    requires ValidComponent(part) && Free(part, SEPARATORS) && c in Lower(part)
    ensures c != '/' && c != '\\' && !Forbidden(c)
  {
    var i :| 0 <= i < |part| && LowerChar(part[i]) == c;
    assert part[i] in part;
  }

  lemma ParsedComponents(input: string)
    requires Parse(input).Ok?
    ensures var v := Parse(input).value;
            && v.display != [] && v.lookup == LookupKey(v.display)
            && forall part <- v.display ::
                ValidComponent(part) && Free(part, SEPARATORS) && ':' !in part && '\0' !in part
  {
    var v := Parse(input).value;
    forall part <- v.display ensures ValidComponent(part) && Free(part, SEPARATORS) && ':' !in part && '\0' !in part {
      var i :| 0 <= i < |Split(input, SEPARATORS)| && Split(input, SEPARATORS)[i] == part;
      assert PieceOf(part, input, SEPARATORS);
    }
  }

  /** Keys and names of accepted paths are non-empty and hold no tab, newline or other control character. */
  lemma ParsedIsClean(input: string)
    requires Parse(input).Ok?
    ensures var v := Parse(input).value;
            && v.lookup != "" && (forall c <- v.lookup :: !Forbidden(c)) && Clean(v.lookup)
            && v.display[|v.display| - 1] != "" && Clean(v.display[|v.display| - 1])
  {
    ParsedComponents(input);
    var v := Parse(input).value;
    var lowered := LowerAll(v.display);
    forall c <- v.lookup ensures !Forbidden(c) {
      JoinChars(lowered, '/', c);
      if c != '/' {
        var i :| 0 <= i < |lowered| && c in lowered[i];
        assert v.display[i] in v.display;
        LowerKeeps(v.display[i], c);
      }
    }
    assert v.display[|v.display| - 1] in v.display;
    assert |lowered[0]| == |v.display[0]| && v.display[0] in v.display;
  }

  /** Two accepted paths have one key exactly when their components agree up to ASCII case. */
  lemma KeyIsFoldedComponents(a: string, b: string)
    requires Parse(a).Ok? && Parse(b).Ok?
    ensures Parse(a).value.lookup == Parse(b).value.lookup
            <==> LowerAll(Parse(a).value.display) == LowerAll(Parse(b).value.display)
  {
    KeySplits(a);
    KeySplits(b);
  }

  lemma KeySplits(input: string)
    requires Parse(input).Ok?
    ensures Split(Parse(input).value.lookup, {'/'}) == LowerAll(Parse(input).value.display)
  {
    ParsedComponents(input);
    var v := Parse(input).value;
    var lowered := LowerAll(v.display);
    forall part <- lowered ensures Free(part, {'/'}) {
      var i :| 0 <= i < |lowered| && lowered[i] == part;
      assert v.display[i] in v.display;
      forall c <- part ensures c != '/' { LowerKeeps(v.display[i], c); }
    }
    SplitJoin(lowered, '/', {'/'});
  }

  lemma {:induction false} NonEmptyOfFull(parts: seq<string>)
    requires "" !in parts
    ensures NonEmpty(parts) == parts
  {
    if parts != [] {
      assert parts[0] in parts;
      NonEmptyOfFull(parts[1..]);
    }
  }

  lemma {:induction false} Utf8LengthConcat(a: string, b: string)
    ensures Utf8Length(a + b) == Utf8Length(a) + Utf8Length(b)
  {
    if a == "" {
      assert a + b == b;
    } else {
      Utf8LengthConcat(a[1..], b);
      assert (a + b)[1..] == a[1..] + b;
    }
  }

  function Total(parts: seq<string>): nat {
    if parts == [] then 0 else Utf8Length(parts[0]) + Total(parts[1..])
  }

  lemma {:induction false} JoinLength(parts: seq<string>)
    ensures parts != [] ==> Utf8Length(Join(parts, '\\')) == Total(parts) + |parts| - 1
  {
    if |parts| > 1 {
      JoinLength(parts[1..]);
      Utf8LengthConcat(parts[0] + ['\\'], Join(parts[1..], '\\'));
      Utf8LengthConcat(parts[0], ['\\']);
    }
  }

  lemma {:induction false} NonEmptyLength(parts: seq<string>)
    ensures Total(NonEmpty(parts)) == Total(parts) && |NonEmpty(parts)| <= |parts|
  {
    if parts != [] {
      NonEmptyLength(parts[1..]);
      if parts[0] != "" { assert NonEmpty(parts)[1..] == NonEmpty(parts[1..]); }
    }
  }

  lemma {:induction false} SplitLength(s: string)
    ensures var r := Split(s, SEPARATORS); Total(r) + |r| - 1 == Utf8Length(s)
  {
    if s != "" {
      SplitLength(s[1..]);
      var r, rest := Split(s, SEPARATORS), Split(s[1..], SEPARATORS);
      if s[0] in SEPARATORS {
        assert r[1..] == rest;
      } else {
        assert r[1..] == rest[1..];
        assert ([s[0]] + rest[0])[1..] == rest[0];
      }
    }
  }

  lemma DisplayPathShape(input: string)
    requires Parse(input).Ok?
    ensures var shown := DisplayPath(Parse(input).value);
            shown != "" && shown[0] !in SEPARATORS && ':' !in shown && '\0' !in shown
  {
    var v := Parse(input).value;
    var shown := DisplayPath(v);
    ParsedComponents(input);
    forall c <- shown ensures c != ':' && c != '\0' {
      JoinChars(v.display, '\\', c);
      if c != '\\' {
        var i :| 0 <= i < |v.display| && c in v.display[i];
        assert v.display[i] in v.display;
      }
    }
    assert v.display[0] in v.display && v.display[0][0] in v.display[0];
    assert shown[0] == v.display[0][0];
  }

  lemma DisplayPathLength(input: string)
    requires Parse(input).Ok?
    ensures Utf8Length(DisplayPath(Parse(input).value)) <= MAX_PATH_LENGTH
  {
    JoinLength(Parse(input).value.display);
    NonEmptyLength(Split(input, SEPARATORS));
    SplitLength(input);
  }

  lemma NoDevice(input: string)
    requires input != "" && input[0] !in SEPARATORS
    ensures !IsDeviceOrUnc(input)
  {
    assert Upper(input)[0] == UpperChar(input[0]);
  }

  /** Showing an accepted path and reading it again gives the same path. */
  lemma DisplayPathParses(input: string)
    requires Parse(input).Ok?
    ensures Parse(DisplayPath(Parse(input).value)) == Parse(input)
  {
    hide Split, Join, Utf8Length, ValidComponent, IsDeviceOrUnc, NonEmpty;
    var v := Parse(input).value;
    ParsedComponents(input);
    SplitJoin(v.display, '\\', SEPARATORS);
    FullComponents(v.display);
    NonEmptyOfFull(v.display);
    DisplayPathLength(input);
    DisplayPathShape(input);
    NoDevice(DisplayPath(v));
  }

  lemma FullComponents(parts: seq<string>)
    requires forall part <- parts :: ValidComponent(part)
    ensures "" !in parts
  {
  }
}
