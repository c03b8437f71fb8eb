/** Namespace keys: strings of components separated by `/`, their parents and subtrees. */
module Keys {
  import opened Wire

  /** Index of the last `/`, if any. */
  function LastSlash(key: string): (r: Option<nat>)
    ensures r.Some? ==> r.value < |key| && key[r.value] == '/' && forall i :: r.value < i < |key| ==> key[i] != '/'
    ensures r.None? ==> '/' !in key
  {
    if key == "" then None
    else if key[|key| - 1] == '/' then Some(|key| - 1)
    else LastSlash(key[..|key| - 1])
  }

  lemma LastSlashIs(key: string, i: nat)
    requires i < |key| && key[i] == '/' && forall j :: i < j < |key| ==> key[j] != '/'
    ensures LastSlash(key) == Some(i)
  {
    assert key[i] in key;
  }

  /** The key of the enclosing directory; top-level keys have none. */
  function ParentKey(key: string): Option<string> {
    match LastSlash(key) case None => None case Some(i) => Some(key[..i])
  }

  /** `key` lies strictly below `dir`: it starts with `dir` followed by `/`. */
  predicate IsUnder(key: string, dir: string) {
    |key| > |dir| && key[..|dir|] == dir && key[|dir|] == '/'
  }

  predicate InTree(key: string, dir: string) {
    key == dir || IsUnder(key, dir)
  }

  lemma ParentIsAbove(key: string)
    requires ParentKey(key).Some?
    ensures IsUnder(key, ParentKey(key).value)
  {
  }

  /** The parent of a key below `dir` is `dir` or lies below it too. */
  lemma ParentStaysUnder(key: string, dir: string)
    requires IsUnder(key, dir)
    ensures ParentKey(key).Some? && InTree(ParentKey(key).value, dir)
  {
    assert key[|dir|] in key;
    var i := LastSlash(key).value;
    assert i >= |dir|;
    assert key[..i][..|dir|] == key[..|dir|];
  }

  /** Where a key of the tree at `source` goes when the tree moves to `target`. */
  function Moved(key: string, source: string, target: string): string
    requires InTree(key, source)
  {
    target + key[|source|..]
  }

  lemma MovedBack(key: string, source: string, target: string)
    requires InTree(key, source)
    ensures InTree(Moved(key, source, target), target)
    ensures Moved(Moved(key, source, target), target, source) == key
    ensures IsUnder(key, source) ==> IsUnder(Moved(key, source, target), target)
    ensures key == source ==> Moved(key, source, target) == target
  {
    var m := Moved(key, source, target);
    assert m[..|target|] == target && m[|target|..] == key[|source|..];
    assert key == source + key[|source|..];
    if key == source {
      assert key[|source|..] == "";
    } else {
      assert m[|target|] == key[|source|];
    }
  }

  lemma MovedInjective(a: string, b: string, source: string, target: string)
    requires InTree(a, source) && InTree(b, source) && Moved(a, source, target) == Moved(b, source, target)
    ensures a == b
  {
    MovedBack(a, source, target);
    MovedBack(b, source, target);
  }

  /** Moving commutes with taking the parent. */
  lemma MovedParent(key: string, source: string, target: string)
    requires IsUnder(key, source)
    ensures ParentKey(key).Some? && InTree(ParentKey(key).value, source)
    ensures ParentKey(Moved(key, source, target)) == Some(Moved(ParentKey(key).value, source, target))
  {
    ParentStaysUnder(key, source);
    var i := LastSlash(key).value;
    var m := Moved(key, source, target);
    var j := i - |source| + |target|;
    assert i >= |source|;
    assert m[j] == key[i];
    assert forall k :: j < k < |m| ==> m[k] == key[k - |target| + |source|];
    LastSlashIs(m, j);
    assert m[..j] == target + key[|source|..i];
    assert key[..i][|source|..] == key[|source|..i];
  }
}
