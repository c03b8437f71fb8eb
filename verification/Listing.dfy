/** Directory listings: the names of a directory's children, sorted without regard to ASCII case. */
module Listing {
  import opened Wire
  import opened StorageFormat
  import opened VirtualPaths
  import opened Namespace

  /** Lexicographic order. */
  predicate Leq(a: string, b: string) {
    a == "" || (b != "" && (a[0] < b[0] || (a[0] == b[0] && Leq(a[1..], b[1..]))))
  }

  lemma {:induction false} LeqTotal(a: string, b: string)
    ensures Leq(a, b) || Leq(b, a)
  {
    if a != "" && b != "" && a[0] == b[0] { LeqTotal(a[1..], b[1..]); }
  }

  lemma {:induction false} LeqTransitive(a: string, b: string, c: string)
    requires Leq(a, b) && Leq(b, c)
    ensures Leq(a, c)
  {
    if a != "" && a[0] == b[0] && b[0] == c[0] { LeqTransitive(a[1..], b[1..], c[1..]); }
  }

  predicate Before(a: string, b: string) {
    Leq(Lower(a), Lower(b))
  }

  predicate Sorted(names: seq<string>) {
    forall i, j :: 0 <= i < j < |names| ==> Before(names[i], names[j])
  }

  datatype Child = Dir(key: string) | File(key: string)

  ghost predicate IsChild(s: Ns, dir: string, c: Child) {
    match c case Dir(key) => key in ListedDirs(s, dir) case File(key) => key in ListedFiles(s, dir)
  }

  function NameOf(s: Ns, c: Child): string
    requires match c case Dir(key) => key in s.dirs case File(key) => key in s.files
  {
    match c case Dir(key) => s.dirs[key].display case File(key) => s.files[key].display
  }

  /** `names` are the names of `children`, one by one, in order. */
  ghost predicate NamesOf(s: Ns, dir: string, children: seq<Child>, names: seq<string>) {
    && |children| == |names|
    && (forall i :: 0 <= i < |children| ==> IsChild(s, dir, children[i]) && names[i] == NameOf(s, children[i]))
    && (forall i, j :: 0 <= i < j < |children| ==> children[i] != children[j])
    && Sorted(names)
  }

  /** Where a new name goes: after everything that does not come later. */
  method Place(names: seq<string>, name: string) returns (i: nat)
    requires Sorted(names)
    ensures i <= |names|
    ensures forall j :: 0 <= j < i ==> Before(names[j], name)
    ensures forall j :: i <= j < |names| ==> Before(name, names[j])
  {
    i := 0;
    while i < |names| && Before(names[i], name)
      invariant i <= |names| && forall j :: 0 <= j < i ==> Before(names[j], name)
    {
      i := i + 1;
    }
    forall j | i <= j < |names| ensures Before(name, names[j]) {
      LeqTotal(Lower(names[i]), Lower(name));
      if i < j { LeqTransitive(Lower(name), Lower(names[i]), Lower(names[j])); }
    }
  }

  function InsertAt<T>(s: seq<T>, i: nat, x: T): (r: seq<T>)
    requires i <= |s|
    ensures |r| == |s| + 1
    ensures forall a :: 0 <= a < |r| ==> r[a] == if a < i then s[a] else if a == i then x else s[a - 1]
  {
    s[..i] + [x] + s[i..]
  }

  lemma InsertMembers<T>(s: seq<T>, i: nat, x: T)
    requires i <= |s|
    ensures forall y :: y in InsertAt(s, i, x) <==> y == x || y in s
  {
    assert s == s[..i] + s[i..];
  }

  lemma InsertDistinct(s: seq<Child>, i: nat, x: Child)
    requires i <= |s| && x !in s && forall a, b :: 0 <= a < b < |s| ==> s[a] != s[b]
    ensures var r := InsertAt(s, i, x); forall a, b :: 0 <= a < b < |r| ==> r[a] != r[b]
  {
    assert forall a :: 0 <= a < |s| ==> s[a] in s;
  }

  lemma InsertSorted(names: seq<string>, i: nat, name: string)
    requires Sorted(names) && i <= |names|
    requires forall j :: 0 <= j < i ==> Before(names[j], name)
    requires forall j :: i <= j < |names| ==> Before(name, names[j])
    ensures Sorted(InsertAt(names, i, name))
  {
    hide Before;
  }

  lemma Inserted(s: Ns, dir: string, children: seq<Child>, names: seq<string>, c: Child, i: nat)
    requires NamesOf(s, dir, children, names) && IsChild(s, dir, c) && c !in children && i <= |names|
    requires forall j :: 0 <= j < i ==> Before(names[j], NameOf(s, c))
    requires forall j :: i <= j < |names| ==> Before(NameOf(s, c), names[j])
    ensures NamesOf(s, dir, InsertAt(children, i, c), InsertAt(names, i, NameOf(s, c)))
    ensures forall x :: x in InsertAt(children, i, c) <==> x == c || x in children
  {
    hide Before, Sorted, DirectChild;
    InsertMembers(children, i, c);
    InsertDistinct(children, i, c);
    InsertSorted(names, i, NameOf(s, c));
    var all, sorted := InsertAt(children, i, c), InsertAt(names, i, NameOf(s, c));
    forall a | 0 <= a < |all| ensures IsChild(s, dir, all[a]) && sorted[a] == NameOf(s, all[a]) {
      if a < i {
        assert all[a] == children[a] && sorted[a] == names[a];
      } else if a == i {
        assert all[a] == c && sorted[a] == NameOf(s, c);
      } else {
        assert all[a] == children[a - 1] && sorted[a] == names[a - 1];
      }
    }
  }

  /** The names of the children of a directory, each child once, in sorted order; anything else is not found. */
  method ReadDirectory(s: Ns, dir: string) returns (r: Result<seq<string>, StorageError>, ghost children: seq<Child>)
    ensures r.Ok? <==> IsDirectory(s, dir)
    ensures r.Err? ==> r == Err(NotFound)
    ensures r.Ok? ==> Sorted(r.value) && NamesOf(s, dir, children, r.value) && forall c ::
        c in children <==> IsChild(s, dir, c)
  {
    hide Before, InsertAt;
    children := [];
    if !IsDirectory(s, dir) { return Err(NotFound), []; }
    var names: seq<string> := [];
    var todo := ListedDirs(s, dir);
    while todo != {}
      invariant todo <= ListedDirs(s, dir) && NamesOf(s, dir, children, names)
      invariant forall c: Child :: c in children <==> c.Dir? && c.key in ListedDirs(s, dir) - todo
      decreases |todo|
    {
      var key :| key in todo;
      var i := Place(names, s.dirs[key].display);
      Inserted(s, dir, children, names, Dir(key), i);
      names, children := InsertAt(names, i, s.dirs[key].display), InsertAt(children, i, Dir(key));
      todo := todo - {key};
    }
    todo := ListedFiles(s, dir);
    while todo != {}
      invariant todo <= ListedFiles(s, dir) && NamesOf(s, dir, children, names)
      invariant forall c: Child :: c in children <==>
                  match c case Dir(key) => key in ListedDirs(s, dir) case File(key) => key in ListedFiles(s, dir) - todo
      decreases |todo|
    {
      var key :| key in todo;
      var i := Place(names, s.files[key].display);
      Inserted(s, dir, children, names, File(key), i);
      names, children := InsertAt(names, i, s.files[key].display), InsertAt(children, i, File(key));
      todo := todo - {key};
    }
    r := Ok(names);
  }
}
