/**
 The part of the filesystem that one scan sees, as an immutable tree.

 A path is the sequence of names from the filesystem root, so `[]` is the root
 itself and `p[..|p| - 1]` is the parent of a non-empty path `p`.
 A symbolic link is not followed by the walk and arrives as a `File`; an entry
 the walk cannot read or open (an unreadable directory included) arrives as
 `Failed`.
 */
module FileTree {
  import opened Wrappers

  type Name = string

  type Path = seq<Name>

  datatype Node =
    | File(name: Name)
    | Failed(name: Name)
    | Dir(name: Name, children: seq<Node>)

  /** A regular file, a link or an unreadable entry lies somewhere in `n`. */
  predicate HasFile(n: Node) {
    match n
    case File(_) => true
    case Failed(_) => true
    case Dir(_, cs) => exists i :: 0 <= i < |cs| && HasFile(cs[i])
  }

  /** No two entries of one directory share a name, as on any real filesystem. */
  predicate DistinctNames(cs: seq<Node>) {
    forall i, j :: 0 <= i < j < |cs| ==> cs[i].name != cs[j].name
  }

  predicate WellFormed(n: Node) {
    match n
    case Dir(_, cs) => DistinctNames(cs) && forall i :: 0 <= i < |cs| ==> WellFormed(cs[i])
    case _ => true
  }

  /** The first entry of `cs` called `x`. */
  function ChildNamed(cs: seq<Node>, x: Name): (r: Option<Node>)
    ensures r.Some? ==> r.value in cs && r.value.name == x
    ensures r.None? <==> forall i :: 0 <= i < |cs| ==> cs[i].name != x
  {
    if cs == [] then None
    else if cs[0].name == x then Some(cs[0])
    else ChildNamed(cs[1..], x)
  }

  /** The entry reached from `n` by following the names of `rel`, if any. */
  function At(n: Node, rel: Path): Option<Node>
    decreases |rel|
  {
    if rel == [] then Some(n)
    else if !n.Dir? then None
    else match ChildNamed(n.children, rel[0])
      case None => None
      case Some(c) => At(c, rel[1..])
  }

  /** In a directory with distinct names, a name finds exactly the entry carrying it. */
  lemma {:induction false} ChildNamedUnique(cs: seq<Node>, i: int)
    requires DistinctNames(cs) && 0 <= i < |cs|
    ensures ChildNamed(cs, cs[i].name) == Some(cs[i])
  {
    if i > 0 {
      assert cs[0].name != cs[i].name;
      assert DistinctNames(cs[1..]) by {
        forall a, b | 0 <= a < b < |cs| - 1 ensures cs[1..][a].name != cs[1..][b].name {
          assert cs[1..][a] == cs[a + 1] && cs[1..][b] == cs[b + 1];
        }
      }
      ChildNamedUnique(cs[1..], i - 1);
    }
  }

  /** A name that the last entry does not carry finds the same entry without it. */
  lemma {:induction false} ChildNamedSkipLast(cs: seq<Node>, x: Name)
    requires cs != [] && cs[|cs| - 1].name != x
    ensures ChildNamed(cs, x) == ChildNamed(cs[..|cs| - 1], x)
  {
    if cs[0].name != x {
      var front := cs[..|cs| - 1];
      if |cs| > 1 {
        ChildNamedSkipLast(cs[1..], x);
        assert cs[1..][..|cs| - 2] == front[1..];
      } else {
        assert front == [];
      }
    }
  }

  /** Following `rel` and then `sub` is following `rel + sub`. */
  lemma {:induction false} AtConcat(n: Node, rel: Path, sub: Path)
    ensures At(n, rel + sub) == if At(n, rel).Some? then At(At(n, rel).value, sub) else None
    decreases |rel|
  {
    if rel == [] {
      assert rel + sub == sub;
    } else {
      assert (rel + sub)[0] == rel[0] && (rel + sub)[1..] == rel[1..] + sub;
      if n.Dir? {
        match ChildNamed(n.children, rel[0])
        case None =>
        case Some(c) => AtConcat(c, rel[1..], sub);
      }
    }
  }

  /** A file below an entry makes the entry itself hold a file. */
  lemma {:induction false} HasFileUpward(n: Node, rel: Path)
    requires At(n, rel).Some? && HasFile(At(n, rel).value)
    ensures HasFile(n)
    decreases |rel|
  {
    if rel != [] {
      var c := ChildNamed(n.children, rel[0]).value;
      HasFileUpward(c, rel[1..]);
      var i :| 0 <= i < |n.children| && n.children[i] == c;
    }
  }

  /** Nothing below an entry without files holds a file. */
  lemma NoFileBelow(n: Node, rel: Path)
    requires !HasFile(n) && At(n, rel).Some?
    ensures !HasFile(At(n, rel).value)
  {
    if HasFile(At(n, rel).value) {
      HasFileUpward(n, rel);
    }
  }
}
