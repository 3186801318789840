/**
 What a scan must report, stated without any visitor state: the directories of a
 tree that hold no file at any depth, in the order a depth-first walk finishes them
 (children before their parent, siblings in listing order).
 */
module Classification {
  import opened Wrappers
  import opened FileTree

  /** The file-free directories of `n`, whose own path is `base`, in post-order. */
  function EmptyDirs(base: Path, n: Node): seq<Path>
    decreases n
  {
    match n
    case Dir(_, cs) => EmptyDirsOf(base, cs) + (if HasFile(n) then [] else [base])
    case _ => []
  }

  /** The file-free directories below the entries `cs` of the directory at `base`. */
  function EmptyDirsOf(base: Path, cs: seq<Node>): seq<Path>
    decreases cs
  {
    if cs == [] then []
    else EmptyDirsOf(base, cs[..|cs| - 1]) + EmptyDirs(base + [cs[|cs| - 1].name], cs[|cs| - 1])
  }

  /** The entry at `rel` below `n` is a directory with no file anywhere under it. */
  predicate IsEmptyDirAt(n: Node, rel: Path) {
    At(n, rel).Some? && At(n, rel).value.Dir? && !HasFile(At(n, rel).value)
  }

  /**
   Post-order without repetition: a path listed earlier is neither equal to nor an
   ancestor of a path listed later.
   */
  predicate PostOrdered(s: seq<Path>) {
    forall i, j :: 0 <= i < j < |s| ==> !(s[i] <= s[j])
  }

  /** Every directory listed for a walk lies at or below the directory it started from. */
  lemma {:induction false} ListedUnderBase(base: Path, n: Node, q: Path)
    ensures q in EmptyDirs(base, n) ==> base <= q
    decreases n
  {
    if n.Dir? {
      ListedUnderEntries(base, n.children, q);
    }
  }

  /** Every directory listed below the entries of `base` lies strictly below it. */
  lemma {:induction false} ListedUnderEntries(base: Path, cs: seq<Node>, q: Path)
    ensures q in EmptyDirsOf(base, cs) ==> base < q
    decreases cs
  {
    if cs != [] {
      var k := |cs| - 1;
      ListedUnderEntries(base, cs[..k], q);
      ListedUnderBase(base + [cs[k].name], cs[k], q);
      if q in EmptyDirs(base + [cs[k].name], cs[k]) {
        assert q[..|base|] == (base + [cs[k].name])[..|base|] == base;
      }
    }
  }

  /** A path lies below the entries `cs` exactly when it lies below one of them. */
  lemma {:induction false} EmptyDirsOfMember(base: Path, cs: seq<Node>, q: Path)
    ensures q in EmptyDirsOf(base, cs) <==>
      exists i :: 0 <= i < |cs| && q in EmptyDirs(base + [cs[i].name], cs[i])
    decreases cs
  {
    if cs != [] {
      var k := |cs| - 1;
      var front := cs[..k];
      assert EmptyDirsOf(base, cs) == EmptyDirsOf(base, front) + EmptyDirs(base + [cs[k].name], cs[k]);
      EmptyDirsOfMember(base, front, q);
      assert forall i :: 0 <= i < k ==> front[i] == cs[i];
    }
  }

  /** Listing one more entry appends what lies below it. */
  lemma EmptyDirsOfStep(base: Path, cs: seq<Node>, i: int)
    requires 0 <= i < |cs|
    ensures EmptyDirsOf(base, cs[..i + 1]) == EmptyDirsOf(base, cs[..i]) + EmptyDirs(base + [cs[i].name], cs[i])
  {
    assert cs[..i + 1][..i] == cs[..i];
  }

  lemma PostOrderedConcat(a: seq<Path>, b: seq<Path>)
    requires PostOrdered(a) && PostOrdered(b)
    requires forall x, y :: x in a && y in b ==> !(x <= y)
    ensures PostOrdered(a + b)
  {
    forall i, j | 0 <= i < j < |a + b| ensures !((a + b)[i] <= (a + b)[j]) {
      if j < |a| {
        assert (a + b)[i] == a[i] && (a + b)[j] == a[j];
      } else if i >= |a| {
        assert (a + b)[i] == b[i - |a|] && (a + b)[j] == b[j - |a|];
      } else {
        assert (a + b)[i] in a && (a + b)[j] in b;
      }
    }
  }

  /** A path listed under the entry `x` of `base` continues `base` with `x`. */
  lemma ListedBelowChild(base: Path, x: Name, n: Node, q: Path)
    ensures q in EmptyDirs(base + [x], n) ==> |q| > |base| && q[|base|] == x
  {
    ListedUnderBase(base + [x], n, q);
    if q in EmptyDirs(base + [x], n) {
      assert q[..|base| + 1] == base + [x];
    }
  }

  /** Paths below two differently named siblings are never prefixes of each other. */
  lemma SiblingPathsUnrelated(base: Path, x: Name, y: Name, p: Path, q: Path)
    requires x != y && base + [x] <= p && base + [y] <= q
    ensures !(p <= q) && !(q <= p)
  {
    assert p[|base|] == x && q[|base|] == y;
  }

  /**
   The scan lists each directory at most once, and only after every listed
   directory below it: for a chain A/B/C with no files that is C, B, A.
   */
  lemma {:induction false} EmptyDirsPostOrdered(base: Path, n: Node)
    requires WellFormed(n)
    ensures PostOrdered(EmptyDirs(base, n))
    decreases n
  {
    if n.Dir? {
      EmptyDirsOfPostOrdered(base, n.children);
      var own := if HasFile(n) then [] else [base];
      forall x, y | x in EmptyDirsOf(base, n.children) && y in own ensures !(x <= y) {
        ListedUnderEntries(base, n.children, x);
      }
      PostOrderedConcat(EmptyDirsOf(base, n.children), own);
    }
  }

  lemma {:induction false} EmptyDirsOfPostOrdered(base: Path, cs: seq<Node>)
    requires DistinctNames(cs) && forall i :: 0 <= i < |cs| ==> WellFormed(cs[i])
    ensures PostOrdered(EmptyDirsOf(base, cs))
    decreases cs
  {
    if cs != [] {
      var k := |cs| - 1;
      var front := cs[..k];
      assert forall i :: 0 <= i < k ==> front[i] == cs[i];
      EmptyDirsOfPostOrdered(base, front);
      EmptyDirsPostOrdered(base + [cs[k].name], cs[k]);
      forall x, y | x in EmptyDirsOf(base, front) && y in EmptyDirs(base + [cs[k].name], cs[k])
        ensures !(x <= y)
      {
        EmptyDirsOfMember(base, front, x);
        var i :| 0 <= i < k && x in EmptyDirs(base + [front[i].name], front[i]);
        ListedUnderBase(base + [cs[i].name], cs[i], x);
        ListedUnderBase(base + [cs[k].name], cs[k], y);
        SiblingPathsUnrelated(base, cs[i].name, cs[k].name, x, y);
      }
      PostOrderedConcat(EmptyDirsOf(base, front), EmptyDirs(base + [cs[k].name], cs[k]));
    }
  }

  /** The directory a walk starts from is listed exactly when it is a directory without files. */
  lemma StartListedIffEmpty(base: Path, n: Node)
    ensures base in EmptyDirs(base, n) <==> IsEmptyDirAt(n, [])
  {
    if n.Dir? {
      ListedUnderEntries(base, n.children, base);
    }
  }

  /** Nothing is listed under a name the directory does not hold. */
  lemma MissingEntryUnlisted(base: Path, n: Node, rel: Path)
    requires n.Dir? && rel != [] && ChildNamed(n.children, rel[0]).None?
    ensures base + rel !in EmptyDirs(base, n) && At(n, rel).None?
  {
    var cs := n.children;
    var q := base + rel;
    EmptyDirsOfMember(base, cs, q);
    forall i | 0 <= i < |cs| ensures q !in EmptyDirs(base + [cs[i].name], cs[i]) {
      ListedBelowChild(base, cs[i].name, cs[i], q);
    }
  }

  /** A path under the entry named `rel[0]` is listed exactly when that entry's walk lists it. */
  lemma EntryListed(base: Path, n: Node, rel: Path, k: int)
    requires n.Dir? && DistinctNames(n.children) && rel != []
    requires 0 <= k < |n.children| && n.children[k].name == rel[0]
    ensures base + rel in EmptyDirs(base, n) <==>
      (base + [rel[0]]) + rel[1..] in EmptyDirs(base + [rel[0]], n.children[k])
  {
    var cs := n.children;
    var q := base + rel;
    assert q == (base + [rel[0]]) + rel[1..];
    EmptyDirsOfMember(base, cs, q);
    forall i | 0 <= i < |cs| && i != k ensures q !in EmptyDirs(base + [cs[i].name], cs[i]) {
      ListedBelowChild(base, cs[i].name, cs[i], q);
      assert cs[i].name != cs[k].name by {
        if i < k {} else {}
      }
    }
  }

  /**
   Classification theorem: in a well-formed tree, `base + rel` is listed exactly
   when the entry at `rel` is a directory with no file or unreadable entry at any
   depth below it.
   */
  lemma {:induction false} ListedIffEmptyDir(base: Path, n: Node, rel: Path)
    requires WellFormed(n)
    ensures base + rel in EmptyDirs(base, n) <==> IsEmptyDirAt(n, rel)
    decreases n
  {
    if rel == [] {
      assert base + rel == base;
      StartListedIffEmpty(base, n);
    } else if n.Dir? {
      match ChildNamed(n.children, rel[0])
      case None =>
        MissingEntryUnlisted(base, n, rel);
      case Some(c) =>
        var k :| 0 <= k < |n.children| && n.children[k] == c;
        EntryListed(base, n, rel, k);
        assert At(n, rel) == At(c, rel[1..]);
        ListedIffEmptyDir(base + [rel[0]], c, rel[1..]);
    }
  }

  /** Every directory below a listed directory is listed too. */
  lemma SubdirOfListedIsListed(base: Path, n: Node, rel: Path, full: Path)
    requires WellFormed(n)
    requires base + rel in EmptyDirs(base, n)
    requires rel <= full && At(n, full).Some? && At(n, full).value.Dir?
    ensures base + full in EmptyDirs(base, n)
  {
    var sub := full[|rel|..];
    assert rel + sub == full;
    ListedIffEmptyDir(base, n, rel);
    var d := At(n, rel).value;
    assert At(n, full) == At(d, sub) by {
      AtConcat(n, rel, sub);
    }
    NoFileBelow(d, sub);
    ListedIffEmptyDir(base, n, full);
  }

  /**
   An entry that is or holds a file, a link or an unreadable entry keeps itself
   and every directory above it, up to the scan root, off the list.
   */
  lemma FileKeepsAncestorsUnlisted(base: Path, n: Node, rel: Path, pre: Path)
    requires WellFormed(n)
    requires At(n, rel).Some? && HasFile(At(n, rel).value)
    requires pre <= rel
    ensures base + pre !in EmptyDirs(base, n)
  {
    var rest := rel[|pre|..];
    assert pre + rest == rel;
    AtConcat(n, pre, rest);
    HasFileUpward(At(n, pre).value, rest);
    ListedIffEmptyDir(base, n, pre);
  }

  /**
   When a directory is listed (and, in delete mode, removed), every directory
   below it has already been listed (and removed) before it.
   */
  lemma DescendantsListedFirst(base: Path, n: Node, i: int, rel: Path, full: Path)
    requires WellFormed(n)
    requires 0 <= i < |EmptyDirs(base, n)| && EmptyDirs(base, n)[i] == base + rel
    requires rel < full && At(n, full).Some? && At(n, full).value.Dir?
    ensures base + full in EmptyDirs(base, n)[..i]
  {
    var list := EmptyDirs(base, n);
    SubdirOfListedIsListed(base, n, rel, full);
    var j :| 0 <= j < |list| && list[j] == base + full;
    EmptyDirsPostOrdered(base, n);
    assert list[i] <= list[j] && list[i] != list[j] by {
      assert (base + full)[..|base + rel|] == base + full[..|rel|];
    }
    assert j < i;
    assert list[j] == list[..i][j];
  }

  /** The directories below the first `k` entries are listed before all others. */
  lemma {:induction false} EmptyDirsOfPrefix(base: Path, cs: seq<Node>, k: int)
    requires 0 <= k <= |cs|
    ensures EmptyDirsOf(base, cs[..k]) <= EmptyDirsOf(base, cs)
    decreases cs
  {
    if k == |cs| {
      assert cs[..k] == cs;
    } else {
      var front := cs[..|cs| - 1];
      EmptyDirsOfPrefix(base, front, k);
      assert front[..k] == cs[..k];
    }
  }

  /**
   Siblings are finished in listing order: whatever is listed below an earlier
   entry of a directory comes before whatever is listed below a later one.
   */
  lemma SiblingsInListingOrder(base: Path, n: Node, i: int, j: int, x: Path, y: Path)
    requires n.Dir? && 0 <= i < j < |n.children|
    requires x in EmptyDirs(base + [n.children[i].name], n.children[i])
    requires y in EmptyDirs(base + [n.children[j].name], n.children[j])
    ensures exists k1, k2 ::
      0 <= k1 < k2 < |EmptyDirs(base, n)| && EmptyDirs(base, n)[k1] == x && EmptyDirs(base, n)[k2] == y
  {
    var cs := n.children;
    var before := EmptyDirsOf(base, cs[..j]);
    var under := EmptyDirs(base + [cs[j].name], cs[j]);
    assert x in before by {
      EmptyDirsOfMember(base, cs[..j], x);
      assert cs[..j][i] == cs[i];
    }
    assert before + under <= EmptyDirs(base, n) by {
      EmptyDirsOfStep(base, cs, j);
      EmptyDirsOfPrefix(base, cs, j + 1);
    }
    OrderedInPrefix(EmptyDirs(base, n), before, under, x, y);
  }

  /** Anything in the first part of a prefix comes before anything in its second part. */
  lemma OrderedInPrefix(list: seq<Path>, before: seq<Path>, under: seq<Path>, x: Path, y: Path)
    requires before + under <= list && x in before && y in under
    ensures exists k1, k2 :: 0 <= k1 < k2 < |list| && list[k1] == x && list[k2] == y
  {
    var k1 :| 0 <= k1 < |before| && before[k1] == x;
    var k2 :| 0 <= k2 < |under| && under[k2] == y;
    assert list[k1] == (before + under)[k1];
    assert list[|before| + k2] == (before + under)[|before| + k2];
  }

  /** What is listed below one entry of a directory is one contiguous run of the directory's entries' list. */
  lemma EntryRun(base: Path, cs: seq<Node>, k: int) returns (pre: seq<Path>, post: seq<Path>)
    requires 0 <= k < |cs|
    ensures EmptyDirsOf(base, cs) == pre + EmptyDirs(base + [cs[k].name], cs[k]) + post
  {
    pre := EmptyDirsOf(base, cs[..k]);
    var mid := EmptyDirs(base + [cs[k].name], cs[k]);
    EmptyDirsOfStep(base, cs, k);
    EmptyDirsOfPrefix(base, cs, k + 1);
    var all := EmptyDirsOf(base, cs);
    post := all[|pre + mid|..];
    assert all == (pre + mid) + post;
  }

  /**
   A directory's subtree is finished before the walk moves on: what is listed for
   the directory at `rel` is one contiguous run of the whole report.
   */
  lemma ListedRun(base: Path, n: Node, rel: Path)
    requires At(n, rel).Some?
    ensures exists pre, post :: EmptyDirs(base, n) == pre + EmptyDirs(base + rel, At(n, rel).value) + post
  {
    var pre, post := ListedRunParts(base, n, rel);
  }

  /** `ListedRun`, with the parts before and after the run named. */
  lemma {:induction false} ListedRunParts(base: Path, n: Node, rel: Path) returns (pre: seq<Path>, post: seq<Path>)
    requires At(n, rel).Some?
    ensures EmptyDirs(base, n) == pre + EmptyDirs(base + rel, At(n, rel).value) + post
    decreases |rel|
  {
    if rel == [] {
      pre, post := [], [];
      assert base + rel == base;
    } else {
      var cs := n.children;
      var c := ChildNamed(cs, rel[0]).value;
      var k :| 0 <= k < |cs| && cs[k] == c;
      var below := base + [rel[0]];
      var mid := EmptyDirs(base + rel, At(n, rel).value);
      assert At(n, rel) == At(c, rel[1..]);
      assert below + rel[1..] == base + rel;
      var pre1, post1 := ListedRunParts(below, c, rel[1..]);
      var pre0, post0 := EntryRun(base, cs, k);
      var tail := if HasFile(n) then [] else [base];
      SpliceRun(EmptyDirsOf(base, cs), pre0, EmptyDirs(below, c), post0, pre1, mid, post1, tail);
      pre, post := pre0 + pre1, post1 + post0 + tail;
    }
  }

  /** A run inside a run of a sequence is a run of the sequence, whatever is appended after it. */
  lemma SpliceRun(outer: seq<Path>, pre0: seq<Path>, inner: seq<Path>, post0: seq<Path>,
                  pre1: seq<Path>, mid: seq<Path>, post1: seq<Path>, tail: seq<Path>)
    requires outer == pre0 + inner + post0 && inner == pre1 + mid + post1
    ensures outer + tail == (pre0 + pre1) + mid + (post1 + post0 + tail)
  {
  }

  /**
   Siblings are finished in listing order at every depth: below any directory of
   the scan, whatever is listed under an earlier entry comes before whatever is
   listed under a later one in the whole report.
   */
  lemma SiblingsInListingOrderAt(base: Path, n: Node, rel: Path, i: int, j: int, x: Path, y: Path)
    requires At(n, rel).Some? && At(n, rel).value.Dir?
    requires 0 <= i < j < |At(n, rel).value.children|
    requires x in EmptyDirs(base + rel + [At(n, rel).value.children[i].name], At(n, rel).value.children[i])
    requires y in EmptyDirs(base + rel + [At(n, rel).value.children[j].name], At(n, rel).value.children[j])
    ensures exists k1, k2 ::
      0 <= k1 < k2 < |EmptyDirs(base, n)| && EmptyDirs(base, n)[k1] == x && EmptyDirs(base, n)[k2] == y
  {
    var d := At(n, rel).value;
    var mid := EmptyDirs(base + rel, d);
    SiblingsInListingOrder(base + rel, d, i, j, x, y);
    var k1, k2 :| 0 <= k1 < k2 < |mid| && mid[k1] == x && mid[k2] == y;
    var pre, post := ListedRunParts(base, n, rel);
    assert EmptyDirs(base, n)[|pre| + k1] == x;
    assert EmptyDirs(base, n)[|pre| + k2] == y;
  }

  /** A chain A/B/C of directories without files is listed C, B, A. */
  lemma ChainListedBottomUp()
    ensures EmptyDirs(["A"], Dir("A", [Dir("B", [Dir("C", [])])])) ==
      [["A", "B", "C"], ["A", "B"], ["A"]]
  {
    var c := Dir("C", []);
    var b := Dir("B", [c]);
    assert EmptyDirs(["A", "B", "C"], c) == [["A", "B", "C"]];
    assert EmptyDirsOf(["A", "B"], [c]) == [["A", "B", "C"]] by {
      assert [c][..0] == [] && ["A", "B"] + [c.name] == ["A", "B", "C"];
    }
    assert EmptyDirsOf(["A"], [b]) == [["A", "B", "C"], ["A", "B"]] by {
      assert [b][..0] == [] && ["A"] + [b.name] == ["A", "B"];
    }
  }

  /** A directory whose only entry is an empty directory: both are listed, the entry first. */
  lemma OnlyEmptyEntryExample()
    ensures EmptyDirs(["R", "b"], Dir("b", [Dir("c", [])])) == [["R", "b", "c"], ["R", "b"]]
  {
    var c := Dir("c", []);
    EmptyDirsOfStep(["R", "b"], [c], 0);
    assert [c][..1] == [c] && [c][..0] == [];
    assert ["R", "b"] + [c.name] == ["R", "b", "c"];
  }

  /**
   A root R holding the file x.txt, the empty directory a and the directory b whose
   only entry is the empty directory c: R is kept, a, c and b are listed in that order.
   */
  lemma RootWithFileExample()
    ensures EmptyDirs(["R"], Dir("R", [File("x.txt"), Dir("a", []), Dir("b", [Dir("c", [])])])) ==
      [["R", "a"], ["R", "b", "c"], ["R", "b"]]
  {
    var x, a, b := File("x.txt"), Dir("a", []), Dir("b", [Dir("c", [])]);
    var cs := [x, a, b];
    assert HasFile(Dir("R", cs)) by {
      assert HasFile(cs[0]);
    }
    assert EmptyDirsOf(["R"], cs[..2]) == [["R", "a"]] by {
      FileThenEmptyExample();
      assert cs[..2] == [x, a];
    }
    OnlyEmptyEntryExample();
    EmptyDirsOfStep(["R"], cs, 2);
    assert cs[..3] == cs;
    assert ["R"] + [cs[2].name] == ["R", "b"];
  }

  lemma FileThenEmptyExample()
    ensures EmptyDirsOf(["R"], [File("x.txt"), Dir("a", [])]) == [["R", "a"]]
  {
    var cs := [File("x.txt"), Dir("a", [])];
    EmptyDirsOfStep(["R"], cs, 0);
    EmptyDirsOfStep(["R"], cs, 1);
    assert cs[..0] == [] && cs[..2] == cs;
    assert ["R"] + [cs[1].name] == ["R", "a"];
  }
}
