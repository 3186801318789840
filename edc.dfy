/**
 The empty-directory cleaner: a visitor driven by a depth-first walk that records,
 per directory, whether a file was seen below it, lists the directories that end
 their visit without one, and in delete mode removes each as soon as it is listed.
 */
module Edc {
  import opened Wrappers
  import opened FileTree
  import opened Classification

  /** The directory holding `p`, or None for the filesystem root. */
  function ParentFile(p: Path): (r: Option<Path>)
    ensures r.Some? <==> p != []
    ensures r.Some? ==> r.value < p && |r.value| == |p| - 1
  {
    if p == [] then None else Some(p[..|p| - 1])
  }

  /**
   The flag map after a file at `file` has been seen: every strict ancestor of
   `file`, up to and including the filesystem root, is set to true.
   */
  function MarkAncestors(m: map<Path, bool>, file: Path): (r: map<Path, bool>)
    ensures forall a :: a < file ==> a in r && r[a]
    ensures forall a :: !(a < file) ==> (a in r <==> a in m)
    ensures forall a :: a in m && !(a < file) ==> r[a] == m[a]
    ensures forall a :: a in m ==> a in r && (m[a] ==> r[a])
  {
    var ancestors := set k | 0 <= k < |file| :: file[..k];
    assert forall a :: a < file ==> a in ancestors by {
      forall a | a < file ensures a in ancestors {
        assert a == file[..|a|];
      }
    }
    map a | a in m.Keys + ancestors :: if a < file then true else m[a]
  }

  /** Marking the ancestors of the same path a second time changes nothing. */
  lemma MarkAncestorsIdempotent(m: map<Path, bool>, file: Path)
    ensures MarkAncestors(MarkAncestors(m, file), file) == MarkAncestors(m, file)
  {
  }

  /** The two maps agree on `a`: both lack it, or both hold the same flag for it. */
  predicate SameEntry(m: map<Path, bool>, m': map<Path, bool>, a: Path) {
    (a in m <==> a in m') && (a in m ==> m[a] == m'[a])
  }

  /** How the path of an entry of `p` relates to the paths around `p`. */
  lemma ChildPath(p: Path, x: Name, a: Path)
    ensures a < p + [x] <==> a <= p
    ensures p + [x] <= a ==> p < a
  {
    if a < p + [x] {
      assert a == (p + [x])[..|a|];
      if |a| <= |p| {
        assert (p + [x])[..|a|] == p[..|a|];
      }
    }
    if a <= p {
      assert a == p[..|a|] && (p + [x])[..|a|] == p[..|a|];
    }
    if p + [x] <= a {
      assert a[..|p|] == (p + [x])[..|p|] == p;
    }
  }

  class MyDirVisitor {
    const shouldDeleteImmediately: bool
    /** Per directory path: a file was seen somewhere below it. */
    var dirHasFileMap: map<Path, bool>
    /** The directories found empty, in the order their visits ended. */
    var emptyDirList: seq<Path>
    /** The directories removed from disk, in the order they were removed. */
    var deleted: seq<Path>

    constructor (shouldDeleteImmediately: bool)
      ensures this.shouldDeleteImmediately == shouldDeleteImmediately
      ensures dirHasFileMap == map[] && emptyDirList == [] && deleted == []
    {
      this.shouldDeleteImmediately := shouldDeleteImmediately;
      dirHasFileMap := map[];
      emptyDirList := [];
      deleted := [];
    }

    /** Entering a directory records that no file has been seen below it yet. */
    method PreVisitDirectory(dir: Path)
      modifies this`dirHasFileMap
      ensures dirHasFileMap == old(dirHasFileMap)[dir := false]
    {
      dirHasFileMap := dirHasFileMap[dir := false];
    }

    method VisitFile(file: Path)
      requires file != []
      modifies this`dirHasFileMap
      ensures dirHasFileMap == MarkAncestors(old(dirHasFileMap), file)
    {
      UpdateDirHasFileMap(file);
    }

    /** An entry that cannot be read counts exactly like a file. */
    method VisitFileFailed(file: Path)
      requires file != []
      modifies this`dirHasFileMap
      ensures dirHasFileMap == MarkAncestors(old(dirHasFileMap), file)
    {
      UpdateDirHasFileMap(file);
    }

    /**
     Leaving a directory whose flag is still false lists it and, in delete mode,
     removes it; the flags are only read.
     */
    method PostVisitDirectory(dir: Path)
      requires dir in dirHasFileMap
      modifies this`emptyDirList, this`deleted
      ensures emptyDirList == old(emptyDirList) + (if dirHasFileMap[dir] then [] else [dir])
      ensures deleted == old(deleted) +
        (if !dirHasFileMap[dir] && shouldDeleteImmediately then [dir] else [])
    {
      if !dirHasFileMap[dir] {
        emptyDirList := emptyDirList + [dir];
        if shouldDeleteImmediately {
          deleted := deleted + [dir];
        }
      }
    }

    /**
     Sets the flag of the parent of `file` and of every directory above it, up to
     the filesystem root, to true.
     */
    method UpdateDirHasFileMap(file: Path)
      requires file != []
      modifies this`dirHasFileMap
      ensures dirHasFileMap == MarkAncestors(old(dirHasFileMap), file)
    {
      var parentDir := ParentFile(file);
      // The first iteration always runs, as in a do-while loop.
      while parentDir.Some?
        invariant parentDir.Some? ==> parentDir.value < file && parentDir.value == file[..|parentDir.value|]
        invariant forall a :: a in dirHasFileMap <==>
          a in old(dirHasFileMap) || (a < file && Climbed(parentDir, a))
        invariant forall a :: a in dirHasFileMap ==>
          dirHasFileMap[a] == if a < file && Climbed(parentDir, a) then true else old(dirHasFileMap)[a]
        decreases if parentDir.Some? then |parentDir.value| + 1 else 0
      {
        var dir := parentDir.value;
        dirHasFileMap := dirHasFileMap[dir := true];
        parentDir := ParentFile(dir);
        forall a | a < file ensures Climbed(parentDir, a) <==> Climbed(Some(dir), a) || a == dir {
          assert a == file[..|a|];
        }
      }
    }

    /** `a` lies strictly above the directory the climb will mark next. */
    static predicate Climbed(parentDir: Option<Path>, a: Path) {
      parentDir.None? || |a| > |parentDir.value|
    }
  }

  lemma AppendAssoc(a: seq<Path>, b: seq<Path>, c: seq<Path>)
    ensures a + (b + c) == (a + b) + c
  {
  }

  /** Entries neither above nor at-or-below `p` are the same in `m` and `m'`. */
  ghost predicate OthersUnchanged(m: map<Path, bool>, m': map<Path, bool>, p: Path) {
    forall a :: !(a < p) && !(p <= a) ==> SameEntry(m, m', a)
  }

  /**
   Every directory above `p` is flagged true in `m'` when `hasFile`, and otherwise
   keeps its entry from `m`.
   */
  ghost predicate AncestorsMarked(m: map<Path, bool>, m': map<Path, bool>, p: Path, hasFile: bool) {
    forall a :: a < p ==> if hasFile then a in m' && m'[a] else SameEntry(m, m', a)
  }

  /** Walking one more entry of the directory `p` keeps the directory's frame. */
  lemma ChildWalkFrame(m0: map<Path, bool>, m1: map<Path, bool>, m2: map<Path, bool>,
                       p: Path, x: Name, seen: bool, childHasFile: bool)
    requires OthersUnchanged(m0, m1, p) && AncestorsMarked(m0, m1, p, seen)
    requires OthersUnchanged(m1, m2, p + [x]) && AncestorsMarked(m1, m2, p + [x], childHasFile)
    requires p in m1
    ensures OthersUnchanged(m0, m2, p) && AncestorsMarked(m0, m2, p, seen || childHasFile)
    ensures p in m2 && m2[p] == (m1[p] || childHasFile)
  {
    forall a | !(a < p) && !(p <= a) ensures SameEntry(m0, m2, a) {
      ChildPath(p, x, a);
      assert a != p && !(a <= p);
      assert SameEntry(m0, m1, a) && SameEntry(m1, m2, a);
    }
    forall a | a < p
      ensures if seen || childHasFile then a in m2 && m2[a] else SameEntry(m0, m2, a)
    {
      ChildPath(p, x, a);
    }
    ChildPath(p, x, p);
  }

  /** Entering `p` changes only the entry of `p`, so the frame of its entries' walk holds from before. */
  lemma EnteredFrame(m0: map<Path, bool>, m1: map<Path, bool>, m2: map<Path, bool>, p: Path, hasFile: bool)
    requires m1 == m0[p := false]
    requires OthersUnchanged(m1, m2, p) && AncestorsMarked(m1, m2, p, hasFile)
    ensures OthersUnchanged(m0, m2, p) && AncestorsMarked(m0, m2, p, hasFile)
  {
    forall a | !(a < p) && !(p <= a) ensures SameEntry(m0, m2, a) {
      assert a != p && SameEntry(m0, m1, a) && SameEntry(m1, m2, a);
    }
    forall a | a < p ensures if hasFile then a in m2 && m2[a] else SameEntry(m0, m2, a) {
      assert a != p && SameEntry(m0, m1, a);
    }
  }

  /** Every directory of `n`, whose path is `path`, holds in `m` the flag "a file lies below it". */
  ghost predicate FlagsMatch(m: map<Path, bool>, path: Path, n: Node) {
    forall rel :: At(n, rel).Some? && At(n, rel).value.Dir? ==>
      path + rel in m && m[path + rel] == HasFile(At(n, rel).value)
  }

  /** `FlagsMatch` for each of the first `i` entries of the directory at `path`. */
  ghost predicate EntriesFlagsMatch(m: map<Path, bool>, path: Path, cs: seq<Node>, i: int) {
    forall k :: 0 <= k < i && k < |cs| ==> FlagsMatch(m, path + [cs[k].name], cs[k])
  }

  /** Walking a sibling, which changes nothing outside its own line, keeps an entry's flags. */
  lemma SiblingKeepsFlags(m1: map<Path, bool>, m2: map<Path, bool>, path: Path, x: Name, y: Name, c: Node)
    requires x != y
    requires OthersUnchanged(m1, m2, path + [x]) && FlagsMatch(m1, path + [y], c)
    ensures FlagsMatch(m2, path + [y], c)
  {
    forall rel | At(c, rel).Some? && At(c, rel).value.Dir?
      ensures path + [y] + rel in m2 && m2[path + [y] + rel] == HasFile(At(c, rel).value)
    {
      var a := path + [y] + rel;
      assert a[|path|] == y && (path + [x])[|path|] == x;
      assert !(a < path + [x]) && !(path + [x] <= a);
      assert SameEntry(m1, m2, a);
    }
  }

  /** Walking entry `i` of a directory with distinct names extends `EntriesFlagsMatch` by one. */
  lemma EntriesFlagsStep(m1: map<Path, bool>, m2: map<Path, bool>, path: Path, cs: seq<Node>, i: int)
    requires 0 <= i < |cs| && DistinctNames(cs)
    requires EntriesFlagsMatch(m1, path, cs, i)
    requires OthersUnchanged(m1, m2, path + [cs[i].name]) && FlagsMatch(m2, path + [cs[i].name], cs[i])
    ensures EntriesFlagsMatch(m2, path, cs, i + 1)
  {
    forall k | 0 <= k < i ensures FlagsMatch(m2, path + [cs[k].name], cs[k]) {
      SiblingKeepsFlags(m1, m2, path, cs[i].name, cs[k].name, cs[k]);
    }
  }

  lemma FlagAt(m: map<Path, bool>, path: Path, c: Node, rel: Path, full: Path)
    requires FlagsMatch(m, path, c) && At(c, rel).Some? && At(c, rel).value.Dir?
    requires full == path + rel
    ensures full in m && m[full] == HasFile(At(c, rel).value)
  {
  }

  /** A directory's own flag and those of its entries' subtrees give the flags of its whole subtree. */
  lemma DirFlagsMatch(m: map<Path, bool>, path: Path, n: Node)
    requires n.Dir? && path in m && m[path] == HasFile(n)
    requires EntriesFlagsMatch(m, path, n.children, |n.children|)
    ensures FlagsMatch(m, path, n)
  {
    forall rel | At(n, rel).Some? && At(n, rel).value.Dir?
      ensures path + rel in m && m[path + rel] == HasFile(At(n, rel).value)
    {
      if rel == [] {
        assert path + rel == path;
      } else {
        FlagBelowEntry(m, path, n, rel);
      }
    }
  }

  /** The flag of a directory strictly below `n` comes from the entry of `n` it lies under. */
  lemma FlagBelowEntry(m: map<Path, bool>, path: Path, n: Node, rel: Path)
    requires n.Dir? && rel != [] && At(n, rel).Some? && At(n, rel).value.Dir?
    requires EntriesFlagsMatch(m, path, n.children, |n.children|)
    ensures path + rel in m && m[path + rel] == HasFile(At(n, rel).value)
  {
    var k := EntryOnPath(n, rel);
    EntryFlags(m, path, n.children, k);
    ConsPath(path, rel);
    FlagAt(m, path + [rel[0]], n.children[k], rel[1..], path + rel);
  }

  lemma ConsPath(path: Path, rel: Path)
    requires rel != []
    ensures path + [rel[0]] + rel[1..] == path + rel
  {
  }

  /** The entry of `n` that a non-empty relative path goes through. */
  lemma EntryOnPath(n: Node, rel: Path) returns (k: int)
    requires n.Dir? && rel != [] && At(n, rel).Some?
    ensures 0 <= k < |n.children| && n.children[k].name == rel[0]
    ensures At(n, rel) == At(n.children[k], rel[1..])
  {
    var c := ChildNamed(n.children, rel[0]).value;
    k :| 0 <= k < |n.children| && n.children[k] == c;
  }

  lemma EntryFlags(m: map<Path, bool>, path: Path, cs: seq<Node>, k: int)
    requires EntriesFlagsMatch(m, path, cs, |cs|) && 0 <= k < |cs|
    ensures FlagsMatch(m, path + [cs[k].name], cs[k])
  {
  }

  /** Every key at or below `path` that is not a directory of `n` is the same in `m` and `m'`. */
  ghost predicate NonDirsUnchanged(m: map<Path, bool>, m': map<Path, bool>, path: Path, n: Node) {
    forall rel :: !(At(n, rel).Some? && At(n, rel).value.Dir?) ==> SameEntry(m, m', path + rel)
  }

  /** A file or an unreadable entry changes only keys strictly above it. */
  lemma FileKeepsBelow(m: map<Path, bool>, path: Path, n: Node)
    requires !n.Dir?
    ensures NonDirsUnchanged(m, MarkAncestors(m, path), path, n)
  {
    forall rel ensures SameEntry(m, MarkAncestors(m, path), path + rel) {
      assert !(path + rel < path) by {
        assert |path + rel| >= |path|;
      }
    }
  }

  /** Entering `path` changes only its own key, which is a directory of `n`. */
  lemma EnteredKeepsBelow(m0: map<Path, bool>, m1: map<Path, bool>, m2: map<Path, bool>, path: Path, n: Node)
    requires n.Dir? && m1 == m0[path := false]
    requires NonDirsUnchanged(m1, m2, path, n)
    ensures NonDirsUnchanged(m0, m2, path, n)
  {
    forall rel | !(At(n, rel).Some? && At(n, rel).value.Dir?) ensures SameEntry(m0, m2, path + rel) {
      if rel != [] {
        assert |path + rel| > |path|;
        assert SameEntry(m0, m1, path + rel);
      }
    }
  }

  /**
   After walking entry `i` of a directory with distinct names, the keys below the
   directory that are not directories of its first `i + 1` entries are unchanged.
   */
  lemma EntriesKeepBelow(m0: map<Path, bool>, m1: map<Path, bool>, m2: map<Path, bool>,
                         path: Path, name: Name, cs: seq<Node>, i: int)
    requires 0 <= i < |cs| && DistinctNames(cs)
    requires NonDirsUnchanged(m0, m1, path, Dir(name, cs[..i]))
    requires OthersUnchanged(m1, m2, path + [cs[i].name])
    requires NonDirsUnchanged(m1, m2, path + [cs[i].name], cs[i])
    ensures NonDirsUnchanged(m0, m2, path, Dir(name, cs[..i + 1]))
  {
    var d, d' := Dir(name, cs[..i]), Dir(name, cs[..i + 1]);
    forall rel | !(At(d', rel).Some? && At(d', rel).value.Dir?) ensures SameEntry(m0, m2, path + rel) {
      if rel != [] {
        if rel[0] == cs[i].name {
          NewEntryKeepsBelow(m0, m1, m2, path, name, cs, i, rel);
        } else {
          OldEntryKeepsBelow(m0, m1, m2, path, name, cs, i, rel);
        }
      }
    }
  }

  lemma NewEntryKeepsBelow(m0: map<Path, bool>, m1: map<Path, bool>, m2: map<Path, bool>,
                           path: Path, name: Name, cs: seq<Node>, i: int, rel: Path)
    requires 0 <= i < |cs| && DistinctNames(cs) && rel != [] && rel[0] == cs[i].name
    requires NonDirsUnchanged(m0, m1, path, Dir(name, cs[..i]))
    requires NonDirsUnchanged(m1, m2, path + [cs[i].name], cs[i])
    requires !(At(Dir(name, cs[..i + 1]), rel).Some? && At(Dir(name, cs[..i + 1]), rel).value.Dir?)
    ensures SameEntry(m0, m2, path + rel)
  {
    var front := cs[..i + 1];
    assert DistinctNames(front) by {
      forall a, b | 0 <= a < b < |front| ensures front[a].name != front[b].name {
        assert front[a] == cs[a] && front[b] == cs[b];
      }
    }
    ChildNamedUnique(front, i);
    assert front[i] == cs[i];
    assert At(Dir(name, front), rel) == At(cs[i], rel[1..]);
    assert ChildNamed(cs[..i], rel[0]).None? by {
      forall k | 0 <= k < i ensures cs[..i][k].name != rel[0] {
        assert cs[..i][k] == cs[k];
      }
    }
    assert At(Dir(name, cs[..i]), rel).None?;
    assert path + [cs[i].name] + rel[1..] == path + rel;
    assert SameEntry(m1, m2, path + [cs[i].name] + rel[1..]);
  }

  lemma OldEntryKeepsBelow(m0: map<Path, bool>, m1: map<Path, bool>, m2: map<Path, bool>,
                           path: Path, name: Name, cs: seq<Node>, i: int, rel: Path)
    requires 0 <= i < |cs| && rel != [] && rel[0] != cs[i].name
    requires NonDirsUnchanged(m0, m1, path, Dir(name, cs[..i]))
    requires OthersUnchanged(m1, m2, path + [cs[i].name])
    requires !(At(Dir(name, cs[..i + 1]), rel).Some? && At(Dir(name, cs[..i + 1]), rel).value.Dir?)
    ensures SameEntry(m0, m2, path + rel)
  {
    var front := cs[..i + 1];
    ChildNamedSkipLast(front, rel[0]);
    assert front[..i] == cs[..i];
    assert At(Dir(name, front), rel) == At(Dir(name, cs[..i]), rel);
    var a, p := path + rel, path + [cs[i].name];
    assert a[|path|] == rel[0] && p[|path|] == cs[i].name;
    assert !(a < p) && !(p <= a);
    assert SameEntry(m0, m1, a);
    assert SameEntry(m1, m2, a);
  }

  /**
   What a walk of `n` from the map `m` leaves: the ancestors of `path` flagged as
   `HasFile(n)` says, every directory of `n` flagged with whether a file lies below
   it, and every other key as it was.
   */
  ghost predicate WalkedMap(m: map<Path, bool>, m': map<Path, bool>, path: Path, n: Node) {
    AncestorsMarked(m, m', path, HasFile(n)) && OthersUnchanged(m, m', path) &&
    FlagsMatch(m', path, n) && NonDirsUnchanged(m, m', path, n)
  }

  /**
   The map a walk leaves is determined by the map it starts from and the tree, so
   it is the same in delete mode and in list-only mode.
   */
  lemma WalkedMapUnique(m: map<Path, bool>, m1: map<Path, bool>, m2: map<Path, bool>, path: Path, n: Node)
    requires WalkedMap(m, m1, path, n) && WalkedMap(m, m2, path, n)
    ensures m1 == m2
  {
    forall a ensures SameEntry(m1, m2, a) {
      if a < path {
      } else if path <= a {
        var rel := a[|path|..];
        assert a == path + rel;
        if At(n, rel).Some? && At(n, rel).value.Dir? {
          FlagAt(m1, path, n, rel, a);
          FlagAt(m2, path, n, rel, a);
        } else {
          assert SameEntry(m, m1, path + rel) && SameEntry(m, m2, path + rel);
        }
      } else {
        assert SameEntry(m, m1, a) && SameEntry(m, m2, a);
      }
    }
    assert m1.Keys == m2.Keys by {
      forall a ensures a in m1.Keys <==> a in m2.Keys {
        assert SameEntry(m1, m2, a);
      }
    }
    forall a | a in m1 ensures m1[a] == m2[a] {
      assert SameEntry(m1, m2, a);
    }
  }

  /**
   A depth-first walk of `n`, whose path is `path`: a directory is entered, its
   entries are walked in listing order, and it is left; any other entry is a file
   or an entry that could not be read.
   */
  method WalkFileTree(path: Path, n: Node, v: MyDirVisitor)
    requires !n.Dir? ==> path != []
    modifies v
    ensures v.emptyDirList == old(v.emptyDirList) + EmptyDirs(path, n)
    ensures v.deleted == old(v.deleted) + (if v.shouldDeleteImmediately then EmptyDirs(path, n) else [])
    ensures n.Dir? ==> path in v.dirHasFileMap && v.dirHasFileMap[path] == HasFile(n)
    ensures AncestorsMarked(old(v.dirHasFileMap), v.dirHasFileMap, path, HasFile(n))
    ensures OthersUnchanged(old(v.dirHasFileMap), v.dirHasFileMap, path)
    ensures WellFormed(n) ==> FlagsMatch(v.dirHasFileMap, path, n)
    ensures WellFormed(n) ==> NonDirsUnchanged(old(v.dirHasFileMap), v.dirHasFileMap, path, n)
    decreases n, 3
  {
    match n
    case File(_) =>
      v.VisitFile(path);
      FileKeepsBelow(old(v.dirHasFileMap), path, n);
    case Failed(_) =>
      v.VisitFileFailed(path);
      FileKeepsBelow(old(v.dirHasFileMap), path, n);
    case Dir(_, _) =>
      WalkDirectory(path, n, v);
  }

  /** Enter the directory `n`, walk its entries in listing order, leave it. */
  method WalkDirectory(path: Path, n: Node, v: MyDirVisitor)
    requires n.Dir?
    modifies v
    ensures v.emptyDirList == old(v.emptyDirList) + EmptyDirs(path, n)
    ensures v.deleted == old(v.deleted) + (if v.shouldDeleteImmediately then EmptyDirs(path, n) else [])
    ensures path in v.dirHasFileMap && v.dirHasFileMap[path] == HasFile(n)
    ensures AncestorsMarked(old(v.dirHasFileMap), v.dirHasFileMap, path, HasFile(n))
    ensures OthersUnchanged(old(v.dirHasFileMap), v.dirHasFileMap, path)
    ensures WellFormed(n) ==> FlagsMatch(v.dirHasFileMap, path, n)
    ensures WellFormed(n) ==> NonDirsUnchanged(old(v.dirHasFileMap), v.dirHasFileMap, path, n)
    decreases n, 2
  {
    v.PreVisitDirectory(path);
    ghost var entered := v.dirHasFileMap;
    WalkEntries(path, n, v);
    EnteredFrame(old(v.dirHasFileMap), entered, v.dirHasFileMap, path, HasFile(n));
    v.PostVisitDirectory(path);
    if WellFormed(n) {
      EnteredKeepsBelow(old(v.dirHasFileMap), entered, v.dirHasFileMap, path, n);
      DirFlagsMatch(v.dirHasFileMap, path, n);
    }
  }

  /**
   The map after the first `i` entries of the entered directory `n` at `path` have
   been walked from `m`: the directory's flag is `seen`, its ancestors are flagged
   as `seen` says, nothing outside it has changed, and, when names are distinct, the
   walked entries' directories carry their flags and nothing else below it changed.
   */
  ghost predicate EntriesWalked(m: map<Path, bool>, m': map<Path, bool>, path: Path, n: Node, i: int, seen: bool)
    requires n.Dir? && 0 <= i <= |n.children|
  {
    path in m' && m'[path] == seen &&
    AncestorsMarked(m, m', path, seen) && OthersUnchanged(m, m', path) &&
    (WellFormed(n) ==>
      EntriesFlagsMatch(m', path, n.children, i) &&
      NonDirsUnchanged(m, m', path, Dir(n.name, n.children[..i])))
  }

  /**
   Walks the entries of the entered directory `n` in listing order; its flag ends
   true exactly when one of them holds a file.
   */
  method WalkEntries(path: Path, n: Node, v: MyDirVisitor)
    requires n.Dir?
    requires path in v.dirHasFileMap && !v.dirHasFileMap[path]
    modifies v
    ensures v.emptyDirList == old(v.emptyDirList) + EmptyDirsOf(path, n.children)
    ensures v.deleted == old(v.deleted) +
      (if v.shouldDeleteImmediately then EmptyDirsOf(path, n.children) else [])
    ensures path in v.dirHasFileMap && v.dirHasFileMap[path] == HasFile(n)
    ensures AncestorsMarked(old(v.dirHasFileMap), v.dirHasFileMap, path, HasFile(n))
    ensures OthersUnchanged(old(v.dirHasFileMap), v.dirHasFileMap, path)
    ensures WellFormed(n) ==> EntriesFlagsMatch(v.dirHasFileMap, path, n.children, |n.children|)
    ensures WellFormed(n) ==> NonDirsUnchanged(old(v.dirHasFileMap), v.dirHasFileMap, path, n)
    decreases n, 1
  {
    var cs := n.children;
    ghost var seen := false;
    var i := 0;
    while i < |cs|
      invariant 0 <= i <= |cs|
      invariant v.emptyDirList == old(v.emptyDirList) + EmptyDirsOf(path, cs[..i])
      invariant v.deleted == old(v.deleted) +
        (if v.shouldDeleteImmediately then EmptyDirsOf(path, cs[..i]) else [])
      invariant seen <==> exists j :: 0 <= j < i && HasFile(cs[j])
      invariant EntriesWalked(old(v.dirHasFileMap), v.dirHasFileMap, path, n, i, seen)
    {
      ghost var listed := EmptyDirsOf(path, cs[..i]);
      WalkEntry(path, n, i, v, seen, old(v.dirHasFileMap));
      seen := seen || HasFile(cs[i]);
      EmptyDirsOfStep(path, cs, i);
      ghost var below := EmptyDirs(path + [cs[i].name], cs[i]);
      AppendAssoc(old(v.emptyDirList), listed, below);
      if v.shouldDeleteImmediately {
        AppendAssoc(old(v.deleted), listed, below);
      }
      i := i + 1;
    }
    assert cs[..|cs|] == cs;
    assert Dir(n.name, cs[..|cs|]) == n;
  }

  /** Walks entry `i` of the entered directory `n`, the loop body of `WalkEntries`. */
  method WalkEntry(path: Path, n: Node, i: int, v: MyDirVisitor, ghost seen: bool, ghost m0: map<Path, bool>)
    requires n.Dir? && 0 <= i < |n.children|
    requires EntriesWalked(m0, v.dirHasFileMap, path, n, i, seen)
    modifies v
    ensures v.emptyDirList == old(v.emptyDirList) + EmptyDirs(path + [n.children[i].name], n.children[i])
    ensures v.deleted == old(v.deleted) +
      (if v.shouldDeleteImmediately then EmptyDirs(path + [n.children[i].name], n.children[i]) else [])
    ensures EntriesWalked(m0, v.dirHasFileMap, path, n, i + 1, seen || HasFile(n.children[i]))
    decreases n, 0
  {
    var cs := n.children;
    ghost var before := v.dirHasFileMap;
    WalkFileTree(path + [cs[i].name], cs[i], v);
    ghost var after := v.dirHasFileMap;
    ChildWalkFrame(m0, before, after, path, cs[i].name, seen, HasFile(cs[i]));
    if WellFormed(n) {
      EntriesFlagsStep(before, after, path, cs, i);
      EntriesKeepBelow(m0, before, after, path, n.name, cs, i);
    }
  }

  /**
   The delete flag changes nothing but the removals: two fresh visitors, one in each
   mode, that walk the same tree end with the same map and the same list.
   */
  method ModesAgree(path: Path, n: Node) returns (keep: MyDirVisitor, delete: MyDirVisitor)
    requires WellFormed(n) && (!n.Dir? ==> path != [])
    ensures !keep.shouldDeleteImmediately && delete.shouldDeleteImmediately
    ensures keep.dirHasFileMap == delete.dirHasFileMap
    ensures keep.emptyDirList == delete.emptyDirList == EmptyDirs(path, n)
    ensures keep.deleted == [] && delete.deleted == delete.emptyDirList
  {
    keep := new MyDirVisitor(false);
    delete := new MyDirVisitor(true);
    WalkFileTree(path, n, keep);
    WalkFileTree(path, n, delete);
    WalkedMapUnique(map[], keep.dirHasFileMap, delete.dirHasFileMap, path, n);
  }

  /** The one failure the caller sees: the source directory is not a directory. */
  datatype CleanError = InvalidSrcDir

  /** The outcome of a scan: the directories found empty and those removed from disk. */
  datatype Report = Report(emptyDirs: seq<Path>, removed: seq<Path>)

  class EmptyDirCleaner {
    const srcDir: Path
    const shouldDeleteImmediately: bool

    constructor (srcDir: Path, shouldDeleteImmediately: bool)
      ensures this.srcDir == srcDir && this.shouldDeleteImmediately == shouldDeleteImmediately
    {
      this.srcDir := srcDir;
      this.shouldDeleteImmediately := shouldDeleteImmediately;
    }

    /**
     Builds a cleaner for `srcDir`; `isDirectory` is what the filesystem answers,
     following symbolic links, when asked whether `srcDir` is a directory. A source
     that is not one is refused.
     */
    static method Create(srcDir: Path, isDirectory: bool, shouldDeleteImmediately: bool)
      returns (r: Result<EmptyDirCleaner, CleanError>)
      ensures r.Failure? <==> !isDirectory
      ensures r.Failure? ==> r.error == InvalidSrcDir
      ensures r.Success? ==> fresh(r.value)
      ensures r.Success? ==> r.value.srcDir == srcDir
      ensures r.Success? ==> r.value.shouldDeleteImmediately == shouldDeleteImmediately
    {
      if !isDirectory {
        return Failure(InvalidSrcDir);
      }
      var cleaner := new EmptyDirCleaner(srcDir, shouldDeleteImmediately);
      r := Success(cleaner);
    }

    /**
     Checks again that the source is a directory (`isDirectory`, the filesystem's
     answer now) and walks `entry`, what the walk finds at the source without
     following links: a directory, or a link, file or unreadable entry that it
     visits as a single entry. The directories reported are those with no file at
     any depth, each once, children before parents; the same list is reported in
     both modes, and in delete mode exactly those directories are removed.
     */
    method StartCleaning(isDirectory: bool, entry: Node) returns (r: Result<Report, CleanError>)
      requires !entry.Dir? ==> srcDir != []
      ensures r.Failure? <==> !isDirectory
      ensures r.Failure? ==> r.error == InvalidSrcDir
      ensures r.Success? ==> r.value.emptyDirs == EmptyDirs(srcDir, entry)
      ensures r.Success? ==>
        r.value.removed == if shouldDeleteImmediately then r.value.emptyDirs else []
      ensures r.Success? && !entry.Dir? ==> r.value.emptyDirs == []
      ensures r.Success? && WellFormed(entry) ==>
        PostOrdered(r.value.emptyDirs) &&
        forall rel :: srcDir + rel in r.value.emptyDirs <==> IsEmptyDirAt(entry, rel)
    {
      if !isDirectory {
        return Failure(InvalidSrcDir);
      }
      var visitor := new MyDirVisitor(shouldDeleteImmediately);
      WalkFileTree(srcDir, entry, visitor);
      r := Success(Report(visitor.emptyDirList, visitor.deleted));
      if WellFormed(entry) {
        EmptyDirsPostOrdered(srcDir, entry);
        forall rel ensures srcDir + rel in r.value.emptyDirs <==> IsEmptyDirAt(entry, rel) {
          ListedIffEmptyDir(srcDir, entry, rel);
        }
      }
    }
  }
}
