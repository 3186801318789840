# Empty-Dir-Cleaner, modelled in Dafny

Empty-Dir-Cleaner scans a source directory for directories that hold no file at
any depth, counting directories that are empty only because everything below
them is an empty directory. It lists them in the order the walk finishes them
and, in delete mode, removes each one as soon as it is listed.

The core is the visitor `MyDirVisitor`. While `Files.walkFileTree` walks the
source depth first, the visitor keeps two things:

- `dirHasFileMap`, a map from directory path to "a file was seen below it".
  Entering a directory sets its flag to false. Each file and each entry that
  could not be read sets the flag of its parent and of every directory above it,
  up to the filesystem root, to true.
- `emptyDirList`, the directories whose flag is still false when their visit
  ends.

The model has four modules:

- `Wrappers` (`wrappers.dfy`): `Option` and `Result`.
- `FileTree` (`file_tree.dfy`): the part of the filesystem that one scan sees,
  as an immutable tree of `File`, `Failed` and `Dir` entries. Paths are
  sequences of names, and `[]` is the filesystem root. Symbolic links are not
  followed, so they are `File`s. An entry the walk cannot read is `Failed`; that
  includes a directory it cannot open. `HasFile` says that a file or an
  unreadable entry lies somewhere in a subtree, and `At` follows a relative path.
- `Classification` (`classification.dfy`): what a scan must report, stated
  without any visitor state. `EmptyDirs(base, n)` lists the file-free
  directories of `n` in post-order, with siblings in listing order. Lemmas about
  it prove the classification theorem, post-order without repetition,
  sibling order at every depth, and the two closure properties. Another lemma
  shows that each directory's subtree is one contiguous run of the report. One more lemma shows that a
  directory is listed, and so removed, only after every directory below it.
- `Edc` (`edc.dfy`): the class `MyDirVisitor` with the four callbacks and
  `UpdateDirHasFileMap`. The ancestor climb is a loop proved against the pure
  `MarkAncestors`. `WalkFileTree` and `WalkDirectory` stand in for
  `Files.walkFileTree`: a recursive pre-order/post-order walk that calls the
  callbacks in the same order. Their contracts tie the visitor's list to
  `EmptyDirs` and its removals to the same list in delete mode, and leave every
  directory of the walked entry flagged with whether a file lies below it, in
  either mode. `EmptyDirCleaner`
  models the constructor and `startCleaning`, both of which check that the
  source is a directory.

The real filesystem appears only as parameters. `Create` and `StartCleaning`
receive the answer of `isDirectory()` for the source path, which follows
symbolic links, as a boolean. `StartCleaning` also receives the entry that the
walk finds at the source without following links. That entry is usually a
directory. A link to a directory, or a directory that cannot be opened, is
visited as a single `File` or `Failed` entry, and the report is then empty.
Deletion is an abstract removal: the visitor records each removed directory in
a field `deleted`. `DescendantsListedFirst` proves that when a directory is
removed, every directory below it was removed earlier, and `ListedIffEmptyDir`
proves that no file or unreadable entry lies below it. So the directory is empty
on disk at that moment.

## Behaviour of the code worth noting

- The ancestor climb (EmptyDirCleaner.java:136-139) does not stop at the scanned
  directory. It sets the flags of the scanned directory's own ancestors, up to
  the filesystem root, to true. Those directories are never entered, so this
  never changes the report.
- A root R holding `x.txt`, an empty `a`, and `b/c` with `c` empty lists `R/a`,
  `R/b/c`, `R/b` when the entries are listed in that order
  (`RootWithFileExample`). R itself is kept.
- A failed removal is not a per-directory warning. `deleteIfExists` returning
  false is only logged. An `IOException` from it leaves `postVisitDirectory` and
  ends the whole walk at the catch on lines 51-54.

## Model

| member | source | states |
|---|---|---|
| `Edc.ParentFile` | Empty-Dir-Cleaner/src/main/java/edc/EmptyDirCleaner.java:134-138 | the parent of a path is its strict prefix one name shorter; only the filesystem root has none, which ends the climb |
| `Edc.MarkAncestors` | Empty-Dir-Cleaner/src/main/java/edc/EmptyDirCleaner.java:132-139 | after a file is seen, every strict ancestor of it, down to the filesystem root, is flagged true; every other entry is unchanged; no flag goes from true to false |
| `Edc.MarkAncestorsIdempotent` | Empty-Dir-Cleaner/src/main/java/edc/EmptyDirCleaner.java:132-139 | marking the ancestors of the same path twice has the effect of marking them once |
| `Edc.MyDirVisitor.constructor` | Empty-Dir-Cleaner/src/main/java/edc/EmptyDirCleaner.java:73-77 | a new visitor keeps the delete flag and starts with an empty map and an empty list |
| `Edc.MyDirVisitor.PreVisitDirectory` | Empty-Dir-Cleaner/src/main/java/edc/EmptyDirCleaner.java:79-83 | entering a directory sets its flag to false and changes no other entry |
| `Edc.MyDirVisitor.VisitFile` | Empty-Dir-Cleaner/src/main/java/edc/EmptyDirCleaner.java:85-98 | a file flags its parent and every ancestor true, as `MarkAncestors` says |
| `Edc.MyDirVisitor.VisitFileFailed` | Empty-Dir-Cleaner/src/main/java/edc/EmptyDirCleaner.java:100-106 | an entry that could not be read changes the map exactly as a file does |
| `Edc.MyDirVisitor.PostVisitDirectory` | Empty-Dir-Cleaner/src/main/java/edc/EmptyDirCleaner.java:108-124 | leaving a directory appends it to the list exactly when its flag is false, and removes it exactly when it was appended in delete mode; the flags are not changed |
| `Edc.MyDirVisitor.UpdateDirHasFileMap` | Empty-Dir-Cleaner/src/main/java/edc/EmptyDirCleaner.java:132-141 | the do-while climb from the parent to the filesystem root leaves the map equal to `MarkAncestors` of the old map |
| `Edc.WalkFileTree` | Empty-Dir-Cleaner/src/main/java/edc/EmptyDirCleaner.java:50 | walking any entry appends exactly its file-free directories, in post-order, to the list, in either mode; it removes the same directories in delete mode and none otherwise; it flags the ancestors true exactly when the entry holds a file and leaves all unrelated entries alone; every directory of the entry ends flagged with whether a file lies below it, and every other key at or below the entry is unchanged, none of which mentions the mode |
| `Edc.WalkDirectory` | Empty-Dir-Cleaner/src/main/java/edc/EmptyDirCleaner.java:80-121 | after pre-visit, the walk of each entry, and post-visit, a directory's flag equals whether its subtree holds a file, so it is listed exactly when it holds none; its subdirectories carry their own flags and no other key below it changes |
| `Edc.WalkEntries` | Empty-Dir-Cleaner/src/main/java/edc/EmptyDirCleaner.java:50 | walking the entries of an entered directory in listing order appends what each entry contributes, one after the other, and leaves the directory's flag equal to whether any entry holds a file; the entries' directories carry their own flags and no other key below the directory changes |
| `Edc.WalkedMapUnique` | Empty-Dir-Cleaner/src/main/java/edc/EmptyDirCleaner.java:79-139 | what the walk's contract says about the map determines it: two maps that a walk of the same tree can leave from the same start are equal |
| `Edc.ModesAgree` | Empty-Dir-Cleaner/src/main/java/edc/EmptyDirCleaner.java:73-77 | a visitor in delete mode and one in list-only mode that walk the same tree end with the same map and the same list, the file-free directories in post-order; only the removals differ |
| `Edc.EmptyDirCleaner.Create` | Empty-Dir-Cleaner/src/main/java/edc/EmptyDirCleaner.java:26-32 | a source for which `isDirectory()` is false is refused with `InvalidSrcDir`; otherwise the cleaner keeps the path and the delete flag |
| `Edc.EmptyDirCleaner.StartCleaning` | Empty-Dir-Cleaner/src/main/java/edc/EmptyDirCleaner.java:40-54 | a source for which `isDirectory()` is now false is refused before any walking; otherwise the report lists exactly the directories with no file at any depth, each once, in post-order, the same in both modes, and delete mode removes exactly those; a source the walk sees as a link or an unreadable entry gives an empty report |
| `Classification.ListedUnderBase` | Empty-Dir-Cleaner/src/main/java/edc/EmptyDirCleaner.java:80-83 | every directory listed for a walk lies at or below the directory the walk started from |
| `Classification.ListedIffEmptyDir` | Empty-Dir-Cleaner/src/main/java/edc/EmptyDirCleaner.java:109-114 | a path is listed if and only if the entry there is a directory with no file or unreadable entry at any depth below it |
| `Classification.EmptyDirsPostOrdered` | Empty-Dir-Cleaner/src/main/java/edc/EmptyDirCleaner.java:109-114 | no directory is listed twice, and none is listed before a directory below it |
| `Classification.SiblingsInListingOrder` | Empty-Dir-Cleaner/src/main/java/edc/EmptyDirCleaner.java:50 | in the list of the directory the walk starts from, what is listed below an earlier entry comes before what is listed below a later one |
| `Classification.ListedRun` | Empty-Dir-Cleaner/src/main/java/edc/EmptyDirCleaner.java:50 | the walk finishes a directory's subtree before it moves on: what is listed for any directory of the scan is one contiguous run of the whole report |
| `Classification.SiblingsInListingOrderAt` | Empty-Dir-Cleaner/src/main/java/edc/EmptyDirCleaner.java:50 | at every depth, what is listed below an earlier entry of a directory comes before what is listed below a later one in the whole report |
| `Classification.SubdirOfListedIsListed` | Empty-Dir-Cleaner/src/main/java/edc/EmptyDirCleaner.java:112-114 | every directory below a listed directory is listed too |
| `Classification.FileKeepsAncestorsUnlisted` | Empty-Dir-Cleaner/src/main/java/edc/EmptyDirCleaner.java:132-139 | a file, link or unreadable entry at any depth keeps every directory above it, up to the scanned directory, off the list |
| `Classification.DescendantsListedFirst` | Empty-Dir-Cleaner/src/main/java/edc/EmptyDirCleaner.java:114-120 | when a directory is listed, and removed in delete mode, every directory below it has been listed, and removed, before it |
| `Classification.ChainListedBottomUp` | Empty-Dir-Cleaner/src/main/java/edc/EmptyDirCleaner.java:109-114 | a chain A/B/C with no files is listed C, B, A |
| `Classification.RootWithFileExample` | Empty-Dir-Cleaner/src/main/java/edc/EmptyDirCleaner.java:109-114 | a root with a file, an empty directory `a` and a directory `b` holding only an empty `c` lists `a`, `c`, `b` and not the root |

## Left out

- The real filesystem and `Files.walkFileTree` (EmptyDirCleaner.java:50) are replaced by the `FileTree.Node` tree and the recursive `WalkFileTree`. The tree stays fixed for the whole walk, so concurrent changes on disk are not modelled.
- `Files.deleteIfExists` (EmptyDirCleaner.java:117) is modelled as an abstract removal recorded in `MyDirVisitor.deleted`. Its result and its `IOException` are not modelled. A failed removal would end the whole walk at the catch on lines 51-54. The model proves instead that each directory is empty on disk when it is removed.
- `convertListToJson` (EmptyDirCleaner.java:154-171) and the file name built on line 58 are left out. They are Gson serialisation, a file write through a library whose code is not part of this model, and the clock. `StartCleaning` returns the list that would be exported.
- All console output (EmptyDirCleaner.java:52, 56, 103, 118, 168) is left out.
- EDCApp.java and the shredder front end TheDataShredder/src/main/java/App.java are left out. They only read keyboard input and time the run, and the `TheDataShredder` class they call is not part of this model.
- Path strings are not modelled. `toAbsolutePath().toString()` (line 81) and `getAbsolutePath()` (line 137) are assumed to give the same key for the same directory, and a path is a sequence of names.
- `Edc.EmptyDirCleaner.StartCleaning` requires the entry the walk finds at the filesystem root to be a directory. A filesystem root that cannot be opened arrives as a `Failed` entry at the root and is excluded. In the source it, like a file at the root, has no parent, and `updateDirHasFileMap` would fail with a `NullPointerException` at line 137.
- `Edc.MyDirVisitor.PostVisitDirectory` requires the directory to have a flag. In the source a missing flag would throw when `get` is unboxed (line 112). The walk always sets the flag first, so this never happens.
- The lemmas about the order and uniqueness of the list (`EmptyDirsPostOrdered`, `ListedIffEmptyDir`, the closure lemmas, `DescendantsListedFirst`) assume that sibling names are distinct (`FileTree.WellFormed`), as on any filesystem. The walk's contract needs it only for what it says about the keys below the walked entry, and so do `WalkedMapUnique` and `ModesAgree`.
