/**
  Flattening a captured tree into its files and empty directories: it never meets a path twice, misses
  nothing, and gives every leaf the owner that the allocation gave its list entry.
*/
module SourceFlattening {
  import opened FileViews
  import opened Sorting
  import opened Wrappers
  import Allocation = SourceAllocation

  datatype Flat = Flat(files: seq<string>, emptyDirs: seq<string>, seen: set<string>)

  /** The walk over a directory's entries; none when a path was met before. */
  function Walk(es: seq<SourceEntry>, flat: Flat): Option<Flat> {
    if es == [] then Some(flat)
    else
      match WalkEntry(es[0], flat)
      case None => None
      case Some(next) => Walk(es[1..], next)
  }

  function WalkEntry(e: SourceEntry, flat: Flat): Option<Flat> {
    if e.path in flat.seen then None
    else
      var seen := flat.seen + {e.path};
      match e
      case File(path) => Some(Flat(flat.files + [path], flat.emptyDirs, seen))
      case Directory(path, children) =>
        Walk(children, Flat(flat.files, flat.emptyDirs + if children == [] then [path] else [], seen))
  }

  /** The files and the empty directories of the tree, each once, by path. */
  ghost predicate Lists(flat: Flat, root: SourceEntry)
    requires root.Directory?
  {
    && multiset(flat.files) == multiset(FilesOf(root.children)) && multiset(flat.emptyDirs) == multiset(EmptyOf(root.children))
    && Sorted(flat.files, StringLess) && Sorted(flat.emptyDirs, StringLess)
    && NoRepeats(flat.files + flat.emptyDirs)
  }

  /** A tree whose directories have properly named children is always flattened completely. */
  method FlattenTree(root: SourceEntry) returns (flat: Option<Flat>)
    requires root.Directory?
    ensures root.path != "" ==> flat == None
    ensures root.path == "" ==> (flat.Some? <==> Walk(root.children, Flat([], [], {})).Some?)
    ensures IsRoot(root) && Proper(root) ==> flat.Some? && Lists(flat.value, root)
  {
    if root.path != "" {
      return None;
    }
    flat := WalkMethod(root.children, Flat([], [], {}));
    if flat.None? {
      if Proper(root) {
        WalkOfTree(root);
      }
      return None;
    }
    var walked := flat.value;
    if Proper(root) {
      WalkOfTree(root);
      SortedLists(root, walked);
    }
    flat := Some(Flat(Sort(walked.files, StringLess), Sort(walked.emptyDirs, StringLess), walked.seen));
  }

  lemma {:induction false} WalkOfTree(root: SourceEntry)
    requires IsRoot(root) && Proper(root)
    ensures var r := Walk(root.children, Flat([], [], {}));
            r.Some? && r.value.files == FilesOf(root.children) && r.value.emptyDirs == EmptyOf(root.children)
  {
    WalkIsComplete(root.children, "", Flat([], [], {}));
    assert [] + FilesOf(root.children) == FilesOf(root.children) && [] + EmptyOf(root.children) == EmptyOf(root.children);
  }

  lemma StringOrder()
    ensures StrictWeakOrder(StringLess)
    ensures forall a, b :: !StringLess(a, b) && !StringLess(b, a) ==> a == b
  {
    forall a ensures !StringLess(a, a) {
      StringLessIsIrreflexive(a);
    }
    forall a, b ensures StringLess(a, b) ==> !StringLess(b, a) ensures !StringLess(a, b) && !StringLess(b, a) ==> a == b {
      StringLessIsTotal(a, b);
    }
    forall a, b, c | StringLess(a, b) && StringLess(b, c) ensures StringLess(a, c) {
      StringLessIsTransitive(a, b, c);
    }
  }

  lemma {:induction false} SortedLists(root: SourceEntry, walked: Flat)
    requires IsRoot(root) && Proper(root)
    requires walked.files == FilesOf(root.children) && walked.emptyDirs == EmptyOf(root.children)
    ensures Lists(Flat(Sort(walked.files, StringLess), Sort(walked.emptyDirs, StringLess), walked.seen), root)
  {
    StringOrder();
    SortKeepsElements(walked.files, StringLess);
    SortKeepsElements(walked.emptyDirs, StringLess);
    SortSorts(walked.files, StringLess);
    SortSorts(walked.emptyDirs, StringLess);
    ListedOnce(root.children, "");
    var files, emptyDirs := Sort(walked.files, StringLess), Sort(walked.emptyDirs, StringLess);
    SameCounts(walked.files + walked.emptyDirs, files + emptyDirs);
  }

  lemma SameCounts(a: seq<string>, b: seq<string>)
    requires multiset(a) == multiset(b) && NoRepeats(a)
    ensures NoRepeats(b)
  {
    forall i, j | 0 <= i < j < |b| ensures b[i] != b[j] {
      if b[i] == b[j] {
        CountsTwice(b, i, j);
        CountsOnce(a, b[i]);
      }
    }
  }

  lemma {:induction false} CountsOnce(a: seq<string>, x: string)
    requires NoRepeats(a)
    ensures multiset(a)[x] <= 1
  {
    if a != [] {
      assert a == [a[0]] + a[1..];
      CountsOnce(a[1..], x);
      if a[0] == x {
        assert forall i :: 0 <= i < |a[1..]| ==> a[1..][i] != x;
        assert x !in a[1..];
      }
    }
  }

  lemma CountsTwice(b: seq<string>, i: nat, j: nat)
    requires i < j < |b| && b[i] == b[j]
    ensures multiset(b)[b[i]] >= 2
  {
    assert b == b[..i] + [b[i]] + b[i + 1..j] + [b[j]] + b[j + 1..];
  }

  /** The sort need not be stable: the tree alone determines the lists. */
  lemma ListsAreUnique(a: Flat, b: Flat, root: SourceEntry)
    requires root.Directory? && Lists(a, root) && Lists(b, root)
    ensures a.files == b.files && a.emptyDirs == b.emptyDirs
  {
    StringOrder();
    SortedArrangementIsUnique(a.files, b.files, StringLess);
    SortedArrangementIsUnique(a.emptyDirs, b.emptyDirs, StringLess);
  }

  /** The same walk as a loop that adds to the lists and calls itself for subdirectories. */
  method WalkMethod(es: seq<SourceEntry>, start: Flat) returns (flat: Option<Flat>)
    ensures flat == Walk(es, start)
    decreases es
  {
    var current := start;
    var index := 0;
    while index < |es|
      invariant 0 <= index <= |es|
      invariant Walk(es, start) == Walk(es[index..], current)
    {
      var e := es[index];
      assert es[index..][1..] == es[index + 1..];
      if e.path in current.seen {
        return None;
      }
      current := Flat(current.files, current.emptyDirs, current.seen + {e.path});
      match e {
        case File(path) =>
          current := Flat(current.files + [path], current.emptyDirs, current.seen);
        case Directory(path, children) =>
          current := Flat(current.files, current.emptyDirs + (if children == [] then [path] else []), current.seen);
          var below := WalkMethod(children, current);
          if below.None? {
            return None;
          }
          current := below.value;
      }
      index := index + 1;
    }
    assert es[index..] == [];
    flat := Some(current);
  }

  // ---------------------------------------------------------------- paths are different

  /** The path is `p` or lies below it. */
  predicate Below(q: string, p: string) {
    q == p || (|q| > |p| && q[..|p|] == p && q[|p|] == '/')
  }

  lemma BelowIsTransitive(r: string, q: string, p: string)
    requires Below(r, q) && Below(q, p)
    ensures Below(r, p)
  {
    if r != q && q != p {
      assert r[..|p|] == r[..|q|][..|p|];
      assert r[|p|] == r[..|q|][|p|];
    }
  }

  /** Siblings of different names have nothing below both. */
  lemma SiblingsApart(parent: string, a: string, b: string, q: string)
    requires '/' !in a && '/' !in b && a != b && Below(q, Join(parent, a))
    ensures !Below(q, Join(parent, b))
  {
    var k := if parent == "" then 0 else |parent| + 1;
    assert Join(parent, a)[k..] == a && Join(parent, b)[k..] == b;
    var rest := q[k..];
    assert Below(rest, a);
    if Below(q, Join(parent, b)) {
      assert Below(rest, b);
      FirstNameIsOne(rest, a, b);
    }
  }

  lemma FirstNameIsOne(rest: string, a: string, b: string)
    requires '/' !in a && '/' !in b && Below(rest, a) && Below(rest, b)
    ensures a == b
  {
    assert rest[..|a|] == a && rest[..|b|] == b;
    NotShorter(rest, a, b);
    NotShorter(rest, b, a);
  }

  lemma NotShorter(rest: string, a: string, b: string)
    requires '/' !in b && Below(rest, a) && |b| <= |rest| && rest[..|b|] == b
    ensures |a| >= |b|
  {
    assert forall i :: 0 <= i < |b| ==> rest[i] == rest[..|b|][i];
    assert forall i :: 0 <= i < |b| ==> b[i] in b;
  }

  function Paths(e: SourceEntry): set<string> {
    {e.path} + match e case File(_) => {} case Directory(_, children) => PathsOf(children)
  }

  function PathsOf(es: seq<SourceEntry>): set<string> {
    if es == [] then {} else Paths(es[0]) + PathsOf(es[1..])
  }

  lemma {:induction false} PathsAreBelow(e: SourceEntry, q: string)
    requires Proper(e) && e.path != "" && q in Paths(e)
    ensures Below(q, e.path)
    decreases e, 1
  {
    if e.Directory? && q != e.path {
      ChildPathsAreBelow(e.children, e.path, q);
    }
  }

  lemma {:induction false} ChildPathsAreBelow(es: seq<SourceEntry>, parent: string, q: string)
    requires (forall i :: 0 <= i < |es| ==> Placed(es[i], parent) && Proper(es[i])) && q in PathsOf(es) && parent != ""
    ensures Below(q, parent)
    decreases es, 0
  {
    if q in Paths(es[0]) {
      var child := es[0];
      assert Placed(child, parent);
      var below := parent + "/" + EntryName(child.path);
      assert child.path == below && below[..|parent|] == parent && below[|parent|] == '/';
      PathsAreBelow(child, q);
      BelowIsTransitive(q, child.path, parent);
    } else {
      ChildPathsAreBelow(es[1..], parent, q);
    }
  }

  /** Children of one directory: placed, proper, and of different names. */
  ghost predicate Siblings(es: seq<SourceEntry>, parent: string) {
    && (forall i :: 0 <= i < |es| ==> Placed(es[i], parent) && Proper(es[i]))
    && (forall i, j :: 0 <= i < j < |es| ==> EntryName(es[i].path) != EntryName(es[j].path))
  }

  lemma {:induction false} FirstIsApart(es: seq<SourceEntry>, first: SourceEntry, parent: string)
    requires Placed(first, parent) && Proper(first) && Siblings(es, parent)
    requires forall i :: 0 <= i < |es| ==> EntryName(es[i].path) != EntryName(first.path)
    ensures Paths(first) !! PathsOf(es)
  {
    if es != [] {
      FirstIsApart(es[1..], first, parent);
      forall q | q in Paths(first) ensures q !in Paths(es[0]) {
        PathsAreBelow(first, q);
        SiblingsApart(parent, EntryName(first.path), EntryName(es[0].path), q);
        if q in Paths(es[0]) {
          PathsAreBelow(es[0], q);
        }
      }
    }
  }

  // ---------------------------------------------------------------- the walk is complete

  function FilesOf(es: seq<SourceEntry>): seq<string> {
    if es == [] then [] else EntryFiles(es[0]) + FilesOf(es[1..])
  }

  function EntryFiles(e: SourceEntry): seq<string> {
    match e case File(path) => [path] case Directory(_, children) => FilesOf(children)
  }

  function EmptyOf(es: seq<SourceEntry>): seq<string> {
    if es == [] then [] else EntryEmpty(es[0]) + EmptyOf(es[1..])
  }

  function EntryEmpty(e: SourceEntry): seq<string> {
    match e
    case File(_) => []
    case Directory(path, children) => (if children == [] then [path] else []) + EmptyOf(children)
  }

  /** No path is met twice in a proper tree, and the lists hold all files and empty directories in walk order. */
  lemma {:induction false} WalkIsComplete(es: seq<SourceEntry>, parent: string, flat: Flat)
    requires Siblings(es, parent) && flat.seen !! PathsOf(es)
    ensures Walk(es, flat) == Some(Plus(flat, FilesOf(es), EmptyOf(es), PathsOf(es)))
    decreases es, 0
  {
    if es == [] {
      assert flat.files + [] == flat.files && flat.emptyDirs + [] == flat.emptyDirs && flat.seen + {} == flat.seen;
    } else {
      WalkEntryIsComplete(es[0], parent, flat);
      FirstIsApart(es[1..], es[0], parent);
      var next := Plus(flat, EntryFiles(es[0]), EntryEmpty(es[0]), Paths(es[0]));
      WalkIsComplete(es[1..], parent, next);
      PlusTwice(flat, EntryFiles(es[0]), EntryEmpty(es[0]), Paths(es[0]), FilesOf(es[1..]), EmptyOf(es[1..]), PathsOf(es[1..]));
    }
  }

  function Plus(flat: Flat, files: seq<string>, emptyDirs: seq<string>, seen: set<string>): Flat {
    Flat(flat.files + files, flat.emptyDirs + emptyDirs, flat.seen + seen)
  }

  lemma PlusTwice(flat: Flat, f1: seq<string>, e1: seq<string>, s1: set<string>, f2: seq<string>, e2: seq<string>, s2: set<string>)
    ensures Plus(Plus(flat, f1, e1, s1), f2, e2, s2) == Plus(flat, f1 + f2, e1 + e2, s1 + s2)
  {
  }

  lemma {:induction false} WalkEntryIsComplete(e: SourceEntry, parent: string, flat: Flat)
    requires Placed(e, parent) && Proper(e) && flat.seen !! Paths(e)
    ensures WalkEntry(e, flat) == Some(Plus(flat, EntryFiles(e), EntryEmpty(e), Paths(e)))
    decreases e, 1
  {
    match e {
      case File(path) =>
        assert flat.emptyDirs + [] == flat.emptyDirs && Paths(e) == {path};
      case Directory(path, children) =>
        var own: seq<string> := if children == [] then [path] else [];
        NotBelowItself(children, path);
        assert flat.files + [] == flat.files;
        WalkIsComplete(children, path, Plus(flat, [], own, {path}));
        PlusTwice(flat, [], own, {path}, FilesOf(children), EmptyOf(children), PathsOf(children));
        assert [] + FilesOf(children) == FilesOf(children);
    }
  }

  /** No entry below a directory has the directory's own path. */
  lemma {:induction false} NotBelowItself(es: seq<SourceEntry>, parent: string)
    requires (forall i :: 0 <= i < |es| ==> Placed(es[i], parent) && Proper(es[i])) && parent != ""
    ensures parent !in PathsOf(es)
  {
    if es != [] {
      NotBelowItself(es[1..], parent);
      assert Placed(es[0], parent);
      if parent in Paths(es[0]) {
        PathsAreBelow(es[0], parent);
      }
    }
  }

  /** The lists name exactly the leaves. */
  lemma {:induction false} ListsAreLeaves(es: seq<SourceEntry>, parent: string)
    requires Siblings(es, parent)
    ensures forall p :: p in LeavesOf(es) <==> p in FilesOf(es) || p in EmptyOf(es)
    ensures forall p :: p in LeavesOf(es) ==> p in PathsOf(es)
    decreases es, 0
  {
    if es != [] {
      EntryListsAreLeaves(es[0], parent);
      ListsAreLeaves(es[1..], parent);
    }
  }

  lemma {:induction false} EntryListsAreLeaves(e: SourceEntry, parent: string)
    requires Placed(e, parent) && Proper(e)
    ensures forall p :: p in Leaves(e) <==> p in EntryFiles(e) || p in EntryEmpty(e)
    ensures forall p :: p in Leaves(e) ==> p in Paths(e)
    decreases e, 1
  {
    match e {
      case File(path) =>
      case Directory(path, children) =>
        ListsAreLeaves(children, path);
    }
  }

  /** Each leaf is listed once, as a file or as an empty directory. */
  lemma {:induction false} ListedOnce(es: seq<SourceEntry>, parent: string)
    requires Siblings(es, parent)
    ensures NoRepeats(FilesOf(es) + EmptyOf(es))
    decreases es, 0
  {
    if es != [] {
      ListedOnce(es[1..], parent);
      EntryListedOnce(es[0], parent);
      FirstIsApart(es[1..], es[0], parent);
      ListsAreLeaves(es[1..], parent);
      EntryListsAreLeaves(es[0], parent);
      Interleaved(EntryFiles(es[0]), EntryEmpty(es[0]), FilesOf(es[1..]), EmptyOf(es[1..]));
    }
  }

  lemma {:induction false} EntryListedOnce(e: SourceEntry, parent: string)
    requires Placed(e, parent) && Proper(e)
    ensures NoRepeats(EntryFiles(e) + EntryEmpty(e))
    decreases e, 1
  {
    match e {
      case File(path) =>
      case Directory(path, children) =>
        ListedOnce(children, path);
        if children != [] {
          assert EntryEmpty(e) == EmptyOf(children);
        } else {
          assert EntryFiles(e) + EntryEmpty(e) == [path];
        }
    }
  }

  ghost predicate NoRepeats(s: seq<string>) {
    forall i, j :: 0 <= i < j < |s| ==> s[i] != s[j]
  }

  lemma NoRepeatsConcat(a: seq<string>, b: seq<string>)
    ensures NoRepeats(a + b) <==> NoRepeats(a) && NoRepeats(b) && forall x :: x in a ==> x !in b
  {
    if NoRepeats(a + b) {
      assert forall i :: 0 <= i < |a| ==> (a + b)[i] == a[i];
      assert forall i :: 0 <= i < |b| ==> (a + b)[|a| + i] == b[i];
      forall i, j | 0 <= i < |a| && 0 <= j < |b| ensures a[i] != b[j] {
        assert (a + b)[i] != (a + b)[|a| + j];
      }
    }
    if NoRepeats(a) && NoRepeats(b) && forall x :: x in a ==> x !in b {
      forall i, j | 0 <= i < j < |a + b| ensures (a + b)[i] != (a + b)[j] {
        if i < |a| <= j {
          assert a[i] in a && b[j - |a|] in b;
        }
      }
    }
  }

  lemma Interleaved(a: seq<string>, b: seq<string>, c: seq<string>, d: seq<string>)
    requires NoRepeats(a + b) && NoRepeats(c + d)
    requires forall x :: x in a || x in b ==> x !in c && x !in d
    ensures NoRepeats((a + c) + (b + d))
  {
    NoRepeatsConcat(a, b);
    NoRepeatsConcat(c, d);
    NoRepeatsConcat(a, c);
    NoRepeatsConcat(b, d);
    NoRepeatsConcat(a + c, b + d);
  }

  // ---------------------------------------------------------------- owners by path

  function IndexOf(s: seq<string>, p: string): (i: nat)
    requires p in s
    ensures i < |s| && s[i] == p
  {
    if s[0] == p then 0 else 1 + IndexOf(s[1..], p)
  }

  /** The owner of a path through the list it is in; zero for paths that are not leaves. */
  function OwnerOf(files: seq<string>, emptyDirs: seq<string>, fileOwners: seq<nat>, emptyOwners: seq<nat>, p: string): nat
    requires |fileOwners| == |files| && |emptyOwners| == |emptyDirs|
  {
    if p in files then fileOwners[IndexOf(files, p)]
    else if p in emptyDirs then emptyOwners[IndexOf(emptyDirs, p)]
    else 0
  }

  /** Each list entry's own owner is what its path looks up. */
  lemma OwnerOfEntry(files: seq<string>, emptyDirs: seq<string>, fileOwners: seq<nat>, emptyOwners: seq<nat>)
    requires |fileOwners| == |files| && |emptyOwners| == |emptyDirs| && NoRepeats(files + emptyDirs)
    ensures forall i :: 0 <= i < |files| ==> OwnerOf(files, emptyDirs, fileOwners, emptyOwners, files[i]) == fileOwners[i]
    ensures forall i :: 0 <= i < |emptyDirs| ==>
              OwnerOf(files, emptyDirs, fileOwners, emptyOwners, emptyDirs[i]) == emptyOwners[i]
  {
    NoRepeatsConcat(files, emptyDirs);
  }

  /** Walking what a transfer sees in the view finds exactly the leaves whose owner it is. */
  ghost predicate ShowsOwned(root: SourceEntry, owners: Owners, v: ViewEntry) {
    forall t, p :: 1 <= t <= WORD_BITS ==> (p in VisibleLeaves(v, "", t) <==> p in Leaves(root) && owners(p) == t)
  }

  /**
    From the tree to the views: whatever owners 1 to 64 an allocation gives the listed files and empty
    directories, the views build, and a transfer's view shows exactly the list entries that are its own.
  */
  lemma {:induction false} ViewsFollowAllocation(root: SourceEntry, files: seq<string>, emptyDirs: seq<string>,
                                                 fileOwners: seq<nat>, emptyOwners: seq<nat>, owners: Owners)
    requires IsRoot(root) && Proper(root) && |fileOwners| == |files| && |emptyOwners| == |emptyDirs|
    requires multiset(files) == multiset(FilesOf(root.children)) && multiset(emptyDirs) == multiset(EmptyOf(root.children))
    requires forall i :: 0 <= i < |fileOwners| ==> 1 <= fileOwners[i] <= WORD_BITS
    requires forall i :: 0 <= i < |emptyOwners| ==> 1 <= emptyOwners[i] <= WORD_BITS
    requires forall p :: owners(p) == OwnerOf(files, emptyDirs, fileOwners, emptyOwners, p)
    ensures Build(root, owners).Some?
    ensures ShowsOwned(root, owners, Build(root, owners).value)
  {
    ListsAreLeaves(root.children, "");
    SameMembers(files, FilesOf(root.children));
    SameMembers(emptyDirs, EmptyOf(root.children));
    BuildNeedsOwners(root, owners);
    ViewsPartition(root, owners, Build(root, owners).value);
  }

  lemma SameMembers(a: seq<string>, b: seq<string>)
    requires multiset(a) == multiset(b)
    ensures forall p :: p in a <==> p in b
  {
    forall p ensures p in a <==> p in b {
      assert p in a <==> p in multiset(a);
      assert p in b <==> p in multiset(b);
    }
  }

  // ---------------------------------------------------------------- from the tree to the views

  /** The captured files with their sizes. */
  function WithSizes(files: seq<string>, size: string -> Allocation.uint64): (r: seq<Allocation.SourceFile>)
    ensures |r| == |files|
  {
    seq(|files|, i requires 0 <= i < |files| => Allocation.SourceFile(files[i], size(files[i])))
  }

  function OwnersBy(flat: Flat, a: Allocation.TransferAllocation): Owners
    requires |a.fileOwners| == |flat.files| && |a.emptyDirOwners| == |flat.emptyDirs|
  {
    p => OwnerOf(flat.files, flat.emptyDirs, a.fileOwners, a.emptyDirOwners, p)
  }

  /** Every leaf belongs to one selected transfer, and each transfer is shown exactly its own leaves. */
  ghost predicate ShownToOwners(root: SourceEntry, flat: Flat, a: Allocation.TransferAllocation, v: ViewEntry)
    requires |a.fileOwners| == |flat.files| && |a.emptyDirOwners| == |flat.emptyDirs|
  {
    && (forall p :: p in Leaves(root) ==> OwnersBy(flat, a)(p) in a.transfers)
    && ShowsOwned(root, OwnersBy(flat, a), v)
  }

  lemma {:induction false} AllocationIsShown(root: SourceEntry, flat: Flat, files: seq<Allocation.SourceFile>,
                                             weights: seq<Allocation.TransferWeight>, a: Allocation.TransferAllocation)
    requires IsRoot(root) && Proper(root) && Lists(flat, root) && |files| == |flat.files|
    requires Allocation.ValidWeights(weights) && Allocation.GreedyAllocation(files, weights, a)
    requires Allocation.ValidAllocation(files, |flat.emptyDirs|, a)
    ensures Build(root, OwnersBy(flat, a)).Some?
    ensures ShownToOwners(root, flat, a, Build(root, OwnersBy(flat, a)).value)
  {
    Allocation.OwnersAreSelected(files, |flat.emptyDirs|, weights, a);
    ViewsFollowAllocation(root, flat.files, flat.emptyDirs, a.fileOwners, a.emptyDirOwners, OwnersBy(flat, a));
    LeafOwnersAreSelected(root, flat, a);
  }

  lemma {:induction false} LeafOwnersAreSelected(root: SourceEntry, flat: Flat, a: Allocation.TransferAllocation)
    requires IsRoot(root) && Proper(root) && Lists(flat, root)
    requires |a.fileOwners| == |flat.files| && |a.emptyDirOwners| == |flat.emptyDirs|
    requires forall i :: 0 <= i < |a.fileOwners| ==> a.fileOwners[i] in a.transfers
    requires forall i :: 0 <= i < |a.emptyDirOwners| ==> a.emptyDirOwners[i] in a.transfers
    ensures forall p :: p in Leaves(root) ==> OwnersBy(flat, a)(p) in a.transfers
  {
    LeavesAreListed(root, flat);
  }

  lemma {:induction false} LeavesAreListed(root: SourceEntry, flat: Flat)
    requires IsRoot(root) && Proper(root) && Lists(flat, root)
    ensures forall p :: p in Leaves(root) ==> p in flat.files || p in flat.emptyDirs
  {
    ListsAreLeaves(root.children, "");
    SameMembers(flat.files, FilesOf(root.children));
    SameMembers(flat.emptyDirs, EmptyOf(root.children));
  }

  /**
    Flattens a captured tree, allocates its files and empty directories, and builds the views.  For every
    proper tree and all weights that were accepted this ends in views that show each leaf to the one
    transfer it was allocated to, unless there is nothing to transfer, no weight, or too many bytes.
  */
  method PrepareViews(root: SourceEntry, size: string -> Allocation.uint64, weights: seq<Allocation.TransferWeight>)
    returns (r: Result<ViewEntry, Allocation.AllocationError>, flat: Flat, allocation: Option<Allocation.TransferAllocation>)
    requires IsRoot(root) && Proper(root) && (weights == [] || Allocation.ValidWeights(weights))
    ensures Lists(flat, root)
    ensures r.Ok? ==>
              && allocation.Some? && Allocation.GreedyAllocation(WithSizes(flat.files, size), weights, allocation.value)
              && Allocation.ValidAllocation(WithSizes(flat.files, size), |flat.emptyDirs|, allocation.value)
              && ShownToOwners(root, flat, allocation.value, r.value)
    ensures r == Err(Allocation.NoTransferItems) <==> Leaves(root) == {}
    ensures r == Err(Allocation.NoWeights) <==> Leaves(root) != {} && weights == []
    ensures r.Err? && r.error !in {Allocation.NoTransferItems, Allocation.NoWeights} ==> r.error.ByteTotalOverflows?
  {
    var flattened := FlattenTree(root);
    flat, allocation := flattened.value, None;
    LeavesAreListed(root, flat);
    NoLeafNoEntry(root, flat);
    var files := WithSizes(flat.files, size);
    var made := Allocation.AllocateTransferItems(files, |flat.emptyDirs|, weights);
    if made.Err? {
      return Err(made.error), flat, None;
    }
    AllocationIsShown(root, flat, files, weights, made.value);
    var view := BuildViewDirectory("", root.children, OwnersBy(flat, made.value), root);
    r, allocation := Ok(view.value), Some(made.value);
  }

  lemma {:induction false} NoLeafNoEntry(root: SourceEntry, flat: Flat)
    requires IsRoot(root) && Proper(root) && Lists(flat, root)
    ensures Leaves(root) == {} <==> |flat.files| + |flat.emptyDirs| == 0
  {
    ListsAreLeaves(root.children, "");
    SameMembers(flat.files, FilesOf(root.children));
    SameMembers(flat.emptyDirs, EmptyOf(root.children));
    LeavesAreListed(root, flat);
    if |flat.files| > 0 {
      assert flat.files[0] in flat.files;
    }
    if |flat.emptyDirs| > 0 {
      assert flat.emptyDirs[0] in flat.emptyDirs;
    }
  }
}
