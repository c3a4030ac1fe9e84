/**
  The captured source tree, its flattening, and the per-transfer views of it: every view shows exactly
  its transfer's files and empty directories and the directories that lead to them.
*/
module FileViews {
  import opened Wrappers

  datatype SourceEntry = Directory(path: string, children: seq<SourceEntry>) | File(path: string)

  // ---------------------------------------------------------------- paths

  function Join(parent: string, name: string): string {
    if parent == "" then name else parent + "/" + name
  }

  /** The part after the last slash. */
  function EntryName(path: string): string {
    if path == "" then ""
    else if path[|path| - 1] == '/' then ""
    else EntryName(path[..|path| - 1]) + [path[|path| - 1]]
  }

  lemma {:induction false} EntryNameOfLonger(path: string, c: char)
    ensures EntryName(path + [c]) == if c == '/' then "" else EntryName(path) + [c]
  {
    assert (path + [c])[..|path|] == path;
  }

  lemma {:induction false} EntryNameAfter(start: string, name: string)
    requires '/' !in name && EntryName(start) == ""
    ensures EntryName(start + name) == name
  {
    if name == "" {
      assert start + name == start;
    } else {
      var shorter, c := name[..|name| - 1], name[|name| - 1];
      EntryNameAfter(start, shorter);
      EntryNameOfLonger(start + shorter, c);
      assert start + name == (start + shorter) + [c];
    }
  }

  lemma EntryNameOfJoin(parent: string, name: string)
    requires '/' !in name
    ensures EntryName(Join(parent, name)) == name
  {
    if parent == "" {
      EntryNameAfter("", name);
      assert "" + name == name;
    } else {
      EntryNameOfLonger(parent, '/');
      EntryNameAfter(parent + "/", name);
    }
  }

  /** The entry stands under its parent with a proper name. */
  predicate Placed(e: SourceEntry, parent: string) {
    && EntryName(e.path) != "" && '/' !in EntryName(e.path)
    && e.path == Join(parent, EntryName(e.path))
  }

  /** Children are placed under their directory and have different names. */
  ghost predicate Proper(e: SourceEntry) {
    e.Directory? ==>
      && (forall i :: 0 <= i < |e.children| ==> Placed(e.children[i], e.path) && Proper(e.children[i]))
      && (forall i, j :: 0 <= i < j < |e.children| ==> EntryName(e.children[i].path) != EntryName(e.children[j].path))
  }

  predicate IsRoot(e: SourceEntry) {
    e.Directory? && e.path == ""
  }

  // ---------------------------------------------------------------- leaves

  /** The files and the empty directories below the root: what a transfer can own. */
  function Leaves(e: SourceEntry): set<string> {
    match e
    case File(path) => {path}
    case Directory(path, children) => if children == [] && path != "" then {path} else LeavesOf(children)
  }

  function LeavesOf(es: seq<SourceEntry>): set<string> {
    if es == [] then {} else Leaves(es[0]) + LeavesOf(es[1..])
  }

  lemma {:induction false} LeavesOfMember(es: seq<SourceEntry>, p: string)
    ensures p in LeavesOf(es) <==> exists i :: 0 <= i < |es| && p in Leaves(es[i])
  {
    if es != [] {
      LeavesOfMember(es[1..], p);
      if p in LeavesOf(es[1..]) {
        var i :| 0 <= i < |es[1..]| && p in Leaves(es[1..][i]);
        assert p in Leaves(es[i + 1]);
      }
      if i :| 0 <= i < |es| && p in Leaves(es[i]) {
        if i > 0 {
          assert p in Leaves(es[1..][i - 1]);
        }
      }
    }
  }

  // ---------------------------------------------------------------- views

  /** A 64-bit word as the set of its bits that are one. */
  type Word = set<nat>

  const WORD_BITS := 64

  /** A one shifted left by the number less one; a shift past the word is zero. */
  function TransferBit(transfer: nat): Word {
    if transfer == 0 || transfer > WORD_BITS then {} else {transfer - 1}
  }

  datatype ViewEntry = ViewEntry(name: string, directory: bool, children: seq<ViewEntry>, fileOwner: nat, emptyOwner: nat,
                                 members: Word)

  predicate VisibleTo(v: ViewEntry, transfer: nat) {
    v.members * TransferBit(transfer) != {}
  }

  /** The owner of a path, with zero for none. */
  type Owners = string -> nat

  function MembersOf(vs: seq<ViewEntry>): Word {
    if vs == [] then {} else MembersOf(vs[..|vs| - 1]) + vs[|vs| - 1].members
  }

  /** The view of an entry; none when a file or an empty directory has no owner. */
  function Build(e: SourceEntry, owners: Owners): Option<ViewEntry> {
    match e
    case File(path) =>
      if owners(path) == 0 then None
      else Some(ViewEntry(EntryName(path), false, [], owners(path), 0, TransferBit(owners(path))))
    case Directory(path, children) =>
      var empty := children == [] && path != "";
      if empty && owners(path) == 0 then None
      else
        var owner := if empty then owners(path) else 0;
        match BuildEach(children, owners)
        case None => None
        case Some(views) => Some(ViewEntry(EntryName(path), true, views, 0, owner, TransferBit(owner) + MembersOf(views)))
  }

  function BuildEach(es: seq<SourceEntry>, owners: Owners): (r: Option<seq<ViewEntry>>)
    ensures r.Some? ==> |r.value| == |es|
  {
    if es == [] then Some([])
    else
      match BuildEach(es[..|es| - 1], owners)
      case None => None
      case Some(views) =>
        match Build(es[|es| - 1], owners)
        case None => None
        case Some(last) => Some(views + [last])
  }

  lemma {:induction false} BuildEachIs(es: seq<SourceEntry>, owners: Owners)
    ensures BuildEach(es, owners).Some? <==> forall i :: 0 <= i < |es| ==> Build(es[i], owners).Some?
    ensures BuildEach(es, owners).Some? ==>
              forall i :: 0 <= i < |es| ==> Build(es[i], owners) == Some(BuildEach(es, owners).value[i])
  {
    if es != [] {
      BuildEachIs(es[..|es| - 1], owners);
      assert forall i :: 0 <= i < |es| - 1 ==> es[..|es| - 1][i] == es[i];
    }
  }

  lemma {:induction false} OneMoreView(es: seq<SourceEntry>, index: nat, owners: Owners, views: seq<ViewEntry>)
    requires index < |es| && BuildEach(es[..index], owners) == Some(views)
    ensures var next := Build(es[index], owners);
            if next.None? then BuildEach(es, owners).None?
            else BuildEach(es[..index + 1], owners) == Some(views + [next.value])
                 && MembersOf(views + [next.value]) == MembersOf(views) + next.value.members
  {
    assert es[..index + 1][..index] == es[..index];
    BuildEachIs(es, owners);
    var next := Build(es[index], owners);
    if next.Some? {
      assert (views + [next.value])[..|views|] == views;
    }
  }

  method BuildViewEntry(e: SourceEntry, owners: Owners) returns (v: Option<ViewEntry>)
    ensures v == Build(e, owners)
    decreases e, 1
  {
    match e {
      case File(path) =>
        if owners(path) == 0 {
          return None;
        }
        v := Some(ViewEntry(EntryName(path), false, [], owners(path), 0, TransferBit(owners(path))));
      case Directory(path, children) =>
        v := BuildViewDirectory(path, children, owners, e);
    }
  }

  method BuildViewDirectory(path: string, children: seq<SourceEntry>, owners: Owners, ghost e: SourceEntry)
    returns (v: Option<ViewEntry>)
    requires e == Directory(path, children)
    ensures v == Build(e, owners)
    decreases e, 0
  {
    var emptyOwner := 0;
    var members: Word := {};
    if path != "" && children == [] {
      if owners(path) == 0 {
        return None;
      }
      emptyOwner := owners(path);
      members := TransferBit(emptyOwner);
    }
    ghost var own := members;
    var views: seq<ViewEntry> := [];
    var index := 0;
    while index < |children|
      invariant 0 <= index <= |children|
      invariant BuildEach(children[..index], owners) == Some(views)
      invariant members == own + MembersOf(views)
    {
      var child := BuildViewEntry(children[index], owners);
      OneMoreView(children, index, owners, views);
      if child.None? {
        return None;
      }
      views := views + [child.value];
      members := members + child.value.members;
      index := index + 1;
    }
    assert children[..index] == children;
    v := Some(ViewEntry(EntryName(path), true, views, 0, emptyOwner, members));
  }

  // ---------------------------------------------------------------- what a transfer sees

  /** The leaves reached by walking visible children from a view entry that stands at `path`. */
  function VisibleLeaves(v: ViewEntry, path: string, transfer: nat): set<string> {
    if !v.directory then {path}
    else if v.children == [] then if path == "" then {} else {path}
    else VisibleLeavesOf(v.children, path, transfer)
  }

  function VisibleLeavesOf(vs: seq<ViewEntry>, parent: string, transfer: nat): set<string> {
    if vs == [] then {}
    else
      (if VisibleTo(vs[0], transfer) then VisibleLeaves(vs[0], Join(parent, vs[0].name), transfer) else {}) +
      VisibleLeavesOf(vs[1..], parent, transfer)
  }

  /** The leaves a transfer owns. */
  function Owned(leaves: set<string>, owners: Owners, transfer: nat): set<string> {
    set p | p in leaves && owners(p) == transfer
  }

  /** Every transfer number fits into the word. */
  ghost predicate FitTheWord(owners: Owners) {
    forall p :: owners(p) <= WORD_BITS
  }

  lemma {:induction false} MembersOfMember(vs: seq<ViewEntry>, bit: nat)
    ensures bit in MembersOf(vs) <==> exists i :: 0 <= i < |vs| && bit in vs[i].members
  {
    if vs != [] {
      var before := vs[..|vs| - 1];
      MembersOfMember(before, bit);
      assert forall i :: 0 <= i < |before| ==> before[i] == vs[i];
    }
  }

  lemma OneBit(owner: nat, transfer: nat)
    requires 1 <= transfer <= WORD_BITS && owner <= WORD_BITS
    ensures TransferBit(owner) * TransferBit(transfer) != {} <==> owner == transfer
    ensures forall w: Word :: w * TransferBit(transfer) != {} <==> transfer - 1 in w
  {
    forall w: Word ensures w * TransferBit(transfer) != {} <==> transfer - 1 in w {
      assert transfer - 1 in w ==> transfer - 1 in w * TransferBit(transfer);
    }
  }

  lemma {:induction false} LeafOwner(e: SourceEntry, owners: Owners, transfer: nat, path: string)
    requires Leaves(e) == {path}
    ensures Owned(Leaves(e), owners, transfer) != {} <==> owners(path) == transfer
  {
    assert owners(path) == transfer ==> path in Owned(Leaves(e), owners, transfer);
  }

  lemma {:induction false} OwnBit(e: SourceEntry, owners: Owners, v: ViewEntry, transfer: nat)
    requires Leaves(e) == {e.path} && v.members == TransferBit(owners(e.path))
    requires 1 <= transfer <= WORD_BITS && owners(e.path) <= WORD_BITS
    ensures VisibleTo(v, transfer) <==> Owned(Leaves(e), owners, transfer) != {}
  {
    OneBit(owners(e.path), transfer);
    LeafOwner(e, owners, transfer, e.path);
  }

  /** An entry is visible to a transfer exactly when the transfer owns a leaf of it. */
  lemma {:induction false} VisibleMeansOwned(e: SourceEntry, owners: Owners, v: ViewEntry, transfer: nat)
    requires Build(e, owners) == Some(v) && FitTheWord(owners) && 1 <= transfer <= WORD_BITS
    ensures VisibleTo(v, transfer) <==> Owned(Leaves(e), owners, transfer) != {}
    decreases e
  {
    match e {
      case File(path) =>
        OwnBit(e, owners, v, transfer);
      case Directory(path, children) =>
        if children == [] && path != "" {
          assert v.members == TransferBit(owners(path));
          OwnBit(e, owners, v, transfer);
        } else {
          BuildEachIs(children, owners);
          VisibleChildMeansOwned(children, owners, v.children, transfer);
          assert v.members == MembersOf(v.children);
        }
    }
  }

  lemma {:induction false} VisibleChildMeansOwned(es: seq<SourceEntry>, owners: Owners, vs: seq<ViewEntry>, transfer: nat)
    requires |es| == |vs| && FitTheWord(owners) && 1 <= transfer <= WORD_BITS
    requires forall i :: 0 <= i < |es| ==> Build(es[i], owners) == Some(vs[i])
    ensures MembersOf(vs) * TransferBit(transfer) != {} <==> Owned(LeavesOf(es), owners, transfer) != {}
    decreases es
  {
    assert MembersOf(vs) * TransferBit(transfer) != {} <==> exists i :: 0 <= i < |vs| && VisibleTo(vs[i], transfer) by {
      OneBit(0, transfer);
      MembersOfMember(vs, transfer - 1);
      assert forall i :: 0 <= i < |vs| ==> (VisibleTo(vs[i], transfer) <==> transfer - 1 in vs[i].members);
    }
    forall i | 0 <= i < |es| ensures VisibleTo(vs[i], transfer) <==> Owned(Leaves(es[i]), owners, transfer) != {} {
      VisibleMeansOwned(es[i], owners, vs[i], transfer);
    }
    OwnedSomewhere(es, owners, transfer);
  }

  lemma {:induction false} OwnedSomewhere(es: seq<SourceEntry>, owners: Owners, transfer: nat)
    ensures Owned(LeavesOf(es), owners, transfer) != {} <==>
              exists i :: 0 <= i < |es| && Owned(Leaves(es[i]), owners, transfer) != {}
  {
    if p :| p in Owned(LeavesOf(es), owners, transfer) {
      LeavesOfMember(es, p);
      var i :| 0 <= i < |es| && p in Leaves(es[i]);
      assert p in Owned(Leaves(es[i]), owners, transfer);
    }
    if i :| 0 <= i < |es| && Owned(Leaves(es[i]), owners, transfer) != {} {
      var p :| p in Owned(Leaves(es[i]), owners, transfer);
      LeavesOfMember(es, p);
      assert p in Owned(LeavesOf(es), owners, transfer);
    }
  }

  /** Walking the visible children of a directory reaches exactly the leaves the transfer owns below it. */
  lemma {:induction false} ChildrenShowOwned(es: seq<SourceEntry>, owners: Owners, vs: seq<ViewEntry>, parent: string,
                                             transfer: nat)
    requires |es| == |vs| && FitTheWord(owners) && 1 <= transfer <= WORD_BITS
    requires forall i :: 0 <= i < |es| ==> Build(es[i], owners) == Some(vs[i]) && Placed(es[i], parent) && Proper(es[i])
    ensures VisibleLeavesOf(vs, parent, transfer) == Owned(LeavesOf(es), owners, transfer)
    decreases es, 0
  {
    if es != [] {
      ChildrenShowOwned(es[1..], owners, vs[1..], parent, transfer);
      VisibleMeansOwned(es[0], owners, vs[0], transfer);
      assert vs[0].name == EntryName(es[0].path);
      if VisibleTo(vs[0], transfer) {
        EntryShowsOwned(es[0], owners, vs[0], transfer);
      }
      assert Owned(LeavesOf(es), owners, transfer)
          == Owned(Leaves(es[0]), owners, transfer) + Owned(LeavesOf(es[1..]), owners, transfer);
    }
  }

  lemma {:induction false} EntryShowsOwned(e: SourceEntry, owners: Owners, v: ViewEntry, transfer: nat)
    requires Build(e, owners) == Some(v) && FitTheWord(owners) && 1 <= transfer <= WORD_BITS && Proper(e)
    requires VisibleTo(v, transfer) || IsRoot(e)
    ensures VisibleLeaves(v, e.path, transfer) == Owned(Leaves(e), owners, transfer)
    decreases e, 1
  {
    VisibleMeansOwned(e, owners, v, transfer);
    match e {
      case File(path) =>
      case Directory(path, children) =>
        BuildEachIs(children, owners);
        if children != [] {
          ChildrenShowOwned(children, owners, v.children, path, transfer);
        }
    }
  }

  /** Building fails exactly when some leaf has no owner. */
  lemma {:induction false} BuildNeedsOwners(e: SourceEntry, owners: Owners)
    ensures Build(e, owners).Some? <==> forall p :: p in Leaves(e) ==> owners(p) != 0
    decreases e
  {
    match e {
      case File(path) =>
      case Directory(path, children) =>
        BuildEachIs(children, owners);
        forall i | 0 <= i < |children|
          ensures Build(children[i], owners).Some? <==> forall p :: p in Leaves(children[i]) ==> owners(p) != 0
        {
          BuildNeedsOwners(children[i], owners);
        }
        forall p ensures p in LeavesOf(children) <==> exists i :: 0 <= i < |children| && p in Leaves(children[i]) {
          LeavesOfMember(children, p);
        }
    }
  }

  /**
    The views partition the tree: with every leaf owned, each transfer's walk shows exactly its own
    leaves, different transfers share none, and together they show everything.
  */
  lemma {:induction false} ViewsPartition(root: SourceEntry, owners: Owners, v: ViewEntry)
    requires IsRoot(root) && Proper(root) && FitTheWord(owners) && Build(root, owners) == Some(v)
    ensures forall t :: 1 <= t <= WORD_BITS ==> VisibleLeaves(v, "", t) == Owned(Leaves(root), owners, t)
    ensures forall t, u :: 1 <= t < u <= WORD_BITS ==> VisibleLeaves(v, "", t) !! VisibleLeaves(v, "", u)
    ensures forall p :: p in Leaves(root) ==> 1 <= owners(p) <= WORD_BITS && p in VisibleLeaves(v, "", owners(p))
  {
    forall t | 1 <= t <= WORD_BITS ensures VisibleLeaves(v, "", t) == Owned(Leaves(root), owners, t) {
      EntryShowsOwned(root, owners, v, t);
    }
    BuildNeedsOwners(root, owners);
  }

  // ---------------------------------------------------------------- looking up and listing

  ghost predicate DistinctNames(vs: seq<ViewEntry>) {
    forall i, j :: 0 <= i < j < |vs| ==> vs[i].name != vs[j].name
  }

  function Visible(vs: seq<ViewEntry>, transfer: nat): seq<ViewEntry> {
    if vs == [] then []
    else Visible(vs[..|vs| - 1], transfer) + if VisibleTo(vs[|vs| - 1], transfer) then [vs[|vs| - 1]] else []
  }

  lemma {:induction false} VisibleMembers(vs: seq<ViewEntry>, transfer: nat)
    ensures forall c :: c in Visible(vs, transfer) <==> c in vs && VisibleTo(c, transfer)
  {
    if vs != [] {
      VisibleMembers(vs[..|vs| - 1], transfer);
      assert vs == vs[..|vs| - 1] + [vs[|vs| - 1]];
    }
  }

  method VisibleChildren(v: ViewEntry, transfer: nat) returns (children: seq<ViewEntry>)
    ensures children == Visible(v.children, transfer)
  {
    children := [];
    var index := 0;
    while index < |v.children|
      invariant 0 <= index <= |v.children|
      invariant children == Visible(v.children[..index], transfer)
    {
      assert v.children[..index + 1][..index] == v.children[..index];
      if VisibleTo(v.children[index], transfer) {
        children := children + [v.children[index]];
      }
      index := index + 1;
    }
    assert v.children[..index] == v.children;
  }

  /** Looking a name up finds exactly the listed child of that name. */
  method Child(v: ViewEntry, name: string, transfer: nat) returns (found: Option<ViewEntry>)
    requires DistinctNames(v.children)
    ensures found.Some? ==>
              && found.value.name == name && found.value in Visible(v.children, transfer)
              && forall c :: c in Visible(v.children, transfer) && c.name == name ==> c == found.value
    ensures found.None? ==> forall c :: c in Visible(v.children, transfer) ==> c.name != name
  {
    VisibleMembers(v.children, transfer);
    var index := 0;
    while index < |v.children|
      invariant 0 <= index <= |v.children|
      invariant forall i :: 0 <= i < index ==> !(v.children[i].name == name && VisibleTo(v.children[i], transfer))
    {
      if v.children[index].name == name && VisibleTo(v.children[index], transfer) {
        return Some(v.children[index]);
      }
      index := index + 1;
    }
    found := None;
  }

  /** The views of proper directories have children of different names. */
  lemma ViewNamesDiffer(path: string, children: seq<SourceEntry>, owners: Owners, v: ViewEntry)
    requires Proper(Directory(path, children)) && Build(Directory(path, children), owners) == Some(v)
    ensures DistinctNames(v.children)
  {
    BuildEachIs(children, owners);
    forall i | 0 <= i < |children| ensures v.children[i].name == EntryName(children[i].path) {
      assert Build(children[i], owners) == Some(v.children[i]);
    }
  }
}
