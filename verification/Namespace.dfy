/**
 The directory tree: attributes by path, and the listing each directory carries
 in its own attribute. The operations update the two separately.
 */
module Namespace {

  /** The components of an absolute path; [] is the root. */
  type Path = seq<string>

  datatype Kind = Blank | Regular | Directory | Link

  /** fattribute: the mode's file type, st_uid, and `list`, which holds a directory's entries or a link's target. */
  datatype Attribute = Attribute(kind: Kind, owner: nat, list: seq<string>)

  type Tree = map<Path, Attribute>

  const FRESH := Attribute(Blank, 0, [])
  const ROOT: Tree := map[[] := Attribute(Directory, 0, [])]
  const MAX_NAME := 255

  datatype Result =
    | Ok
    | NameTooLong    // -ENAMETOOLONG
    | AccessDenied   // -EACCES
    | LookupFailed   // lookup_e leaves the operation half done
    | Undefined      // list::erase(end())

  function Parent(p: Path): Path
    requires p != []
  {
    p[..|p| - 1]
  }

  function Leaf(p: Path): string
    requires p != []
  {
    p[|p| - 1]
  }

  /** metadata_sink_[p]: a blank attribute when there is none. */
  function At(t: Tree, p: Path): Attribute {
    if p in t then t[p] else FRESH
  }

  function Occurrences(list: seq<string>, name: string): nat { multiset(list)[name] }

  /** How often p's parent names p. */
  function Listed(t: Tree, p: Path): nat
    requires p != []
  {
    Occurrences(At(t, Parent(p)).list, Leaf(p))
  }

  predicate IsDirectory(t: Tree, p: Path) { At(t, p).kind.Directory? }

  /** `list::remove`: every occurrence goes. */
  function RemoveAll(list: seq<string>, name: string): seq<string> {
    if list == [] then []
    else if list[0] == name then RemoveAll(list[1..], name)
    else [list[0]] + RemoveAll(list[1..], name)
  }

  /** `find` and `erase`: the first occurrence goes. */
  function EraseFirst(list: seq<string>, name: string): seq<string>
    requires name in list
  {
    if list[0] == name then list[1..] else [list[0]] + EraseFirst(list[1..], name)
  }

  /** Registers p's leaf with its parent. */
  function Register(t: Tree, p: Path): Tree
    requires p != []
  {
    var dir := At(t, Parent(p));
    t[Parent(p) := dir.(list := dir.list + [Leaf(p)])]
  }

  function Unregister(t: Tree, p: Path): Tree
    requires p != []
  {
    var dir := At(t, Parent(p));
    t[Parent(p) := dir.(list := RemoveAll(dir.list, Leaf(p)))]
  }

  /** What create, mkdir and symlink have in common. */
  function Added(t: Tree, p: Path, a: Attribute): Tree
    requires p != []
  {
    Register(t[p := a], p)
  }

  /** What rmdir and a permitted unlink have in common. */
  function Removed(t: Tree, p: Path): Tree
    requires p != []
  {
    Unregister(t, p) - {p}
  }

  /** The old parent's listing without the first mention of the old leaf. */
  function Erased(t: Tree, p: Path): Tree
    requires p != [] && Leaf(p) in At(t, Parent(p)).list
  {
    var dir := At(t, Parent(p));
    t[Parent(p) := dir.(list := EraseFirst(dir.list, Leaf(p)))]
  }

  datatype Op =
    | Create(p: Path, user: nat)
    | Mkdir(p: Path, user: nat)
    | Symlink(target: string, p: Path)
    | Rename(p: Path, to: Path)
    | Rmdir(p: Path)
    | Unlink(p: Path, user: nat)

  predicate OffRoot(op: Op) { op.p != [] && (op.Rename? ==> op.to != []) }

  function CreateAt(t: Tree, p: Path, user: nat): (Tree, Result)
    requires p != []
  {
    if |Leaf(p)| > MAX_NAME then (t, NameTooLong)
    else (Added(t, p, At(t, p).(kind := Regular, owner := user)), Ok)
  }

  function MkdirAt(t: Tree, p: Path, user: nat): (Tree, Result)
    requires p != []
  {
    if |Leaf(p)| > MAX_NAME then (t, NameTooLong)
    else (Added(t, p, At(t, p).(kind := Directory, owner := user)), Ok)
  }

  function SymlinkAt(t: Tree, target: string, p: Path): (Tree, Result)
    requires p != []
  {
    var a := At(t, p);
    (Added(t, p, a.(kind := Link, list := a.list + [target])), Ok)
  }

  function RenameAt(t: Tree, p: Path, to: Path): (Tree, Result)
    requires p != [] && to != []
  {
    var dir := At(t, Parent(p));
    if Leaf(p) !in dir.list then (t[Parent(p) := dir], Undefined)
    else
      var moved := Register(Erased(t, p), to);
      if p !in moved then (moved, LookupFailed)
      else (moved[to := moved[p]] - {p}, Ok)
  }

  function RmdirAt(t: Tree, p: Path): (Tree, Result)
    requires p != []
  {
    (Unregister(t - {p}, p), Ok)
  }

  function UnlinkAt(t: Tree, p: Path, user: nat): (Tree, Result)
    requires p != []
  {
    if |Leaf(p)| > MAX_NAME then (t, NameTooLong)
    else if At(t, p).owner != user && user != 0 then (t[p := At(t, p)], AccessDenied)
    else (Removed(t, p), Ok)
  }

  function Exec(t: Tree, op: Op): (Tree, Result)
    requires OffRoot(op)
  {
    match op
    case Create(p, user) => CreateAt(t, p, user)
    case Mkdir(p, user) => MkdirAt(t, p, user)
    case Symlink(target, p) => SymlinkAt(t, target, p)
    case Rename(p, to) => RenameAt(t, p, to)
    case Rmdir(p) => RmdirAt(t, p)
    case Unlink(p, user) => UnlinkAt(t, p, user)
  }

  // ---------- consistency ----------

  /** p has attributes exactly when its parent directory names it, and then once. */
  predicate Sound(t: Tree, p: Path)
    requires p != []
  {
    if p in t then IsDirectory(t, Parent(p)) && Listed(t, p) == 1
    else IsDirectory(t, Parent(p)) ==> Listed(t, p) == 0
  }

  ghost predicate Consistent(t: Tree) {
    && IsDirectory(t, [])
    && forall p: Path | p != [] :: Sound(t, p)
  }

  lemma CountIsMembership(list: seq<string>, name: string)
    ensures name in list <==> Occurrences(list, name) > 0
  {
    assert name in list <==> name in multiset(list);
  }

  lemma CountsForbidRepeats(list: seq<string>, i: nat, j: nat)
    requires i < j < |list| && list[i] == list[j]
    ensures Occurrences(list, list[i]) >= 2
  {
    var front, back := list[..j], list[j..];
    assert list == front + back;
    assert front[i] in multiset(front) && back[0] in multiset(back);
  }

  /** What readdir and getattr show: a directory lists its children, all of them, once each. */
  lemma ListingsAreExact(t: Tree, d: Path)
    requires Consistent(t) && IsDirectory(t, d)
    ensures forall name :: name in t[d].list <==> d + [name] in t
    ensures forall i, j :: 0 <= i < j < |t[d].list| ==> t[d].list[i] != t[d].list[j]
  {
    var list := t[d].list;
    forall name
      ensures name in list <==> d + [name] in t
    {
      var p := d + [name];
      assert Parent(p) == d && Leaf(p) == name && Sound(t, p);
      CountIsMembership(list, name);
    }
    forall i, j | 0 <= i < j < |list|
      ensures list[i] != list[j]
    {
      if list[i] == list[j] {
        CountsForbidRepeats(list, i, j);
        var p := d + [list[i]];
        assert Parent(p) == d && Leaf(p) == list[i] && Sound(t, p);
      }
    }
  }

  /** Every path hangs from the root by directories alone. */
  lemma {:induction false} AncestorsAreDirectories(t: Tree, p: Path, n: nat)
    requires Consistent(t) && p in t && n < |p|
    ensures IsDirectory(t, p[..n])
  {
    assert Sound(t, p);
    if n < |p| - 1 {
      AncestorsAreDirectories(t, Parent(p), n);
      assert Parent(p)[..n] == p[..n];
    }
  }

  // ---------- what the pieces of an operation do to a listing ----------

  lemma {:induction false} RemoveAllCounts(list: seq<string>, name: string)
    ensures multiset(RemoveAll(list, name)) == multiset(list)[name := 0]
  {
    if list != [] {
      RemoveAllCounts(list[1..], name);
      assert list == [list[0]] + list[1..];
    }
  }

  lemma {:induction false} EraseFirstCounts(list: seq<string>, name: string)
    requires name in list
    ensures multiset(EraseFirst(list, name)) == multiset(list) - multiset{name}
  {
    assert list == [list[0]] + list[1..];
    if list[0] != name {
      EraseFirstCounts(list[1..], name);
    }
  }

  lemma PathSplits(p: Path, q: Path)
    requires p != [] && q != []
    ensures p == q <==> Parent(p) == Parent(q) && Leaf(p) == Leaf(q)
    ensures Parent(p) != p
  {
    assert p == Parent(p) + [Leaf(p)] && q == Parent(q) + [Leaf(q)];
  }

  lemma RegisterLists(t: Tree, p: Path, q: Path)
    requires p != [] && q != []
    ensures Listed(Register(t, p), q) == Listed(t, q) + if q == p then 1 else 0
  {
    PathSplits(p, q);
  }

  lemma UnregisterLists(t: Tree, p: Path, q: Path)
    requires p != [] && q != []
    ensures Listed(Unregister(t, p), q) == if q == p then 0 else Listed(t, q)
  {
    PathSplits(p, q);
    RemoveAllCounts(At(t, Parent(p)).list, Leaf(p));
  }

  lemma ErasedLists(t: Tree, p: Path, q: Path)
    requires p != [] && q != [] && Leaf(p) in At(t, Parent(p)).list
    ensures Listed(Erased(t, p), q) == Listed(t, q) - if q == p then 1 else 0
  {
    PathSplits(p, q);
    EraseFirstCounts(At(t, Parent(p)).list, Leaf(p));
    CountIsMembership(At(t, Parent(p)).list, Leaf(p));
  }

  // ---------- adding a path ----------

  lemma AddedShape(t: Tree, p: Path, a: Attribute, q: Path)
    requires p != []
    ensures q in Added(t, p, a) <==> q in t || q == p || q == Parent(p)
    ensures IsDirectory(Added(t, p, a), q) == if q == p then a.kind.Directory? else IsDirectory(t, q)
    ensures q != [] ==>
      Listed(Added(t, p, a), q) ==
        (if Parent(q) == p then Occurrences(a.list, Leaf(q)) else Listed(t, q)) + if q == p then 1 else 0
  {
    PathSplits(p, p);
    if q != [] {
      RegisterLists(t[p := a], p, q);
    }
  }

  lemma AddExactly(t: Tree, p: Path, a: Attribute)
    requires Consistent(t) && p != []
    requires p !in t && a.kind.Directory? ==> a.list == []
    ensures Consistent(Added(t, p, a)) <==> p !in t && IsDirectory(t, Parent(p))
  {
    hide Added, Listed;
    var t' := Added(t, p, a);
    PathSplits(p, p);
    AddedShape(t, p, a, p);
    AddedShape(t, p, a, Parent(p));
    assert Sound(t, p);
    if Consistent(t') {
      assert Sound(t', p);
    } else if p !in t && IsDirectory(t, Parent(p)) {
      AddedShape(t, p, a, []);
      forall q: Path | q != []
        ensures Sound(t', q)
      {
        AddedShape(t, p, a, q);
        AddedShape(t, p, a, Parent(q));
        assert Sound(t, q);
      }
    }
  }

  // ---------- removing a path ----------

  lemma RmdirRemoves(t: Tree, p: Path)
    requires p != []
    ensures RmdirAt(t, p).0 == Removed(t, p)
  {
    PathSplits(p, p);
  }

  lemma RemovedShape(t: Tree, p: Path, q: Path)
    requires p != []
    ensures q in Removed(t, p) <==> q != p && (q in t || q == Parent(p))
    ensures IsDirectory(Removed(t, p), q) <==> q != p && IsDirectory(t, q)
    ensures q != [] ==>
      Listed(Removed(t, p), q) == if q == p || Parent(q) == p then 0 else Listed(t, q)
  {
    PathSplits(p, p);
    if q != [] {
      UnregisterLists(t, p, q);
    }
  }

  predicate Removable(t: Tree, p: Path) { IsDirectory(t, p) ==> t[p].list == [] }

  /** A non-empty directory has a child, which loses its parent. */
  lemma ChildIsOrphaned(t: Tree, t': Tree, p: Path)
    requires Consistent(t) && !Removable(t, p) && !IsDirectory(t', p)
    requires forall q :: q in t && q != p ==> q in t'
    ensures !Consistent(t')
  {
    var child := p + [t[p].list[0]];
    assert Parent(child) == p && Leaf(child) == t[p].list[0];
    CountIsMembership(t[p].list, Leaf(child));
    assert Sound(t, child);
    assert !Sound(t', child);
  }

  lemma ChildlessUnless(t: Tree, p: Path, q: Path)
    requires Consistent(t) && Removable(t, p) && q != [] && Parent(q) == p
    ensures q !in t
  {
    assert Sound(t, q);
  }

  lemma RemoveKeepsConsistent(t: Tree, p: Path)
    requires Consistent(t) && p != [] && Removable(t, p) && Parent(p) in t
    ensures Consistent(Removed(t, p))
  {
    hide Removed, Listed, Removable;
    RemovedShape(t, p, []);
    forall q: Path | q != []
      ensures Sound(Removed(t, p), q)
    {
      RemovedShape(t, p, q);
      RemovedShape(t, p, Parent(q));
      assert Sound(t, q);
      if Parent(q) == p {
        ChildlessUnless(t, p, q);
      }
    }
  }

  lemma RemoveNeedsParent(t: Tree, p: Path)
    requires Consistent(t) && p != [] && Consistent(Removed(t, p))
    ensures Parent(p) in t
  {
    hide Removed;
    var d := Parent(p);
    PathSplits(p, p);
    RemovedShape(t, p, d);
    if d != [] {
      PathSplits(d, d);
      RemovedShape(t, p, Parent(d));
      assert Sound(t, d) && Sound(Removed(t, p), d);
    }
  }

  lemma RemoveExactly(t: Tree, p: Path)
    requires Consistent(t) && p != []
    ensures Consistent(Removed(t, p)) <==> Parent(p) in t && Removable(t, p)
  {
    if Parent(p) in t && Removable(t, p) {
      RemoveKeepsConsistent(t, p);
    } else if !Removable(t, p) {
      ChildIsOrphaned(t, Removed(t, p), p);
    } else if Consistent(Removed(t, p)) {
      RemoveNeedsParent(t, p);
    }
  }

  // ---------- renaming ----------

  /** The tree after a rename that finds both the old entry and the old attributes. */
  function Renamed(t: Tree, p: Path, to: Path): Tree
    requires p != [] && to != [] && Leaf(p) in At(t, Parent(p)).list
  {
    var moved := Register(Erased(t, p), to);
    moved[to := At(moved, p)] - {p}
  }

  lemma RenamedShape(t: Tree, p: Path, to: Path, q: Path)
    requires p != [] && to != [] && Leaf(p) in At(t, Parent(p)).list
    ensures q in Renamed(t, p, to) <==> q != p && (q in t || q in [Parent(p), Parent(to), to])
    ensures IsDirectory(Renamed(t, p, to), q) <==> q != p && IsDirectory(t, if q == to then p else q)
  {
    PathSplits(p, p);
    PathSplits(to, to);
  }

  lemma RenamedLists(t: Tree, p: Path, to: Path, q: Path)
    requires p != [] && to != [] && Leaf(p) in At(t, Parent(p)).list
    requires q != [] && Parent(q) != p && Parent(q) != to
    ensures Listed(Renamed(t, p, to), q) ==
      Listed(t, q) - (if q == p then 1 else 0) + if q == to then 1 else 0
  {
    hide Erased, Register;
    var moved := Register(Erased(t, p), to);
    ErasedLists(t, p, q);
    RegisterLists(Erased(t, p), to, q);
    assert At(Renamed(t, p, to), Parent(q)) == At(moved, Parent(q));
  }

  /** What a rename asks of its caller. */
  predicate MayRename(t: Tree, p: Path, to: Path)
    requires p != [] && to != []
  {
    p in t && Removable(t, p) && to !in t && IsDirectory(t, Parent(to)) && Parent(to) != p
  }

  lemma PresentIsListed(t: Tree, p: Path)
    requires Consistent(t) && p != [] && p in t
    ensures Leaf(p) in At(t, Parent(p)).list && IsDirectory(t, Parent(p)) && Listed(t, p) == 1
  {
    assert Sound(t, p);
    CountIsMembership(At(t, Parent(p)).list, Leaf(p));
  }

  /** The empty directory, or the other thing, that moved has no child at its new place. */
  lemma MovedIsChildless(t: Tree, p: Path, to: Path, q: Path)
    requires Consistent(t) && p != [] && to != [] && MayRename(t, p, to)
    requires q != [] && Parent(q) == to
    ensures Leaf(p) in At(t, Parent(p)).list
    ensures IsDirectory(Renamed(t, p, to), to) ==> Listed(Renamed(t, p, to), q) == 0
  {
    PresentIsListed(t, p);
    PathSplits(p, p);
    PathSplits(to, to);
    var moved := Register(Erased(t, p), to);
    assert At(moved, p) == t[p];
    assert At(Renamed(t, p, to), to) == t[p];
  }

  lemma RenameKeepsSound(t: Tree, p: Path, to: Path, q: Path)
    requires Consistent(t) && p != [] && to != [] && MayRename(t, p, to) && q != []
    ensures Leaf(p) in At(t, Parent(p)).list
    ensures Sound(Renamed(t, p, to), q)
  {
    hide Renamed, Listed, Removable;
    PresentIsListed(t, p);
    PathSplits(q, q);
    RenamedShape(t, p, to, q);
    RenamedShape(t, p, to, Parent(q));
    assert Sound(t, q);
    if Parent(q) == p {
      ChildlessUnless(t, p, q);
    } else if Parent(q) == to {
      MovedIsChildless(t, p, to, q);
    } else {
      RenamedLists(t, p, to, q);
    }
  }

  lemma RenameKeepsConsistent(t: Tree, p: Path, to: Path)
    requires Consistent(t) && p != [] && to != [] && MayRename(t, p, to)
    ensures RenameAt(t, p, to).1.Ok? && Consistent(RenameAt(t, p, to).0)
  {
    hide Renamed, Listed, Removable, Sound;
    PresentIsListed(t, p);
    RenamedShape(t, p, to, []);
    forall q: Path | q != []
      ensures Sound(Renamed(t, p, to), q)
    {
      RenameKeepsSound(t, p, to, q);
    }
    assert RenameAt(t, p, to).0 == Renamed(t, p, to) by { RenameIsRenamed(t, p, to); }
  }

  lemma RenameIsRenamed(t: Tree, p: Path, to: Path)
    requires p != [] && to != [] && Leaf(p) in At(t, Parent(p)).list
    ensures p in t ==> RenameAt(t, p, to).1.Ok?
    ensures RenameAt(t, p, to).1.Ok? ==> RenameAt(t, p, to).0 == Renamed(t, p, to)
  {
  }

  lemma RenameNeedsTarget(t: Tree, p: Path, to: Path)
    requires Consistent(t) && p != [] && to != [] && Leaf(p) in At(t, Parent(p)).list
    requires Consistent(Renamed(t, p, to)) && (p in t || p == Parent(to))
    ensures p in t && Parent(to) != p && IsDirectory(t, Parent(to)) && to !in t
  {
    hide Renamed, Listed;
    PathSplits(p, p);
    PathSplits(to, to);
    RenamedShape(t, p, to, to);
    RenamedShape(t, p, to, Parent(to));
    assert Sound(Renamed(t, p, to), to);
    if Parent(to) != p {
      RenamedLists(t, p, to, to);
      assert Sound(t, to);
      RenamedShape(t, p, to, Parent(p));
    }
  }

  lemma RenameExactly(t: Tree, p: Path, to: Path)
    requires Consistent(t) && p != [] && to != []
    ensures RenameAt(t, p, to).1.Ok? && Consistent(RenameAt(t, p, to).0) <==> MayRename(t, p, to)
  {
    hide Renamed, Erased, Register, Removable;
    if MayRename(t, p, to) {
      RenameKeepsConsistent(t, p, to);
    } else if RenameAt(t, p, to).1.Ok? && Consistent(RenameAt(t, p, to).0) {
      RenameIsRenamed(t, p, to);
      OkFinds(t, p, to);
      RenameNeedsTarget(t, p, to);
      RenameLosesOnly(t, p, to);
      ChildIsOrphaned(t, Renamed(t, p, to), p);
    }
  }

  lemma OkFinds(t: Tree, p: Path, to: Path)
    requires p != [] && to != [] && RenameAt(t, p, to).1.Ok?
    ensures Leaf(p) in At(t, Parent(p)).list && (p in t || p == Parent(to))
  {
    PathSplits(p, p);
  }

  lemma RenameLosesOnly(t: Tree, p: Path, to: Path)
    requires p != [] && to != [] && Leaf(p) in At(t, Parent(p)).list
    ensures !IsDirectory(Renamed(t, p, to), p)
    ensures forall q :: q in t && q != p ==> q in Renamed(t, p, to)
  {
  }

  // ---------- the operations, and whole runs ----------

  /** The guard each operation would need: all of it can be checked before the call. */
  predicate Permitted(t: Tree, op: Op)
    requires OffRoot(op)
  {
    match op
    case Create(p, _) => |Leaf(p)| > MAX_NAME || (p !in t && IsDirectory(t, Parent(p)))
    case Mkdir(p, _) => |Leaf(p)| > MAX_NAME || (p !in t && IsDirectory(t, Parent(p)))
    case Symlink(_, p) => p !in t && IsDirectory(t, Parent(p))
    case Rename(p, to) => MayRename(t, p, to)
    case Rmdir(p) => Parent(p) in t && Removable(t, p)
    case Unlink(p, user) =>
      || |Leaf(p)| > MAX_NAME
      || (if At(t, p).owner != user && user != 0 then p in t else Parent(p) in t && Removable(t, p))
  }

  /** The operation neither broke off half way nor ran into undefined behaviour. */
  predicate Completed(result: Result) { !result.LookupFailed? && !result.Undefined? }

  /** The operations check almost none of this themselves; exactly the permitted calls keep the tree consistent. */
  lemma StepKeepsConsistentExactly(t: Tree, op: Op)
    requires Consistent(t) && OffRoot(op)
    ensures Completed(Exec(t, op).1) && Consistent(Exec(t, op).0) <==> Permitted(t, op)
  {
    hide Consistent, MayRename, Removable, Removed, Added, IsDirectory;
    match op
    case Create(p, user) =>
      AddExactly(t, p, At(t, p).(kind := Regular, owner := user));
    case Mkdir(p, user) =>
      AddExactly(t, p, At(t, p).(kind := Directory, owner := user));
    case Symlink(target, p) =>
      AddExactly(t, p, At(t, p).(kind := Link, list := At(t, p).list + [target]));
    case Rename(p, to) =>
      RenameExactly(t, p, to);
    case Rmdir(p) =>
      RmdirRemoves(t, p);
      RemoveExactly(t, p);
    case Unlink(p, user) =>
      RemoveExactly(t, p);
      DenialExactly(t, p);
  }

  /** A refused unlink still leaves a blank attribute where there was none. */
  lemma DenialExactly(t: Tree, p: Path)
    requires Consistent(t) && p != []
    ensures Consistent(t[p := At(t, p)]) <==> p in t
  {
    var t' := t[p := At(t, p)];
    if p in t {
      assert t' == t;
    } else {
      PathSplits(p, p);
      assert Sound(t, p) && !Sound(t', p);
    }
  }

  /** Paths come and go as named, a rename carries the attribute along, and nothing but the parents' lists changes elsewhere. */
  lemma StepChangesOnly(t: Tree, op: Op)
    requires Consistent(t) && OffRoot(op) && Permitted(t, op) && Exec(t, op).1.Ok?
    ensures var t' := Exec(t, op).0;
      && t'.Keys == (if Removes(op) then t.Keys - {op.p} else t.Keys) + Adds(op)
      && Made(t, t', op)
      && Keeps(t, t', op.p, ListsTouched(op))
  {
    hide Consistent, Sound, Added, Removed, Erased, Register, IsDirectory;
    match op
    case Create(p, user) =>
      AddedChangesOnly(t, p, At(t, p).(kind := Regular, owner := user));
    case Mkdir(p, user) =>
      AddedChangesOnly(t, p, At(t, p).(kind := Directory, owner := user));
    case Symlink(target, p) =>
      AddedChangesOnly(t, p, At(t, p).(kind := Link, list := At(t, p).list + [target]));
    case Rename(p, to) =>
      PresentIsListed(t, p);
      RenamedChangesOnly(t, p, to);
    case Rmdir(p) =>
      RmdirRemoves(t, p);
      RemovedChangesOnly(t, p);
    case Unlink(p, user) =>
      RemovedChangesOnly(t, p);
  }

  /** A permitted operation that is refused, for a long name or a foreign owner, leaves the tree alone. */
  lemma RefusalChangesNothing(t: Tree, op: Op)
    requires Consistent(t) && OffRoot(op) && Permitted(t, op) && !Exec(t, op).1.Ok?
    ensures Exec(t, op).0 == t
    ensures Exec(t, op).1.NameTooLong? <==> !op.Symlink? && |Leaf(op.p)| > MAX_NAME
    ensures Exec(t, op).1.AccessDenied? <==>
      op.Unlink? && |Leaf(op.p)| <= MAX_NAME && t[op.p].owner != op.user && op.user != 0
  {
    hide Consistent, Added, Removed, RenameAt;
    if op.Rename? {
      RenameExactly(t, op.p, op.to);
    }
  }

  /** The new path's attribute. */
  predicate Made(t: Tree, t': Tree, op: Op) {
    match op
    case Create(p, user) => p in t' && t'[p] == Attribute(Regular, user, [])
    case Mkdir(p, user) => p in t' && t'[p] == Attribute(Directory, user, [])
    case Symlink(target, p) => p in t' && t'[p] == Attribute(Link, FRESH.owner, [target])
    case Rename(p, to) => p in t && to in t' && t'[to] == t[p]
    case _ => true
  }

  /** Apart from `moved`, t' keeps every attribute of t, up to the lists of `relisted`. */
  predicate Keeps(t: Tree, t': Tree, moved: Path, relisted: set<Path>) {
    forall q :: q in t && q in t' && q != moved ==>
      && t'[q].kind == t[q].kind
      && t'[q].owner == t[q].owner
      && (q !in relisted ==> t'[q] == t[q])
  }

  lemma AddedChangesOnly(t: Tree, p: Path, a: Attribute)
    requires p != [] && IsDirectory(t, Parent(p))
    ensures Added(t, p, a).Keys == t.Keys + {p} && Added(t, p, a)[p] == a
    ensures Keeps(t, Added(t, p, a), p, {Parent(p)})
  {
    PathSplits(p, p);
  }

  lemma RemovedChangesOnly(t: Tree, p: Path)
    requires p != [] && Parent(p) in t
    ensures Removed(t, p).Keys == t.Keys - {p}
    ensures Keeps(t, Removed(t, p), p, {Parent(p)})
  {
  }

  lemma RenamedChangesOnly(t: Tree, p: Path, to: Path)
    requires p != [] && to != [] && Leaf(p) in At(t, Parent(p)).list
    requires MayRename(t, p, to) && Parent(p) in t
    ensures RenameAt(t, p, to).0.Keys == t.Keys - {p} + {to}
    ensures RenameAt(t, p, to).0[to] == t[p]
    ensures Keeps(t, RenameAt(t, p, to).0, p, {Parent(p), Parent(to)})
  {
    PathSplits(p, p);
    PathSplits(to, to);
  }

  /** Every name of more than 255 characters is refused by create, mkdir and unlink, and by no other operation. */
  lemma LongNamesAreRefused(t: Tree, op: Op)
    requires OffRoot(op)
    ensures |Leaf(op.p)| > 255 && (op.Create? || op.Mkdir? || op.Unlink?) ==> Exec(t, op) == (t, NameTooLong)
    ensures !(|Leaf(op.p)| > 255 && (op.Create? || op.Mkdir? || op.Unlink?)) ==> !Exec(t, op).1.NameTooLong?
  {
  }

  /** A file or directory that exists is unlinked for its owner and for root, and for nobody else. */
  lemma OnlyOwnersUnlink(t: Tree, p: Path, user: nat)
    requires Consistent(t) && p != [] && p in t && |Leaf(p)| <= 255
    ensures t[p].owner != user && user != 0 ==> Exec(t, Unlink(p, user)) == (t, AccessDenied)
    ensures t[p].owner == user || user == 0 ==>
      Exec(t, Unlink(p, user)).1.Ok? && p !in Exec(t, Unlink(p, user)).0
  {
    hide Consistent;
    assert t[p := t[p]] == t;
    PathSplits(p, p);
  }

  /** The result of every permitted operation. */
  lemma ResultsExactly(t: Tree, op: Op)
    requires Consistent(t) && OffRoot(op) && Permitted(t, op)
    ensures Exec(t, op).1 ==
      if |Leaf(op.p)| > 255 && (op.Create? || op.Mkdir? || op.Unlink?) then NameTooLong
      else if op.Unlink? && op.p in t && t[op.p].owner != op.user && op.user != 0 then AccessDenied
      else Ok
  {
    hide Consistent, Added, Removed, RenameAt;
    if op.Rename? {
      RenameExactly(t, op.p, op.to);
    }
  }

  /** list without its entry at i */
  function Dropped(list: seq<string>, i: nat): seq<string>
    requires i < |list|
  {
    list[..i] + list[i + 1..]
  }

  /** Where a name stands only once, both ways of removing it take just that entry out. */
  lemma {:induction false} RemovesOnlyThat(list: seq<string>, name: string) returns (i: nat)
    requires Occurrences(list, name) == 1
    ensures i < |list| && list[i] == name
    ensures RemoveAll(list, name) == Dropped(list, i) == EraseFirst(list, name)
  {
    CountIsMembership(list, name);
    assert list == [list[0]] + list[1..];
    if list[0] == name {
      i := 0;
      RemovesNothing(list[1..], name);
    } else {
      i := RemovesOnlyThat(list[1..], name);
      i := i + 1;
    }
  }

  lemma {:induction false} RemovesNothing(list: seq<string>, name: string)
    requires Occurrences(list, name) == 0
    ensures RemoveAll(list, name) == list
  {
    CountIsMembership(list, name);
    if list != [] {
      assert list == [list[0]] + list[1..];
      RemovesNothing(list[1..], name);
    }
  }

  /** New names come last in their directory's listing, and a removal takes out one entry and keeps the order of the others. */
  lemma ListingsKeepOrder(t: Tree, op: Op) returns (i: nat)
    requires Consistent(t) && OffRoot(op) && Permitted(t, op) && Exec(t, op).1.Ok?
    ensures !Removes(op) ==> ListIs(Exec(t, op).0, Parent(op.p), At(t, Parent(op.p)).list + [Leaf(op.p)])
    ensures Removes(op) && op.p in t ==>
      var before := At(t, Parent(op.p)).list;
      && i < |before| && before[i] == Leaf(op.p)
      && ListIs(Exec(t, op).0, Parent(op.p),
           Dropped(before, i) + if op.Rename? && Parent(op.to) == Parent(op.p) then [Leaf(op.to)] else [])
    ensures op.Rename? && Parent(op.to) != Parent(op.p) ==>
      ListIs(Exec(t, op).0, Parent(op.to), At(t, Parent(op.to)).list + [Leaf(op.to)])
  {
    PathSplits(op.p, op.p);
    i := 0;
    if Removes(op) && op.p in t {
      PresentIsListed(t, op.p);
      i := RemovesOnlyThat(At(t, Parent(op.p)).list, Leaf(op.p));
      if op.Rename? {
        PathSplits(op.to, op.to);
      }
    }
    hide Consistent, RemoveAll, EraseFirst, Occurrences;
  }

  predicate ListIs(t: Tree, d: Path, list: seq<string>) { d in t && t[d].list == list }

  predicate Removes(op: Op) { op.Rename? || op.Rmdir? || op.Unlink? }

  function Adds(op: Op): set<Path> {
    if op.Rename? then {op.to} else if Removes(op) then {} else {op.p}
  }

  function ListsTouched(op: Op): set<Path>
    requires OffRoot(op)
  {
    {Parent(op.p)} + if op.Rename? then {Parent(op.to)} else {}
  }

  predicate AllPermitted(t: Tree, ops: seq<Op>)
    decreases |ops|
  {
    ops == [] || (OffRoot(ops[0]) && Permitted(t, ops[0]) && AllPermitted(Exec(t, ops[0]).0, ops[1..]))
  }

  /** Consistent now and after every operation, none of which breaks off. */
  ghost predicate StaysConsistent(t: Tree, ops: seq<Op>)
    requires forall op :: op in ops ==> OffRoot(op)
    decreases |ops|
  {
    && Consistent(t)
    && (ops == [] || (Completed(Exec(t, ops[0]).1) && StaysConsistent(Exec(t, ops[0]).0, ops[1..])))
  }

  lemma {:induction false} RunStaysConsistentExactly(t: Tree, ops: seq<Op>)
    requires forall op :: op in ops ==> OffRoot(op)
    requires Consistent(t)
    ensures StaysConsistent(t, ops) <==> AllPermitted(t, ops)
    decreases |ops|
  {
    hide Consistent, Exec, Permitted;
    if ops != [] {
      StepKeepsConsistentExactly(t, ops[0]);
      if Consistent(Exec(t, ops[0]).0) {
        RunStaysConsistentExactly(Exec(t, ops[0]).0, ops[1..]);
      }
    }
  }

  /** From an empty file system: the permitted runs, and only those. */
  lemma NamespaceStaysConsistentExactly(ops: seq<Op>)
    requires forall op :: op in ops ==> OffRoot(op)
    ensures StaysConsistent(ROOT, ops) <==> AllPermitted(ROOT, ops)
  {
    assert Consistent(ROOT);
    RunStaysConsistentExactly(ROOT, ops);
  }

  /** colonyfs_fusexx over its metadata: each method works through two or three attributes in turn. */
  class Directories {
    var attributes: Tree

    constructor ()
      ensures attributes == ROOT && Consistent(attributes)
    {
      attributes := ROOT;
    }

    /** metadata_sink_[p] */
    method Find(p: Path) returns (a: Attribute)
      modifies this
      ensures a == At(old(attributes), p)
      ensures attributes == old(attributes)[p := a]
    {
      if p !in attributes {
        attributes := attributes[p := FRESH];
      }
      a := attributes[p];
    }

    method PushBack(p: Path)
      requires p != []
      modifies this
      ensures attributes == Register(old(attributes), p)
    {
      var dir := Find(Parent(p));
      attributes := attributes[Parent(p) := dir.(list := dir.list + [Leaf(p)])];
    }

    method Remove(p: Path)
      requires p != []
      modifies this
      ensures attributes == Unregister(old(attributes), p)
    {
      var dir := Find(Parent(p));
      attributes := attributes[Parent(p) := dir.(list := RemoveAll(dir.list, Leaf(p)))];
    }

    method Create(p: Path, user: nat) returns (result: Result)
      requires p != []
      modifies this
      ensures (attributes, result) == CreateAt(old(attributes), p, user)
    {
      if |Leaf(p)| > MAX_NAME { return NameTooLong; }
      var a := Find(p);
      attributes := attributes[p := a.(kind := Regular, owner := user)];
      assert attributes == old(attributes)[p := a.(kind := Regular, owner := user)];
      PushBack(p);
      return Ok;
    }

    method Mkdir(p: Path, user: nat) returns (result: Result)
      requires p != []
      modifies this
      ensures (attributes, result) == MkdirAt(old(attributes), p, user)
    {
      if |Leaf(p)| > MAX_NAME { return NameTooLong; }
      var a := Find(p);
      attributes := attributes[p := a.(kind := Directory, owner := user)];
      assert attributes == old(attributes)[p := a.(kind := Directory, owner := user)];
      PushBack(p);
      return Ok;
    }

    method Symlink(target: string, p: Path) returns (result: Result)
      requires p != []
      modifies this
      ensures (attributes, result) == SymlinkAt(old(attributes), target, p)
    {
      var a := Find(p);
      attributes := attributes[p := a.(kind := Link, list := a.list + [target])];
      assert attributes == old(attributes)[p := a.(kind := Link, list := a.list + [target])];
      PushBack(p);
      return Ok;
    }

    /** `to` is registered before the attributes move, so a rename onto itself purges what it just wrote. */
    method Rename(p: Path, to: Path) returns (result: Result)
      requires p != [] && to != []
      modifies this
      ensures (attributes, result) == RenameAt(old(attributes), p, to)
    {
      var dir := Find(Parent(p));
      if Leaf(p) !in dir.list { return Undefined; }
      attributes := attributes[Parent(p) := dir.(list := EraseFirst(dir.list, Leaf(p)))];
      assert attributes == Erased(old(attributes), p);
      PushBack(to);
      if p !in attributes { return LookupFailed; }
      var moved := attributes[p];
      attributes := attributes[to := moved];
      attributes := attributes - {p};
      return Ok;
    }

    method Rmdir(p: Path) returns (result: Result)
      requires p != []
      modifies this
      ensures (attributes, result) == RmdirAt(old(attributes), p)
    {
      attributes := attributes - {p};
      Remove(p);
      return Ok;
    }

    method Unlink(p: Path, user: nat) returns (result: Result)
      requires p != []
      modifies this
      ensures (attributes, result) == UnlinkAt(old(attributes), p, user)
    {
      if |Leaf(p)| > MAX_NAME { return NameTooLong; }
      var a := Find(p);
      if a.owner != user && user != 0 { return AccessDenied; }
      Remove(p);
      attributes := attributes - {p};
      assert attributes == Removed(old(attributes), p);
      return Ok;
    }
  }
}
