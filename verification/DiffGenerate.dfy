/** Tree-to-tree diffs (diff_generate.c): a merge-join of two sorted streams of entries. */
module DiffGenerate {
  import opened Common

  type Path = seq<byte>

  datatype Entry = Entry(path: Path, mode: nat, id: nat)

  datatype Status = Unmodified | Added | Deleted | Modified | Typechange

  /** One side of a delta; the side that does not exist has mode and id zero. */
  datatype File = File(mode: nat, id: nat)

  datatype Delta = Delta(status: Status, path: Path, nfiles: nat, oldFile: File, newFile: File)

  /** The flags that matter for two trees, and the outcome of the pathspec match. */
  datatype Options = Options(
    reverse: bool, includeUnmodified: bool, includeTypechange: bool, ignoreSubmodules: bool, matches: Path -> bool)

  const NoFile: File := File(0, 0)

  // ------------------------------------------------------------------------ order

  /** strcmp(a, b) < 0 */
  predicate Less(a: Path, b: Path) {
    if b == [] then false
    else if a == [] then true
    else a[0] < b[0] || (a[0] == b[0] && Less(a[1..], b[1..]))
  }

  lemma {:induction false} LessTotal(a: Path, b: Path)
    ensures Less(a, b) || Less(b, a) || a == b
  {
    if a != [] && b != [] && a[0] == b[0] {
      LessTotal(a[1..], b[1..]);
      assert a == [a[0]] + a[1..] && b == [b[0]] + b[1..];
    }
  }

  lemma {:induction false} LessTransitive(a: Path, b: Path, c: Path)
    requires Less(a, b) && Less(b, c)
    ensures Less(a, c)
  {
    if a != [] && a[0] == b[0] == c[0] { LessTransitive(a[1..], b[1..], c[1..]); }
  }

  lemma {:induction false} LessIrreflexive(a: Path)
    ensures !Less(a, a)
  {
    if a != [] { LessIrreflexive(a[1..]); }
  }

  /** The entries of a tree: sorted by path, each path once. */
  ghost predicate Sorted(es: seq<Entry>) {
    forall i, j :: 0 <= i < j < |es| ==> Less(es[i].path, es[j].path)
  }

  // -------------------------------------------------------------- making the deltas

  predicate IsGitlink(mode: nat) { mode / 0x1000 % 16 == 14 }

  function ModeType(mode: nat): nat { mode / 0x1000 % 16 }

  /** diff_delta__alloc: reversing exchanges additions and deletions. */
  function Reversed(o: Options, status: Status): Status {
    if !o.reverse then status
    else match status case Added => Deleted case Deleted => Added case s => s
  }

  function FileOf(e: Entry): File { File(e.mode, e.id) }

  /** diff_delta__from_one */
  function FromOne(o: Options, status: Status, e: Entry, isOld: bool): seq<Delta> {
    if !o.matches(e.path) then []
    else
      var hasOld := if o.reverse then !isOld else isOld;
      [if hasOld then Delta(Reversed(o, status), e.path, 1, FileOf(e), NoFile)
       else Delta(Reversed(o, status), e.path, 1, NoFile, FileOf(e))]
  }

  /** diff_delta__from_two */
  function FromTwo(o: Options, status: Status, oitem: Entry, nitem: Entry): seq<Delta> {
    if status == Unmodified && !o.includeUnmodified then []
    else
      var (a, b) := if o.reverse then (nitem, oitem) else (oitem, nitem);
      [Delta(Reversed(o, status), oitem.path, 2, FileOf(a), FileOf(b))]
  }

  /** maybe_modified */
  function MaybeModified(o: Options, oitem: Entry, nitem: Entry): seq<Delta> {
    if !o.matches(oitem.path) then []
    else if ModeType(oitem.mode) != ModeType(nitem.mode) then
      if o.includeTypechange then FromTwo(o, Typechange, oitem, nitem)
      else FromOne(o, Deleted, oitem, true) + FromOne(o, Added, nitem, false)
    else if oitem.id == nitem.id && oitem.mode == nitem.mode && oitem.id != 0 then FromTwo(o, Unmodified, oitem, nitem)
    else if IsGitlink(nitem.mode) && o.ignoreSubmodules then FromTwo(o, Unmodified, oitem, nitem)
    else FromTwo(o, Modified, oitem, nitem)
  }

  /** The main loop from a position in the two streams. */
  function Merge(o: Options, os: seq<Entry>, ns: seq<Entry>): seq<Delta>
    decreases |os| + |ns|
  {
    if os == [] && ns == [] then []
    else if os != [] && (ns == [] || Less(os[0].path, ns[0].path)) then FromOne(o, Deleted, os[0], true) + Merge(o, os[1..], ns)
    else if os == [] || Less(ns[0].path, os[0].path) then FromOne(o, Added, ns[0], false) + Merge(o, os, ns[1..])
    else MaybeModified(o, os[0], ns[0]) + Merge(o, os[1..], ns[1..])
  }

  // ------------------------------------------------------- what a list of deltas says

  type Tree = map<Path, File>

  function TreeOf(es: seq<Entry>): Tree {
    if es == [] then map[] else TreeOf(es[..|es| - 1])[es[|es| - 1].path := FileOf(es[|es| - 1])]
  }

  /** The tree without the paths that are deleted. */
  function Removed(t: Tree, ds: seq<Delta>): Tree {
    if ds == [] then t
    else if ds[0].status == Deleted then Removed(t - {ds[0].path}, ds[1..])
    else Removed(t, ds[1..])
  }

  /** The tree with the files that are added or changed. */
  function Put(t: Tree, ds: seq<Delta>): Tree
    decreases ds
  {
    if ds == [] then t
    else if ds[0].status == Deleted || ds[0].status == Unmodified then Put(t, ds[1..])
    else Put(t[ds[0].path := ds[0].newFile], ds[1..])
  }

  function Patched(t: Tree, ds: seq<Delta>): Tree { Put(Removed(t, ds), ds) }

  function At(ds: seq<Delta>, p: Path): seq<Delta> {
    if ds == [] then [] else (if ds[0].path == p then [ds[0]] else []) + At(ds[1..], p)
  }

  function Get(t: Tree, p: Path): Option<File> { if p in t then Some(t[p]) else None }

  function Find(es: seq<Entry>, p: Path): Option<Entry> {
    if es == [] then None else if es[0].path == p then Some(es[0]) else Find(es[1..], p)
  }

  lemma {:induction false} AtConcat(a: seq<Delta>, b: seq<Delta>, p: Path)
    ensures At(a + b, p) == At(a, p) + At(b, p)
  {
    if a == [] {
      assert a + b == b;
    } else {
      var h := if a[0].path == p then [a[0]] else [];
      AtConcat(a[1..], b, p);
      assert (a + b)[1..] == a[1..] + b;
      assert At(a + b, p) == h + At(a[1..] + b, p) && At(a, p) == h + At(a[1..], p);
      hide At;
      assert h + (At(a[1..], p) + At(b, p)) == h + At(a[1..], p) + At(b, p);
    }
  }

  /** What becomes of one path depends only on the deltas for that path. */
  lemma {:induction false} PutAt(t: Tree, u: Tree, ds: seq<Delta>, p: Path)
    requires Get(t, p) == Get(u, p)
    ensures Get(Put(t, ds), p) == Get(Put(u, At(ds, p)), p)
    decreases ds
  {
    if ds != [] {
      var c, rest := ds[0], At(ds[1..], p);
      if c.path == p {
        assert At(ds, p)[1..] == rest;
      } else {
        assert At(ds, p) == rest;
      }
      var put := !(c.status == Deleted || c.status == Unmodified);
      PutAt(if put then t[c.path := c.newFile] else t, if put && c.path == p then u[p := c.newFile] else u, ds[1..], p);
    }
  }

  lemma {:induction false} RemovedAt(t: Tree, u: Tree, ds: seq<Delta>, p: Path)
    requires Get(t, p) == Get(u, p)
    ensures Get(Removed(t, ds), p) == Get(Removed(u, At(ds, p)), p)
  {
    if ds != [] {
      var c, rest := ds[0], At(ds[1..], p);
      if c.path == p {
        assert At(ds, p)[1..] == rest;
      } else {
        assert At(ds, p) == rest;
      }
      RemovedAt(if c.status == Deleted then t - {c.path} else t, if c.status == Deleted && c.path == p then u - {p} else u, ds[1..], p);
    }
  }

  lemma PatchedAt(t: Tree, ds: seq<Delta>, p: Path)
    ensures Get(Patched(t, ds), p) == Get(Patched(t, At(ds, p)), p)
  {
    RemovedAt(t, t, ds, p);
    PutAt(Removed(t, ds), Removed(t, At(ds, p)), ds, p);
  }

  // ------------------------------------------------------ the merge, path by path

  /** The deltas for one path, from the two entries that it has. */
  function PathDeltas(o: Options, oitem: Option<Entry>, nitem: Option<Entry>): seq<Delta> {
    match (oitem, nitem)
    case (None, None) => []
    case (Some(a), None) => FromOne(o, Deleted, a, true)
    case (None, Some(b)) => FromOne(o, Added, b, false)
    case (Some(a), Some(b)) => MaybeModified(o, a, b)
  }

  lemma {:induction false} AtOwnPath(ds: seq<Delta>, p: Path)
    requires forall i :: 0 <= i < |ds| ==> ds[i].path == p
    ensures At(ds, p) == ds && forall q :: q != p ==> At(ds, q) == []
  {
    if ds != [] {
      AtOwnPath(ds[1..], p);
      assert ds == [ds[0]] + ds[1..];
    }
  }

  lemma {:induction false} FindBehind(es: seq<Entry>, p: Path)
    requires forall i :: 0 <= i < |es| ==> Less(p, es[i].path)
    ensures Find(es, p) == None
  {
    if es != [] {
      LessIrreflexive(p);
      FindBehind(es[1..], p);
    }
  }

  lemma SortedTail(es: seq<Entry>)
    requires Sorted(es) && es != []
    ensures Sorted(es[1..]) && forall i :: 0 <= i < |es[1..]| ==> Less(es[0].path, es[1..][i].path)
  {
  }

  lemma AllBehind(es: seq<Entry>, p: Path)
    requires Sorted(es) && (es != [] ==> Less(p, es[0].path))
    ensures Find(es, p) == None
  {
    hide Less;
    forall i | 0 <= i < |es| ensures Less(p, es[i].path) {
      if i > 0 { LessTransitive(p, es[0].path, es[i].path); }
    }
    FindBehind(es, p);
  }

  /** The head of the streams is done: its deltas are for its own path, and the path does
      not come again. */
  lemma HeadDone(ds: seq<Delta>, rest: seq<Delta>, h: Path, p: Path)
    requires forall i :: 0 <= i < |ds| ==> ds[i].path == h
    ensures At(ds + rest, p) == (if p == h then ds else []) + At(rest, p)
  {
    AtConcat(ds, rest, p);
    AtOwnPath(ds, h);
  }

  lemma FromOnePath(o: Options, status: Status, e: Entry, isOld: bool)
    ensures var ds := FromOne(o, status, e, isOld); forall i :: 0 <= i < |ds| ==> ds[i].path == e.path
  {
  }

  lemma MaybeModifiedPath(o: Options, a: Entry, b: Entry)
    requires a.path == b.path
    ensures var ds := MaybeModified(o, a, b); forall i :: 0 <= i < |ds| ==> ds[i].path == a.path
  {
  }

  /** For every path, the merge makes exactly the deltas that its two entries call for. */
  lemma {:induction false} MergeAt(o: Options, os: seq<Entry>, ns: seq<Entry>, p: Path)
    requires Sorted(os) && Sorted(ns)
    ensures At(Merge(o, os, ns), p) == PathDeltas(o, Find(os, p), Find(ns, p))
    decreases |os| + |ns|
  {
    hide Less, Sorted, At, FromOne, MaybeModified;
    if os == [] && ns == [] {
      AtNothing(p);
    } else if os != [] && (ns == [] || Less(os[0].path, ns[0].path)) {
      SortedTail(os);
      MergeAt(o, os[1..], ns, p);
      FromOnePath(o, Deleted, os[0], true);
      HeadDone(FromOne(o, Deleted, os[0], true), Merge(o, os[1..], ns), os[0].path, p);
      if p == os[0].path {
        FindBehind(os[1..], p);
        AllBehind(ns, p);
      }
    } else if os == [] || Less(ns[0].path, os[0].path) {
      SortedTail(ns);
      MergeAt(o, os, ns[1..], p);
      FromOnePath(o, Added, ns[0], false);
      HeadDone(FromOne(o, Added, ns[0], false), Merge(o, os, ns[1..]), ns[0].path, p);
      if p == ns[0].path {
        FindBehind(ns[1..], p);
        AllBehind(os, p);
      }
    } else {
      LessTotal(os[0].path, ns[0].path);
      SortedTail(os);
      SortedTail(ns);
      MergeAt(o, os[1..], ns[1..], p);
      MaybeModifiedPath(o, os[0], ns[0]);
      HeadDone(MaybeModified(o, os[0], ns[0]), Merge(o, os[1..], ns[1..]), os[0].path, p);
      if p == os[0].path {
        FindBehind(os[1..], p);
        FindBehind(ns[1..], p);
      }
    }
  }

  lemma AtNothing(p: Path)
    ensures At([], p) == []
  {
  }

  // -------------------------------------------------------------- the diff theorem

  lemma {:induction false} TreeAt(es: seq<Entry>, p: Path)
    requires Sorted(es)
    ensures Get(TreeOf(es), p) == match Find(es, p) case None => None case Some(e) => Some(FileOf(e))
    ensures Find(es, p).Some? ==> Find(es, p).value.path == p
  {
    if es != [] {
      var n := |es| - 1;
      TreeAt(es[..n], p);
      FindSnoc(es[..n], es[n], p);
      assert es == es[..n] + [es[n]];
      if es[n].path == p {
        forall i | 0 <= i < n ensures es[..n][i].path != p { LessIrreflexive(p); }
        FindNone(es[..n], p);
      }
    }
  }

  lemma {:induction false} FindNone(es: seq<Entry>, p: Path)
    requires forall i :: 0 <= i < |es| ==> es[i].path != p
    ensures Find(es, p) == None
  {
    if es != [] { FindNone(es[1..], p); }
  }

  lemma {:induction false} FindSnoc(es: seq<Entry>, e: Entry, p: Path)
    ensures Find(es + [e], p) == if Find(es, p).Some? then Find(es, p) else if e.path == p then Some(e) else None
  {
    if es == [] {
      assert es + [e] == [e];
    } else {
      assert (es + [e])[1..] == es[1..] + [e];
      FindSnoc(es[1..], e, p);
    }
  }

  /** Whether changes of a path are to be reported: its pathspec matches, and it is not a
      submodule on both sides while submodules are ignored. */
  predicate Reported(o: Options, p: Path, a: Option<File>, b: Option<File>) {
    o.matches(p) && !(o.ignoreSubmodules && a.Some? && b.Some? && IsGitlink(a.value.mode) && IsGitlink(b.value.mode))
  }

  /** The list of deltas describes the change from tree a to tree b. */
  ghost predicate Describes(o: Options, ds: seq<Delta>, a: Tree, b: Tree) {
    forall p :: Get(Patched(a, ds), p) == if Reported(o, p, Get(a, p), Get(b, p)) then Get(b, p) else Get(a, p)
  }

  lemma PathDescribes(o: Options, p: Path, t: Tree, oitem: Option<Entry>, nitem: Option<Entry>)
    requires (oitem.Some? ==> oitem.value.path == p) && (nitem.Some? ==> nitem.value.path == p)
    requires Get(t, p) == match if o.reverse then nitem else oitem case None => None case Some(e) => Some(FileOf(e))
    ensures var to := match if o.reverse then oitem else nitem case None => None case Some(e) => Some(FileOf(e));
            Get(Patched(t, PathDeltas(o, oitem, nitem)), p) == if Reported(o, p, Get(t, p), to) then to else Get(t, p)
  {
    var ds := PathDeltas(o, oitem, nitem);
    if |ds| == 1 {
      PatchedOne(t, ds[0]);
      assert ds == [ds[0]];
    } else if |ds| == 2 {
      PatchedTwo(t, ds[0], ds[1]);
      assert ds == [ds[0], ds[1]];
    } else {
      assert ds == [];
    }
    hide Patched;
  }

  function RemovedOne(t: Tree, d: Delta): Tree { if d.status == Deleted then t - {d.path} else t }

  function PutOne(t: Tree, d: Delta): Tree {
    if d.status == Deleted || d.status == Unmodified then t else t[d.path := d.newFile]
  }

  lemma HeadFirst(t: Tree, d: Delta, ds: seq<Delta>)
    ensures Removed(t, [d] + ds) == Removed(RemovedOne(t, d), ds) && Put(t, [d] + ds) == Put(PutOne(t, d), ds)
  {
    assert ([d] + ds)[0] == d && ([d] + ds)[1..] == ds;
  }

  lemma PatchedOne(t: Tree, d: Delta)
    ensures Patched(t, [d]) == PutOne(RemovedOne(t, d), d)
  {
    HeadFirst(t, d, []);
    HeadFirst(RemovedOne(t, d), d, []);
    assert [d] + [] == [d];
  }

  lemma PatchedTwo(t: Tree, d: Delta, e: Delta)
    ensures Patched(t, [d, e]) == PutOne(PutOne(RemovedOne(RemovedOne(t, d), e), d), e)
  {
    var r := RemovedOne(t, d);
    HeadFirst(t, d, [e]);
    HeadFirst(r, e, []);
    HeadFirst(RemovedOne(r, e), d, [e]);
    HeadFirst(PutOne(RemovedOne(r, e), d), e, []);
    assert [d] + [e] == [d, e] && [e] + [] == [e];
  }

  /** The merge describes the change from the old tree to the new one, and with
      GIT_DIFF_REVERSE from the new one to the old one. */
  lemma MergeDescribes(o: Options, os: seq<Entry>, ns: seq<Entry>)
    requires Sorted(os) && Sorted(ns)
    ensures if o.reverse then Describes(o, Merge(o, os, ns), TreeOf(ns), TreeOf(os))
            else Describes(o, Merge(o, os, ns), TreeOf(os), TreeOf(ns))
  {
    hide Merge, Sorted, TreeOf, Patched, PathDeltas, Reported;
    var ds := Merge(o, os, ns);
    var (a, b) := if o.reverse then (TreeOf(ns), TreeOf(os)) else (TreeOf(os), TreeOf(ns));
    forall p ensures Get(Patched(a, ds), p) == if Reported(o, p, Get(a, p), Get(b, p)) then Get(b, p) else Get(a, p) {
      TreeAt(os, p);
      TreeAt(ns, p);
      MergeAt(o, os, ns, p);
      PatchedAt(a, ds, p);
      PathDescribes(o, p, a, Find(os, p), Find(ns, p));
    }
  }

  /** When everything is reported, the deltas turn the one tree into the other. */
  lemma MergeTransforms(o: Options, os: seq<Entry>, ns: seq<Entry>)
    requires Sorted(os) && Sorted(ns) && !o.ignoreSubmodules && forall p :: o.matches(p)
    ensures if o.reverse then Patched(TreeOf(ns), Merge(o, os, ns)) == TreeOf(os)
            else Patched(TreeOf(os), Merge(o, os, ns)) == TreeOf(ns)
  {
    hide Merge, Sorted, TreeOf, Patched;
    MergeDescribes(o, os, ns);
    var (a, b) := if o.reverse then (TreeOf(ns), TreeOf(os)) else (TreeOf(os), TreeOf(ns));
    forall p ensures Get(Patched(a, Merge(o, os, ns)), p) == Get(b, p) {
    }
    SameTree(Patched(a, Merge(o, os, ns)), b);
  }

  lemma SameTree(a: Tree, b: Tree)
    requires forall p :: Get(a, p) == Get(b, p)
    ensures a == b
  {
    forall p ensures p in a <==> p in b { assert Get(a, p) == Get(b, p); }
    forall p | p in a ensures a[p] == b[p] { assert Get(a, p) == Get(b, p); }
  }

  // ------------------------------------------------------------- nothing is made up

  lemma {:induction false} InAt(ds: seq<Delta>, d: Delta)
    requires d in ds
    ensures d in At(ds, d.path)
  {
    if ds[0] != d { InAt(ds[1..], d); }
  }

  /** A delta is true of the two trees: its sides are what the trees hold, and there is
      a difference to report. */
  predicate True(d: Delta, a: Option<File>, b: Option<File>) {
    match d.status
    case Deleted => a == Some(d.oldFile) && d.newFile == NoFile && (b.Some? ==> ModeType(a.value.mode) != ModeType(b.value.mode))
    case Added => b == Some(d.newFile) && d.oldFile == NoFile && (a.Some? ==> ModeType(a.value.mode) != ModeType(b.value.mode))
    case Modified => a == Some(d.oldFile) && b == Some(d.newFile) && (a != b || a.value.id == 0) && ModeType(a.value.mode) == ModeType(b.value.mode)
    case Typechange => a == Some(d.oldFile) && b == Some(d.newFile) && ModeType(a.value.mode) != ModeType(b.value.mode)
    case Unmodified => a == Some(d.oldFile) && b == Some(d.newFile) && (a == b || (IsGitlink(a.value.mode) && IsGitlink(b.value.mode)))
  }

  function FoundFile(e: Option<Entry>): Option<File> {
    match e case None => None case Some(e) => Some(FileOf(e))
  }

  lemma PathTrue(o: Options, p: Path, oitem: Option<Entry>, nitem: Option<Entry>)
    requires (oitem.Some? ==> oitem.value.path == p) && (nitem.Some? ==> nitem.value.path == p)
    ensures forall d :: d in PathDeltas(o, oitem, nitem) ==>
              d.path == p && if o.reverse then True(d, FoundFile(nitem), FoundFile(oitem)) else True(d, FoundFile(oitem), FoundFile(nitem))
  {
  }

  /** Every delta is true. */
  lemma MergeTrue(o: Options, os: seq<Entry>, ns: seq<Entry>, d: Delta)
    requires Sorted(os) && Sorted(ns) && d in Merge(o, os, ns)
    ensures var (a, b) := (Get(TreeOf(os), d.path), Get(TreeOf(ns), d.path));
            if o.reverse then True(d, b, a) else True(d, a, b)
  {
    hide Merge, Sorted, TreeOf, PathDeltas, True;
    InAt(Merge(o, os, ns), d);
    MergeAt(o, os, ns, d.path);
    TreeAt(os, d.path);
    TreeAt(ns, d.path);
    PathTrue(o, d.path, Find(os, d.path), Find(ns, d.path));
  }

  // ------------------------------------------------------- every path, and the order

  /** Regular files, links and submodules are told apart by the upper bits of the mode. */
  predicate SameType(a: File, b: File) { a.mode / 4096 % 16 == b.mode / 4096 % 16 }

  predicate Submodule(a: File) { a.mode / 4096 % 16 == 14 }

  /** The deltas of a path whose file is `a` on the side the diff goes from and `b` on the
      side it goes to: nothing for a path that is not asked for; an unmodified one only on
      request; a change of type as one delta on request, and otherwise as two, in the order
      of the trees that were given. */
  function Reports(o: Options, p: Path, a: Option<File>, b: Option<File>): seq<Delta> {
    if !o.matches(p) || (a == None && b == None) then []
    else if b == None then [Delta(Deleted, p, 1, a.value, File(0, 0))]
    else if a == None then [Delta(Added, p, 1, File(0, 0), b.value)]
    else if !SameType(a.value, b.value) && o.includeTypechange then [Delta(Typechange, p, 2, a.value, b.value)]
    else if !SameType(a.value, b.value) then
      var (gone, come) := (Delta(Deleted, p, 1, a.value, File(0, 0)), Delta(Added, p, 1, File(0, 0), b.value));
      if o.reverse then [come, gone] else [gone, come]
    else if (a == b && a.value.id != 0) || (o.ignoreSubmodules && Submodule(a.value)) then
      if o.includeUnmodified then [Delta(Unmodified, p, 2, a.value, b.value)] else []
    else [Delta(Modified, p, 2, a.value, b.value)]
  }

  lemma PathReports(o: Options, p: Path, oitem: Option<Entry>, nitem: Option<Entry>)
    requires (oitem.Some? ==> oitem.value.path == p) && (nitem.Some? ==> nitem.value.path == p)
    ensures PathDeltas(o, oitem, nitem) ==
            if o.reverse then Reports(o, p, FoundFile(nitem), FoundFile(oitem)) else Reports(o, p, FoundFile(oitem), FoundFile(nitem))
  {
  }

  /** What is reported of every path, in either direction. */
  lemma MergeReports(o: Options, os: seq<Entry>, ns: seq<Entry>, p: Path)
    requires Sorted(os) && Sorted(ns)
    ensures var (a, b) := (Get(TreeOf(os), p), Get(TreeOf(ns), p));
            At(Merge(o, os, ns), p) == if o.reverse then Reports(o, p, b, a) else Reports(o, p, a, b)
  {
    hide Merge, Sorted, TreeOf, PathDeltas, Reports;
    MergeAt(o, os, ns, p);
    TreeAt(os, p);
    TreeAt(ns, p);
    PathReports(o, p, Find(os, p), Find(ns, p));
  }

  /** Two paths are compared where they first differ: the one with the smaller byte, or the one
      that ends there, comes first. */
  lemma {:induction false} LessIs(a: Path, b: Path) returns (k: nat)
    ensures k <= |a| && k <= |b| && a[..k] == b[..k] && (k == |a| || k == |b| || a[k] != b[k])
    ensures Less(a, b) <==> k < |b| && (k == |a| || a[k] < b[k])
  {
    k := 0;
    if a != [] && b != [] && a[0] == b[0] {
      var j := LessIs(a[1..], b[1..]);
      k := j + 1;
      assert a[..k] == [a[0]] + a[1..][..j] && b[..k] == [b[0]] + b[1..][..j];
    }
  }

  /** The deltas are in the order of their paths. */
  ghost predicate Ordered(ds: seq<Delta>) {
    forall i, j :: 0 <= i < j < |ds| ==> ds[i].path == ds[j].path || Less(ds[i].path, ds[j].path)
  }

  ghost predicate AllBehindPath(ds: seq<Delta>, p: Path) { forall i :: 0 <= i < |ds| ==> Less(p, ds[i].path) }

  lemma OrderedConcat(h: seq<Delta>, ds: seq<Delta>, p: Path)
    requires (forall i :: 0 <= i < |h| ==> h[i].path == p) && Ordered(ds) && AllBehindPath(ds, p)
    ensures Ordered(h + ds)
  {
    hide Less;
  }

  lemma {:induction false} MergeBehind(o: Options, os: seq<Entry>, ns: seq<Entry>, p: Path)
    requires (forall i :: 0 <= i < |os| ==> Less(p, os[i].path)) && forall i :: 0 <= i < |ns| ==> Less(p, ns[i].path)
    ensures AllBehindPath(Merge(o, os, ns), p)
    decreases |os| + |ns|
  {
    hide Less, FromOne, MaybeModified;
    if os == [] && ns == [] {
    } else if os != [] && (ns == [] || Less(os[0].path, ns[0].path)) {
      MergeBehind(o, os[1..], ns, p);
      FromOnePath(o, Deleted, os[0], true);
    } else if os == [] || Less(ns[0].path, os[0].path) {
      MergeBehind(o, os, ns[1..], p);
      FromOnePath(o, Added, ns[0], false);
    } else {
      LessTotal(os[0].path, ns[0].path);
      MergeBehind(o, os[1..], ns[1..], p);
      MaybeModifiedPath(o, os[0], ns[0]);
    }
  }

  lemma LaterBehind(es: seq<Entry>, p: Path)
    requires Sorted(es) && (es != [] ==> Less(p, es[0].path))
    ensures forall i :: 0 <= i < |es| ==> Less(p, es[i].path)
  {
    hide Less;
    forall i | 0 <= i < |es| ensures Less(p, es[i].path) {
      if i > 0 { LessTransitive(p, es[0].path, es[i].path); }
    }
  }

  lemma {:induction false} MergeOrdered(o: Options, os: seq<Entry>, ns: seq<Entry>)
    requires Sorted(os) && Sorted(ns)
    ensures Ordered(Merge(o, os, ns))
    decreases |os| + |ns|
  {
    hide Less, Sorted, FromOne, MaybeModified, Ordered, AllBehindPath;
    if os == [] && ns == [] {
      OrderedNothing();
    } else if os != [] && (ns == [] || Less(os[0].path, ns[0].path)) {
      SortedTail(os);
      LaterBehind(ns, os[0].path);
      MergeOrdered(o, os[1..], ns);
      MergeBehind(o, os[1..], ns, os[0].path);
      FromOnePath(o, Deleted, os[0], true);
      OrderedConcat(FromOne(o, Deleted, os[0], true), Merge(o, os[1..], ns), os[0].path);
    } else if os == [] || Less(ns[0].path, os[0].path) {
      SortedTail(ns);
      LaterBehind(os, ns[0].path);
      MergeOrdered(o, os, ns[1..]);
      MergeBehind(o, os, ns[1..], ns[0].path);
      FromOnePath(o, Added, ns[0], false);
      OrderedConcat(FromOne(o, Added, ns[0], false), Merge(o, os, ns[1..]), ns[0].path);
    } else {
      LessTotal(os[0].path, ns[0].path);
      SortedTail(os);
      SortedTail(ns);
      MergeOrdered(o, os[1..], ns[1..]);
      MergeBehind(o, os[1..], ns[1..], os[0].path);
      MaybeModifiedPath(o, os[0], ns[0]);
      OrderedConcat(MaybeModified(o, os[0], ns[0]), Merge(o, os[1..], ns[1..]), os[0].path);
    }
  }

  lemma OrderedNothing()
    ensures Ordered([])
  {
  }

  // ------------------------------------------------------------------------ the code

  /** A tree iterator with autoexpanded directories. */
  class Iterator {
    const entries: seq<Entry>
    var pos: nat

    constructor (entries: seq<Entry>)
      ensures this.entries == entries && pos == 0
    {
      this.entries := entries;
      pos := 0;
    }

    function Rest(): seq<Entry>
      requires pos <= |entries|
      reads this
    {
      entries[pos..]
    }

    /** iterator_current: the entry, or none at the end. */
    method Current() returns (entry: Option<Entry>)
      requires pos <= |entries|
      ensures entry == if Rest() == [] then None else Some(Rest()[0])
    {
      entry := if pos < |entries| then Some(entries[pos]) else None;
    }

    /** iterator_advance */
    method Advance() returns (entry: Option<Entry>)
      requires pos < |entries|
      modifies this
      ensures pos == old(pos) + 1 && Rest() == old(Rest())[1..]
      ensures entry == if Rest() == [] then None else Some(Rest()[0])
    {
      pos := pos + 1;
      entry := Current();
    }
  }

  class DiffGenerated {
    const o: Options
    var deltas: seq<Delta>

    constructor (o: Options)
      ensures this.o == o && deltas == []
    {
      this.o := o;
      deltas := [];
    }

    /** diff_delta__alloc */
    method DeltaAlloc(status: Status, path: Path) returns (d: Delta)
      ensures d == Delta(Reversed(o, status), path, 0, NoFile, NoFile)
    {
      var s := status;
      if o.reverse {
        match status {
          case Added => s := Deleted;
          case Deleted => s := Added;
          case _ =>
        }
      }
      d := Delta(s, path, 0, NoFile, NoFile);
    }

    /** diff_delta__from_one */
    method DeltaFromOne(status: Status, oitem: Option<Entry>, nitem: Option<Entry>)
      requires oitem.Some? != nitem.Some?
      modifies this
      ensures deltas == old(deltas) + FromOne(o, status, if oitem.Some? then oitem.value else nitem.value, oitem.Some?)
    {
      var entry := if oitem.Some? then oitem.value else nitem.value;
      var hasOld := oitem.Some?;
      if o.reverse { hasOld := !hasOld; }
      if !o.matches(entry.path) { return; }
      var d := DeltaAlloc(status, entry.path);
      d := d.(nfiles := 1);
      if hasOld {
        d := d.(oldFile := FileOf(entry));
      } else {
        d := d.(newFile := FileOf(entry));
      }
      deltas := deltas + [d];
    }

    /** diff_delta__from_two */
    method DeltaFromTwo(status: Status, oldEntry0: Entry, newEntry0: Entry)
      modifies this
      ensures deltas == old(deltas) + FromTwo(o, status, oldEntry0, newEntry0)
    {
      if status == Unmodified && !o.includeUnmodified { return; }
      var oldEntry, newEntry := oldEntry0, newEntry0;
      var canonicalPath := oldEntry.path;
      if o.reverse { oldEntry, newEntry := newEntry, oldEntry; }
      var d := DeltaAlloc(status, canonicalPath);
      d := d.(nfiles := 2, oldFile := FileOf(oldEntry), newFile := FileOf(newEntry));
      deltas := deltas + [d];
    }

    /** maybe_modified */
    method MaybeModifiedItem(oitem: Entry, nitem: Entry)
      modifies this
      ensures deltas == old(deltas) + MaybeModified(o, oitem, nitem)
    {
      if !o.matches(oitem.path) { return; }
      var status := Modified;
      if ModeType(oitem.mode) != ModeType(nitem.mode) {
        if o.includeTypechange {
          status := Typechange;
        } else {
          DeltaFromOne(Deleted, Some(oitem), None);
          DeltaFromOne(Added, None, Some(nitem));
          return;
        }
      } else if oitem.id == nitem.id && oitem.mode == nitem.mode && oitem.id != 0 {
        status := Unmodified;
      } else if IsGitlink(nitem.mode) && o.ignoreSubmodules {
        status := Unmodified;
      }
      DeltaFromTwo(status, oitem, nitem);
    }

    /** The main loop of git_diff__from_iterators. */
    method FromIterators(oldIter: Iterator, newIter: Iterator)
      requires oldIter != newIter && oldIter.pos == 0 && newIter.pos == 0 && deltas == []
      modifies this, oldIter, newIter
      ensures deltas == Merge(o, oldIter.entries, newIter.entries)
    {
      hide Merge, FromOne, MaybeModified, Less;
      ghost var all := Merge(o, oldIter.entries, newIter.entries);
      assert oldIter.Rest() == oldIter.entries && newIter.Rest() == newIter.entries;
      var oitem := oldIter.Current();
      var nitem := newIter.Current();
      while oitem.Some? || nitem.Some?
        invariant oldIter.pos <= |oldIter.entries| && newIter.pos <= |newIter.entries|
        invariant oitem == if oldIter.Rest() == [] then None else Some(oldIter.Rest()[0])
        invariant nitem == if newIter.Rest() == [] then None else Some(newIter.Rest()[0])
        invariant deltas + Merge(o, oldIter.Rest(), newIter.Rest()) == all
        decreases |oldIter.Rest()| + |newIter.Rest()|
      {
        MergeNext(o, deltas, oldIter.Rest(), newIter.Rest());
        if oitem.Some? && (nitem.None? || Less(oitem.value.path, nitem.value.path)) {
          DeltaFromOne(Deleted, oitem, None);
          oitem := oldIter.Advance();
        } else if oitem.None? || Less(nitem.value.path, oitem.value.path) {
          DeltaFromOne(Added, None, nitem);
          nitem := newIter.Advance();
        } else {
          MaybeModifiedItem(oitem.value, nitem.value);
          oitem := oldIter.Advance();
          nitem := newIter.Advance();
        }
      }
      MergeNothing(o);
    }
  }

  lemma MergeNext(o: Options, done: seq<Delta>, os: seq<Entry>, ns: seq<Entry>)
    requires os != [] || ns != []
    ensures done + Merge(o, os, ns) ==
            if os != [] && (ns == [] || Less(os[0].path, ns[0].path)) then done + FromOne(o, Deleted, os[0], true) + Merge(o, os[1..], ns)
            else if os == [] || Less(ns[0].path, os[0].path) then done + FromOne(o, Added, ns[0], false) + Merge(o, os, ns[1..])
            else done + MaybeModified(o, os[0], ns[0]) + Merge(o, os[1..], ns[1..])
  {
    hide FromOne, MaybeModified, Less;
  }

  lemma MergeNothing(o: Options)
    ensures Merge(o, [], []) == []
  {
  }

  /** git_diff_tree_to_tree: the deltas describe the change between the two trees, in the
      direction that is asked for, and each one is true of them. */
  method GitDiffTreeToTree(o: Options, os: seq<Entry>, ns: seq<Entry>) returns (deltas: seq<Delta>)
    requires Sorted(os) && Sorted(ns)
    ensures if o.reverse then Describes(o, deltas, TreeOf(ns), TreeOf(os)) else Describes(o, deltas, TreeOf(os), TreeOf(ns))
    ensures forall d :: d in deltas ==>
              var (a, b) := (Get(TreeOf(os), d.path), Get(TreeOf(ns), d.path));
              if o.reverse then True(d, b, a) else True(d, a, b)
    ensures forall p ::
              var (a, b) := (Get(TreeOf(os), p), Get(TreeOf(ns), p));
              At(deltas, p) == if o.reverse then Reports(o, p, b, a) else Reports(o, p, a, b)
    ensures Ordered(deltas)
  {
    hide Describes, Sorted, Merge, TreeOf, True, Reports, At, Ordered;
    var diff := new DiffGenerated(o);
    var oldIter := new Iterator(os);
    var newIter := new Iterator(ns);
    diff.FromIterators(oldIter, newIter);
    deltas := diff.deltas;
    MergeDescribes(o, os, ns);
    forall d | d in deltas ensures var (a, b) := (Get(TreeOf(os), d.path), Get(TreeOf(ns), d.path)); if o.reverse then True(d, b, a) else True(d, a, b) {
      MergeTrue(o, os, ns, d);
    }
    forall p
      ensures var (a, b) := (Get(TreeOf(os), p), Get(TreeOf(ns), p));
              At(deltas, p) == if o.reverse then Reports(o, p, b, a) else Reports(o, p, a, b)
    {
      MergeReports(o, os, ns, p);
    }
    MergeOrdered(o, os, ns);
  }
}
