/** The scoreboard of blame_git.c: a doubly linked list of entries that is split,
    relinked and merged in place. */
module BlameList {
  import opened Common
  import opened BlameLines
  import opened BlameEntries
  import opened BlameRun
  import opened BlameVerdict
  import BlameBoundary
  import BlameOldest

  class Entry {
    var lno: nat
    var numLines: nat
    var sLno: nat
    var suspect: Origin
    var guilty: bool
    var isBoundary: bool
    var prev: Entry?
    var next: Entry?

    function Value(): Ent
      reads this
    {
      Ent(lno, numLines, sLno, suspect, guilty, isBoundary)
    }

    constructor (v: Ent)
      ensures Value() == v && prev == null && next == null
    {
      lno, numLines, sLno, suspect, guilty, isBoundary := v.lno, v.numLines, v.sLno, v.suspect, v.guilty, v.isBoundary;
      prev, next := null, null;
    }

    /** dup_entry: takes over everything but the links. */
    method Dup(src: Ent)
      modifies this`lno, this`numLines, this`sLno, this`suspect, this`guilty, this`isBoundary
      ensures Value() == src
    {
      lno, numLines, sLno, suspect, guilty, isBoundary := src.lno, src.numLines, src.sLno, src.suspect, src.guilty, src.isBoundary;
    }
  }

  /** The entries as values. */
  ghost function Values(ns: seq<Entry>): (r: seq<Ent>)
    reads ns
    ensures |r| == |ns| && forall i :: 0 <= i < |ns| ==> r[i] == ns[i].Value()
  {
    if ns == [] then [] else [ns[0].Value()] + Values(ns[1..])
  }

  ghost predicate Distinct(ns: seq<Entry>) {
    forall i, j :: 0 <= i < j < |ns| ==> ns[i] != ns[j]
  }

  /** The i-th node, or null on either side of the list. */
  ghost function At(ns: seq<Entry>, i: int): Entry? {
    if 0 <= i < |ns| then ns[i] else null
  }

  ghost predicate Linked(ns: seq<Entry>)
    reads ns
  {
    forall i :: 0 <= i < |ns| ==> ns[i].next == At(ns, i + 1) && ns[i].prev == At(ns, i - 1)
  }

  ghost predicate Within(ns: seq<Entry>, pool: set<Entry>) {
    forall i :: 0 <= i < |ns| ==> ns[i] in pool
  }

  function InsertAt<T>(s: seq<T>, k: nat, x: T): seq<T>
    requires k <= |s|
  {
    s[..k] + [x] + s[k..]
  }

  /** With e hooked in between, the list with e at position k is linked. */
  lemma LinkedAfterInsert(ns: seq<Entry>, e: Entry, k: nat)
    requires k <= |ns| && e.next == At(ns, k) && e.prev == At(ns, k - 1)
    requires forall j :: 0 <= j < |ns| ==> ns[j].next == if j == k - 1 then e else At(ns, j + 1)
    requires forall j :: 0 <= j < |ns| ==> ns[j].prev == if j == k then e else At(ns, j - 1)
    ensures Linked(InsertAt(ns, k, e))
  {
    var ms := InsertAt(ns, k, e);
    forall i | 0 <= i < |ms| ensures ms[i].next == At(ms, i + 1) && ms[i].prev == At(ms, i - 1) {
      if i < k {
        assert ms[i] == ns[i];
      } else if i > k {
        assert ms[i] == ns[i - 1];
      }
    }
  }

  lemma DistinctAfterInsert(ns: seq<Entry>, e: Entry, k: nat)
    requires k <= |ns| && Distinct(ns) && e !in ns
    ensures var ms := InsertAt(ns, k, e); Distinct(ms) && At(ms, 0) == if k == 0 then e else At(ns, 0)
  {
    var ms := InsertAt(ns, k, e);
    assert forall i :: 0 <= i < |ms| ==> ms[i] == if i < k then ns[i] else if i == k then e else ns[i - 1];
  }

  lemma WithinAfterInsert(ns: seq<Entry>, pool: set<Entry>, e: Entry, k: nat)
    requires k <= |ns| && Within(ns, pool)
    ensures Within(InsertAt(ns, k, e), pool + {e})
  {
  }

  lemma WithinAt(ns: seq<Entry>, pool: set<Entry>, k: nat)
    requires Within(ns, pool) && k <= |ns|
    ensures (k < |ns| ==> ns[k] in pool) && (k > 0 ==> ns[k - 1] in pool)
  {
  }

  lemma OnlyAt(ns: seq<Entry>, k: int)
    requires Distinct(ns)
    ensures 0 <= k < |ns| ==> forall j :: 0 <= j < |ns| && j != k ==> ns[j] != ns[k]
  {
  }

  /** Entries whose links are not changed stay linked. */
  twostate lemma SameLinks(ns: seq<Entry>)
    requires old(Linked(ns)) && forall i :: 0 <= i < |ns| ==> ns[i].next == old(ns[i].next) && ns[i].prev == old(ns[i].prev)
    ensures Linked(ns)
  {
  }

  /** Entries that only had links changed keep their values. */
  twostate lemma SameValues(ns: seq<Entry>)
    requires forall i :: 0 <= i < |ns| ==> ns[i].Value() == old(ns[i].Value())
    ensures Values(ns) == old(Values(ns))
  {
  }

  lemma ValuesCut(ns: seq<Entry>, k: nat)
    requires k <= |ns|
    ensures Values(ns[..k]) == Values(ns)[..k]
    ensures Values(ns[k..]) == Values(ns)[k..]
  {
    hide Values;
  }

  lemma ValuesConcat(a: seq<Entry>, b: seq<Entry>)
    ensures Values(a + b) == Values(a) + Values(b)
  {
    hide Values;
  }

  lemma ValuesOne(e: Entry)
    ensures Values([e]) == [e.Value()]
  {
  }

  lemma ValuesInsert(ns: seq<Entry>, k: nat, e: Entry)
    requires k <= |ns|
    ensures Values(InsertAt(ns, k, e)) == InsertAt(Values(ns), k, e.Value())
  {
    hide Values;
    ValuesConcat(ns[..k] + [e], ns[k..]);
    ValuesConcat(ns[..k], [e]);
    ValuesCut(ns, k);
    ValuesOne(e);
  }

  lemma InsertMembers(ns: seq<Entry>, k: nat, e: Entry)
    requires k < |ns|
    ensures forall n :: n in InsertAt(ns, k + 1, e) ==> n == e || n in ns
    ensures InsertAt(ns, k + 1, e)[k] == ns[k] && |InsertAt(ns, k + 1, e)| == |ns| + 1
  {
  }

  /** All entries up to p begin before `lno`, all behind p at or after it. */
  ghost predicate Place(es: seq<Ent>, p: nat, lno: nat) {
    && (forall i :: 0 <= i <= p && i < |es| ==> es[i].lno < lno)
    && (forall i :: p < i < |es| ==> es[i].lno >= lno)
  }

  lemma {:induction false} TilesOrder(es: seq<Ent>, lo: nat, hi: nat, i: nat, j: nat)
    requires Tiles(es, lo, hi) && i < j < |es|
    ensures lo <= es[i].lno && es[i].lno + es[i].numLines <= es[j].lno
    decreases i + j
  {
    if i > 0 {
      TilesOrder(es[1..], lo + es[0].numLines, hi, i - 1, j - 1);
    } else if j > 1 {
      TilesOrder(es[1..], lo + es[0].numLines, hi, 0, j - 1);
    }
  }

  /** A part of the entry at p that does not begin it belongs right behind it. */
  lemma PlaceOfPart(es: seq<Ent>, lo: nat, hi: nat, p: nat, x: Ent, lno: nat)
    requires Tiles(es, lo, hi) && p < |es| && x.lno == es[p].lno
    requires es[p].lno < lno <= es[p].lno + es[p].numLines
    ensures Place(es[p := x], p, lno)
  {
    forall i | 0 <= i < |es| ensures if i < p then es[i].lno < lno else i > p ==> es[i].lno >= lno {
      if i < p { TilesOrder(es, lo, hi, i, p); }
      if i > p { TilesOrder(es, lo, hi, p, i); }
    }
  }

  lemma PlaceBefore(es: seq<Ent>, p: nat, v: Ent, lno: nat)
    requires p < |es| && Place(es, p, lno) && lno <= v.lno
    ensures Place(InsertAt(es, p + 1, v), p, lno)
  {
  }

  /** `es` with the entry at p replaced by several. */
  function Replaced(es: seq<Ent>, p: nat, parts: seq<Ent>): seq<Ent>
    requires p < |es|
  {
    es[..p] + parts + es[p + 1..]
  }

  lemma ReplacedByOne(es: seq<Ent>, p: nat, a: Ent)
    requires p < |es|
    ensures es[p := a] == Replaced(es, p, [a])
  {
  }

  lemma ReplacedByTwo(es: seq<Ent>, p: nat, a: Ent, b: Ent)
    requires p < |es|
    ensures InsertAt(es[p := a], p + 1, b) == Replaced(es, p, [a, b])
  {
  }

  lemma ReplacedByThree(es: seq<Ent>, p: nat, a: Ent, b: Ent, c: Ent)
    requires p < |es|
    ensures InsertAt(InsertAt(es[p := a], p + 1, c), p + 1, b) == Replaced(es, p, [a, b, c])
  {
    ReplacedByTwo(es, p, a, c);
    assert Replaced(es, p, [a, c])[..p + 1] == es[..p] + [a];
    assert Replaced(es, p, [a, c])[p + 1..] == [c] + es[p + 1..];
  }

  lemma ValuesUpdate(ns: seq<Entry>, before: seq<Ent>, p: nat)
    requires |before| == |ns| && p < |ns| && Distinct(ns)
    requires forall i :: 0 <= i < |ns| && i != p ==> ns[i].Value() == before[i]
    ensures Values(ns) == before[p := ns[p].Value()]
  {
  }

  // ------------------------------------------------- the walk of blame_chunk

  lemma {:induction false} ApplyAllConcat(a: seq<Ent>, b: seq<Ent>, c: Chunk)
    ensures ApplyAll(a + b, c) == ApplyAll(a, c) + ApplyAll(b, c)
  {
    hide Apply;
    if a == [] {
      assert a + b == b;
    } else {
      assert (a + b)[1..] == a[1..] + b;
      ApplyAllConcat(a[1..], b, c);
    }
  }

  lemma {:induction false} TilesCut(es: seq<Ent>, lo: nat, hi: nat, j: nat) returns (mid: nat)
    requires Tiles(es, lo, hi) && j <= |es|
    ensures Tiles(es[..j], lo, mid) && Tiles(es[j..], mid, hi)
    decreases j
  {
    if j == 0 {
      mid := lo;
    } else {
      mid := TilesCut(es[1..], lo + es[0].numLines, hi, j - 1);
      assert es[..j][1..] == es[1..][..j - 1];
      assert es[1..][j - 1..] == es[j..];
    }
  }

  /** The list when the first j of the original entries have been dealt with. */
  ghost function Walked(es: seq<Ent>, c: Chunk, j: nat): seq<Ent>
    requires j <= |es|
  {
    ApplyAll(es[..j], c) + es[j..]
  }

  lemma WalkedTiles(es: seq<Ent>, c: Chunk, j: nat, lo: nat, hi: nat)
    requires Tiles(es, lo, hi) && j <= |es|
    ensures Tiles(Walked(es, c, j), lo, hi)
  {
    var mid := TilesCut(es, lo, hi, j);
    ApplyAllTiles(es[..j], c, lo, mid);
    TilesConcat(ApplyAll(es[..j], c), es[j..], lo, mid, hi);
  }

  /** Dealing with the next entry puts what becomes of it in its place. */
  lemma WalkedStep(es: seq<Ent>, c: Chunk, j: nat)
    requires j < |es|
    ensures var m := |ApplyAll(es[..j], c)|;
            && m < |Walked(es, c, j)| && Walked(es, c, j)[m] == es[j]
            && Walked(es, c, j + 1) == Replaced(Walked(es, c, j), m, Apply(es[j], c))
            && ApplyAll(es[..j + 1], c) == ApplyAll(es[..j], c) + Apply(es[j], c)
  {
    hide Apply;
    var done, m := ApplyAll(es[..j], c), |ApplyAll(es[..j], c)|;
    assert es[..j + 1] == es[..j] + [es[j]];
    ApplyAllConcat(es[..j], [es[j]], c);
    assert ApplyAll([es[j]], c) == Apply(es[j], c) + [];
    assert Walked(es, c, j)[..m] == done;
    assert Walked(es, c, j)[m + 1..] == es[j + 1..];
  }

  lemma WalkedEnds(es: seq<Ent>, c: Chunk)
    ensures Walked(es, c, 0) == es
    ensures Walked(es, c, |es|) == ApplyAll(es, c)
  {
    assert es[..|es|] == es;
  }

  /** The parts of a split entry do not overlap the chunk any more, so that the walk
      does nothing when it comes to the nodes it has just linked in. */
  lemma PartsAreDone(e: Ent, c: Chunk)
    requires c.parent != c.target && Overlaps(e, c) && c.tlno <= c.same && SplitOverlap(e, c).mid.Some?
    ensures forall i :: 0 <= i < |Apply(e, c)| ==> !Overlaps(Apply(e, c)[i], c)
  {
  }

  /** The walk is at position a of `model`: j original entries are dealt with, and
      what is left of their parts from a on has nothing to do with the chunk. */
  ghost predicate Walking(model: seq<Ent>, es: seq<Ent>, c: Chunk, j: nat, a: nat) {
    && j <= |es| && model == Walked(es, c, j)
    && a <= |ApplyAll(es[..j], c)|
    && forall i :: a <= i < |ApplyAll(es[..j], c)| ==> !Overlaps(model[i], c)
  }

  lemma WalkStart(es: seq<Ent>, c: Chunk)
    ensures Walking(es, es, c, 0, 0)
  {
    WalkedEnds(es, c);
  }

  lemma WalkSkip(model: seq<Ent>, es: seq<Ent>, c: Chunk, j: nat, a: nat) returns (j': nat)
    requires Walking(model, es, c, j, a) && a < |model| && !Overlaps(model[a], c)
    ensures j <= j' <= |es| && Walking(model, es, c, j', a + 1)
  {
    hide Overlaps;
    j' := j;
    if a == |ApplyAll(es[..j], c)| {
      WalkedStep(es, c, j);
      assert Apply(es[j], c) == [es[j]];
      ReplacedByOne(model, a, es[j]);
      j' := j + 1;
    }
  }

  lemma WalkSplit(model: seq<Ent>, es: seq<Ent>, c: Chunk, j: nat, a: nat)
    requires Walking(model, es, c, j, a) && a < |model| && Overlaps(model[a], c)
    requires Applicable(es, c) && c.parent != c.target
    ensures j < |es| && c.tlno <= c.same
    ensures Walking(Replaced(model, a, Apply(model[a], c)), es, c, j + 1, a + 1)
  {
    hide SplitOverlap;
    var done := ApplyAll(es[..j], c);
    assert a == |done|;
    WalkedStep(es, c, j);
    assert c.tlno <= c.same;
    if SplitOverlap(es[j], c).mid.Some? { PartsAreDone(es[j], c); }
    AppliedSome(es[j], c);
    var model' := Replaced(model, a, Apply(es[j], c));
    forall i | a + 1 <= i < |ApplyAll(es[..j + 1], c)| ensures !Overlaps(model'[i], c) {
      assert model'[i] == Apply(es[j], c)[i - a];
    }
  }

  lemma AppliedSome(e: Ent, c: Chunk)
    ensures |Apply(e, c)| >= 1
  {
  }

  lemma WalkEnd(model: seq<Ent>, es: seq<Ent>, c: Chunk, j: nat, a: nat)
    requires Walking(model, es, c, j, a) && a >= |model|
    ensures model == ApplyAll(es, c)
  {
    assert es[..|es|] == es;
  }

  lemma WalkTiles(model: seq<Ent>, es: seq<Ent>, c: Chunk, j: nat, a: nat, lo: nat, hi: nat)
    requires Walking(model, es, c, j, a) && Tiles(es, lo, hi)
    ensures Tiles(model, lo, hi)
  {
    WalkedTiles(es, c, j, lo, hi);
  }

  lemma ValueAt(ns: seq<Entry>, i: nat)
    ensures |Values(ns)| == |ns| && (i < |ns| ==> Values(ns)[i] == ns[i].Value())
  {
  }

  lemma NextNode(ns: seq<Entry>, i: nat)
    requires i < |ns| && Linked(ns)
    ensures ns[i].next == At(ns, i + 1)
  {
  }

  class Scoreboard {
    const history: History
    const firstParent: bool
    var oldest: Option<nat>
    var ent: Entry?
    ghost var nodes: seq<Entry>   // the list
    ghost var pool: set<Entry>    // all entries ever linked in

    ghost predicate Valid()
      reads this, nodes
    {
      Distinct(nodes) && Linked(nodes) && ent == At(nodes, 0) && Within(nodes, pool)
    }

    ghost function Model(): seq<Ent>
      reads this, nodes
    {
      Values(nodes)
    }

    /** The walk of add_blame_entry: the last entry that begins before `lno`. */
    method FindPrev(lno: nat, ghost p: nat) returns (prev: Entry?)
      requires Valid() && p < |nodes| && Place(Model(), p, lno)
      ensures prev == nodes[p]
    {
      var n := ent;
      prev := null;
      ghost var k := 0;
      assert forall i :: 0 <= i < |nodes| ==> Model()[i].lno == nodes[i].lno;
      while n != null && n.lno < lno
        invariant 0 <= k <= p + 1 && n == At(nodes, k) && prev == At(nodes, k - 1)
        decreases |nodes| - k
      {
        prev := n;
        n := n.next;
        k := k + 1;
      }
    }

    /** The pointer assignments of add_blame_entry. */
    method Hook(e: Entry, prev: Entry?, ghost k: nat)
      requires Valid() && e !in nodes && k <= |nodes| && prev == At(nodes, k - 1)
      modifies this`ent, pool`prev, pool`next, e`prev, e`next
      ensures ent == (if k == 0 then e else old(ent)) && e.next == At(nodes, k) && e.prev == At(nodes, k - 1)
      ensures forall j :: 0 <= j < |nodes| ==> nodes[j].next == if j == k - 1 then e else old(nodes[j].next)
      ensures forall j :: 0 <= j < |nodes| ==> nodes[j].prev == if j == k then e else old(nodes[j].prev)
    {
      hide Distinct, Within, Linked;
      if k > 0 { NextNode(nodes, k - 1); }
      WithinAt(nodes, pool, k);
      OnlyAt(nodes, k - 1);
      OnlyAt(nodes, k);
      e.prev := prev;
      if prev != null {
        e.next := prev.next;
        prev.next := e;
      } else {
        e.next := ent;
        ent := e;
      }
      if e.next != null {
        e.next.prev := e;
      }
    }

    /** Links `e` in behind `prev`, the node before position k. */
    method Link(e: Entry, prev: Entry?, ghost k: nat)
      requires Valid() && e !in nodes && k <= |nodes| && prev == At(nodes, k - 1)
      modifies this`ent, this`nodes, this`pool, pool`prev, pool`next, e`prev, e`next
      ensures Valid() && nodes == InsertAt(old(nodes), k, e) && pool == old(pool) + {e}
    {
      hide Distinct, InsertAt, Within, Linked;
      LinkFacts(nodes);
      Hook(e, prev, k);
      LinkedAfterInsert(nodes, e, k);
      DistinctAfterInsert(nodes, e, k);
      WithinAfterInsert(nodes, pool, e, k);
      nodes := InsertAt(nodes, k, e);
      pool := pool + {e};
    }

    /** add_blame_entry: a new entry goes behind all that begin before it. */
    method AddBlameEntry(v: Ent, ghost p: nat)
      requires Valid() && p < |nodes| && Place(Model(), p, v.lno)
      modifies this`ent, this`nodes, this`pool, pool`prev, pool`next
      ensures Valid() && |nodes| == |old(nodes)| + 1 && nodes[p] == old(nodes)[p]
      ensures fresh(pool - old(pool))
      ensures Model() == InsertAt(old(Model()), p + 1, v)
    {
      hide Linked, InsertAt, Distinct, Place, Values;
      ghost var ns := nodes;
      var e := new Entry(v);
      var prev := FindPrev(v.lno, p);
      Link(e, prev, p + 1);
      InsertMembers(ns, p, e);
      SameValues(ns);
      ValuesInsert(ns, p + 1, e);
    }

    /** dup_entry on the node at p. */
    method DupAt(e: Entry, v: Ent, ghost p: nat)
      requires Valid() && p < |nodes| && nodes[p] == e
      modifies e`lno, e`numLines, e`sLno, e`suspect, e`guilty, e`isBoundary
      ensures Valid() && nodes == old(nodes) && Model() == old(Model())[p := v]
    {
      hide Distinct, Values;
      ghost var before := Model();
      OnlyAt(nodes, p);
      ValueAt(nodes, p);
      e.Dup(v);
      ValuesUpdate(nodes, before, p);
    }

    /** split_blame: the node of the entry is reused for the first part, and new
        nodes are linked in for the others. */
    method SplitBlame(split: Split, e: Entry, ghost p: nat, ghost c: Chunk, ghost lo: nat, ghost hi: nat)
      requires Valid() && p < |nodes| && nodes[p] == e && Tiles(Model(), lo, hi)
      requires Overlaps(e.Value(), c) && c.tlno <= c.same && split == SplitOverlap(e.Value(), c) && split.mid.Some?
      modifies this`ent, this`nodes, this`pool, pool
      ensures Valid() && |nodes| >= |old(nodes)| && nodes[p] == e
      ensures fresh(pool - old(pool))
      ensures Model() == Replaced(old(Model()), p, Parts(old(e.Value()), split))
    {
      hide Distinct, Linked, Values, Place, Tiles, InsertAt, Replaced, Within;
      ghost var es := Model();
      var mid := split.mid.value;
      if split.pre.Some? && split.post.Some? {
        SplitInThree(split.pre.value, mid, split.post.value, e, p, lo, hi);
        assert Parts(old(e.Value()), split) == [split.pre.value, mid, split.post.value];
      } else if !split.pre.Some? && !split.post.Some? {
        WithinAt(nodes, pool, p);
        DupAt(e, mid, p);
        ReplacedByOne(es, p, mid);
        assert Parts(old(e.Value()), split) == [mid];
      } else if split.pre.Some? {
        SplitInTwo(split.pre.value, mid, e, p, lo, hi);
        assert Parts(old(e.Value()), split) == [split.pre.value, mid];
      } else {
        SplitInTwo(mid, split.post.value, e, p, lo, hi);
        assert Parts(old(e.Value()), split) == [mid, split.post.value];
      }
    }

    /** Me and then the parent, or the parent and then me. */
    method SplitInTwo(a: Ent, b: Ent, e: Entry, ghost p: nat, ghost lo: nat, ghost hi: nat)
      requires Valid() && p < |nodes| && nodes[p] == e && Tiles(Model(), lo, hi)
      requires a.lno == e.lno < b.lno <= e.lno + e.numLines
      modifies this`ent, this`nodes, this`pool, pool
      ensures Valid() && |nodes| >= |old(nodes)| && nodes[p] == e && fresh(pool - old(pool))
      ensures Model() == Replaced(old(Model()), p, [a, b])
    {
      hide Distinct, Linked, Values, Place, Tiles, InsertAt, Replaced, Within;
      ghost var es := Model();
      ValueAt(nodes, p);
      WithinAt(nodes, pool, p);
      DupAt(e, a, p);
      PlaceOfPart(es, lo, hi, p, a, b.lno);
      AddBlameEntry(b, p);
      ReplacedByTwo(es, p, a, b);
    }

    /** Me, the parent, and me again; the last part is linked in before the middle. */
    method SplitInThree(a: Ent, b: Ent, c: Ent, e: Entry, ghost p: nat, ghost lo: nat, ghost hi: nat)
      requires Valid() && p < |nodes| && nodes[p] == e && Tiles(Model(), lo, hi)
      requires a.lno == e.lno < b.lno <= c.lno <= e.lno + e.numLines
      modifies this`ent, this`nodes, this`pool, pool
      ensures Valid() && |nodes| >= |old(nodes)| && nodes[p] == e && fresh(pool - old(pool))
      ensures Model() == Replaced(old(Model()), p, [a, b, c])
    {
      hide Distinct, Linked, Values, Place, Tiles, InsertAt, Replaced, Within;
      ghost var es := Model();
      ValueAt(nodes, p);
      WithinAt(nodes, pool, p);
      DupAt(e, a, p);
      PlaceOfPart(es, lo, hi, p, a, c.lno);
      AddBlameEntry(c, p);
      PlaceOfPart(es, lo, hi, p, a, b.lno);
      PlaceBefore(es[p := a], p, c, b.lno);
      AddBlameEntry(b, p);
      ReplacedByThree(es, p, a, b, c);
    }

    /** blame_overlap. */
    method BlameOverlap(e: Entry, c: Chunk, ghost p: nat, ghost lo: nat, ghost hi: nat)
      requires Valid() && p < |nodes| && nodes[p] == e && Tiles(Model(), lo, hi)
      requires Overlaps(e.Value(), c) && c.tlno <= c.same
      modifies this`ent, this`nodes, this`pool, pool
      ensures Valid() && |nodes| >= |old(nodes)| && nodes[p] == e
      ensures fresh(pool - old(pool))
      ensures Model() == Replaced(old(Model()), p, Apply(old(e.Value()), c))
    {
      hide Distinct, Linked, Values, Tiles, Replaced;
      ghost var es := Model();
      var split := SplitOverlap(e.Value(), c);
      if split.mid.Some? {
        SplitBlame(split, e, p, c, lo, hi);
      } else {
        ValueAt(nodes, p);
        ReplacedByOne(es, p, es[p]);
        assert es[p := es[p]] == es;
      }
    }

    /** blame_chunk: walks the list while it is being split. */
    method BlameChunk(c: Chunk, ghost lo: nat, ghost hi: nat)
      requires Valid() && Tiles(Model(), lo, hi) && Applicable(Model(), c) && c.parent != c.target
      modifies this`ent, this`nodes, this`pool, pool
      ensures Valid() && fresh(pool - old(pool))
      ensures Model() == ApplyAll(old(Model()), c)
    {
      hide Distinct, Linked, Values, Tiles, Replaced, Apply, Overlaps, ApplyAll, Walking, Applicable, SplitOverlap;
      ghost var es := Model();
      ghost var j, a := 0, 0;
      WalkStart(es, c);
      var e := ent;
      while e != null
        invariant Valid() && 0 <= j <= |es| && e == At(nodes, a)
        invariant fresh(pool - old(pool))
        invariant Walking(Model(), es, c, j, a)
        decreases |es| - j, |nodes| - a
      {
        ghost var model := Model();
        ValueAt(nodes, a);
        if Overlaps(e.Value(), c) {
          WalkSplit(model, es, c, j, a);
          WalkTiles(model, es, c, j, a, lo, hi);
          BlameOverlap(e, c, a, lo, hi);
          assert Model() == Replaced(model, a, Apply(model[a], c));
          j := j + 1;
        } else {
          j := WalkSkip(model, es, c, j, a);
        }
        assert Walking(Model(), es, c, j, a + 1);
        NextNode(nodes, a);
        e := e.next;
        a := a + 1;
      }
      WalkEnd(Model(), es, c, j, a);
    }

    /** find_last_in_target. */
    method FindLastInTarget(target: Origin) returns (found: bool, last: nat)
      requires Valid()
      ensures last == LastInTarget(Model(), target) && (found <==> last > 0)
    {
      hide Distinct, Values;
      last, found := 0, false;
      var e := ent;
      ghost var k := 0;
      assert Model()[0..] == Model();
      while e != null
        invariant 0 <= k <= |nodes| && e == At(nodes, k) && (found <==> last > 0)
        invariant Max(last, LastInTarget(Model()[k..], target)) == LastInTarget(Model(), target)
        decreases |nodes| - k
      {
        assert Model()[k..][1..] == Model()[k + 1..];
        if !e.guilty && e.suspect == target && last < e.sLno + e.numLines {
          found, last := true, e.sLno + e.numLines;
        }
        e := e.next;
        k := k + 1;
      }
    }

    /** pass_blame_to_parent with the hunks of xdiff; true when nothing remained. */
    method PassBlameToParent(target: Origin, parent: Origin, ghost lo: nat, ghost hi: nat) returns (nothing: bool)
      requires Valid() && Tiles(Model(), lo, hi) && target != parent && ValidDiffs(history)
      modifies this`ent, this`nodes, this`pool, pool
      ensures Valid() && fresh(pool - old(pool))
      ensures nothing <==> LastInTarget(old(Model()), target) == 0
      ensures Model() == if nothing then old(Model()) else PassToParent(old(Model()), history, target, parent)
    {
      hide Distinct, Linked, Values, Tiles, ApplyAll, LastInTarget, Below;
      ghost var es := Model();
      var found, last := FindLastInTarget(target);
      if !found {
        return true;
      }
      var hs := history.diff(parent, target);
      ghost var a, b := history.text(parent), history.text(target);
      var tlno: nat, plno: nat, i := 0, 0, 0;
      LastIsBound(es, target);
      assert hs[0..] == hs && ValidHunks(a, b, hs, 0, 0);
      while i < |hs|
        invariant i <= |hs| && Valid() && Tiles(Model(), lo, hi)
        invariant fresh(pool - old(pool))
        invariant ValidHunks(a, b, hs[i..], plno, tlno)
        invariant Below(Lines(Model()), target, last)
        invariant PassHunks(Model(), hs[i..], plno, tlno, last, target, parent) == PassHunks(es, hs, 0, 0, last, target, parent)
      {
        assert hs[i..][1..] == hs[i + 1..];
        var c := Chunk(tlno, plno, hs[i].startB, target, parent);
        ghost var model := Model();
        BlameChunk(c, lo, hi);
        AfterChunk(model, c, last, lo, hi);
        plno := hs[i].startA + hs[i].countA;
        tlno := hs[i].startB + hs[i].countB;
        i := i + 1;
      }
      TailApplicable(Model(), Chunk(tlno, plno, last, target, parent), lo, hi);
      BlameChunk(Chunk(tlno, plno, last, target, parent), lo, hi);
      return false;
    }

    /** pass_whole_blame for one node. */
    method PassNode(e: Entry, o: Origin, p: Origin, ghost k: nat)
      requires Valid() && k < |nodes| && nodes[k] == e
      modifies e`suspect
      ensures Valid() && nodes == old(nodes)
      ensures Model() == old(Model())[k := PassedOn(old(Model())[k], o, p)]
    {
      hide Distinct, Values;
      ghost var before := Model();
      OnlyAt(nodes, k);
      ValueAt(nodes, k);
      if e.suspect == o {
        e.suspect := p;
      }
      ValuesUpdate(nodes, before, k);
    }

    /** pass_whole_blame. */
    method PassWholeBlame(o: Origin, p: Origin)
      requires Valid()
      modifies pool`suspect
      ensures Valid() && Model() == PassWhole(old(Model()), o, p)
    {
      hide PassWhole, Distinct, Linked, Values, WholeTo;
      ghost var es := Model();
      ghost var k := 0;
      WholeEnds(es, o, p);
      var e := ent;
      while e != null
        invariant Valid() && 0 <= k <= |nodes| == |es| && e == At(nodes, k)
        invariant Model() == WholeTo(es, o, p, k)
        decreases |nodes| - k
      {
        WholeStep(es, o, p, k);
        PassNode(e, o, p, k);
        NextNode(nodes, k);
        e := e.next;
        k := k + 1;
      }
    }

    /** The end of a round for one node. */
    method ConvictNode(e: Entry, o: Origin, boundary: bool, ghost k: nat)
      requires Valid() && k < |nodes| && nodes[k] == e
      modifies e`guilty, e`isBoundary
      ensures Valid() && nodes == old(nodes)
      ensures Model() == old(Model())[k := Convicted(old(Model())[k], o, boundary)]
    {
      hide Distinct, Values, Linked, Within;
      ghost var before := Model();
      OnlyAt(nodes, k);
      ValueAt(nodes, k);
      if e.suspect == o {
        e.guilty := true;
        e.isBoundary := boundary;
      }
      SameLinks(nodes);
      ValuesUpdate(nodes, before, k);
    }

    /** The end of a round: the suspect is convicted of the lines it has left. */
    method TakeResponsibility(o: Origin)
      requires Valid()
      modifies pool`guilty, pool`isBoundary
      ensures Valid() && Model() == Convict(old(Model()), o, oldest == Some(o.commit))
    {
      hide Convict, Distinct, Linked, Values, ConvictTo;
      ghost var es := Model();
      ghost var k := 0;
      var boundary := oldest == Some(o.commit);
      ConvictEnds(es, o, boundary);
      var e := ent;
      while e != null
        invariant Valid() && 0 <= k <= |nodes| == |es| && e == At(nodes, k)
        invariant Model() == ConvictTo(es, o, boundary, k)
        decreases |nodes| - k
      {
        ConvictToStep(es, o, boundary, k);
        ConvictNode(e, o, boundary, k);
        NextNode(nodes, k);
        e := e.next;
        k := k + 1;
      }
    }

    /** The candidates of pass_blame, or the parent file with the same blob. */
    method Candidates(o: Origin) returns (how: Passing)
      ensures how == PassingOf(history, firstParent, oldest, o)
    {
      var n := ParentCount(history, o.commit, firstParent, oldest);
      var found: seq<Origin>, i := [], 0;
      while i < n
        invariant i <= n && Decide(history, o, n, i, found) == Decide(history, o, n, 0, [])
      {
        var path := history.find(o, i);
        if path.Some? {
          var p := Origin(history.parents(o.commit)[i], path.value);
          if history.text(p) == history.text(o) {
            return Whole(p);
          }
          if !SameBlob(history, found, p) {
            found := found + [p];
          }
        }
        i := i + 1;
      }
      return Standard(found);
    }

    /** pass_blame. */
    method PassBlame(o: Origin, ghost lo: nat, ghost hi: nat)
      requires Valid() && Tiles(Model(), lo, hi) && Acyclic(history) && ValidDiffs(history)
      modifies this`ent, this`nodes, this`pool, this`oldest, pool
      ensures Valid() && fresh(pool - old(pool))
      ensures Model() == BlameRun.PassBlame(old(Model()), history, o, PassingOf(history, firstParent, old(oldest), o))
      ensures oldest == if ParentCount(history, o.commit, firstParent, old(oldest)) == 0 then Some(o.commit) else old(oldest)
    {
      hide Distinct, Linked, Values, Tiles, PassToParent, PassWhole, LastInTarget, ValidHunks, Decide;
      var how := Candidates(o);
      DecideFromParents(history, o, ParentCount(history, o.commit, firstParent, oldest), 0, []);
      if ParentCount(history, o.commit, firstParent, oldest) == 0 {
        NoParents(history, o, firstParent, oldest);
        oldest := Some(o.commit);
        return;
      }
      match how
      case Whole(p) =>
        PassWholeBlame(o, p);
      case Standard(ps) =>
        NotOwnParent(history, o, ps);
        PassCandidates(o, ps, lo, hi);
    }

    /** The standard loop of pass_blame over the candidates. */
    method PassCandidates(o: Origin, ps: seq<Origin>, ghost lo: nat, ghost hi: nat)
      requires Valid() && Tiles(Model(), lo, hi) && ValidDiffs(history) && o !in ps
      modifies this`ent, this`nodes, this`pool, pool
      ensures Valid() && fresh(pool - old(pool))
      ensures Model() == PassStandard(old(Model()), history, o, ps)
    {
      hide Distinct, Linked, Values, Tiles, PassHunks, LastInTarget, ValidHunks, PassStandard, PassToParent;
      ghost var es := Model();
      var i := 0;
      assert ps[0..] == ps;
      while i < |ps|
        invariant i <= |ps| && Valid() && Tiles(Model(), lo, hi)
        invariant fresh(pool - old(pool))
        invariant PassStandard(Model(), history, o, ps[i..]) == PassStandard(es, history, o, ps)
      {
        ghost var model := Model();
        PassStandardStep(model, history, o, ps, i, lo, hi);
        var nothing := PassBlameToParent(o, ps[i], lo, hi);
        if nothing {
          return;
        }
        i := i + 1;
      }
      PassStandardEnd(Model(), history, o, ps[i..]);
    }

    /** The first open entry's suspect. */
    method FindSuspect() returns (suspect: Option<Origin>, ghost k: nat)
      requires Valid()
      ensures suspect.None? ==> FirstOpen(Model()) == None
      ensures suspect.Some? ==> FirstOpen(Model()) == Some(k) && Model()[k].suspect == suspect.value
    {
      hide Distinct, Values, FirstOpen;
      var e := ent;
      k := 0;
      while e != null
        invariant 0 <= k <= |nodes| && e == At(nodes, k)
        invariant forall i :: 0 <= i < k ==> Model()[i].guilty
        decreases |nodes| - k
      {
        if !e.guilty {
          return Some(e.suspect), k;
        }
        e := e.next;
        k := k + 1;
      }
      return None, k;
    }

    /** The assignments of one step of coalesce. */
    method Unhook(e: Entry, ghost k: nat)
      requires Valid() && k + 1 < |nodes| && nodes[k] == e
      modifies e`numLines, e`next, pool`prev
      ensures forall j :: 0 <= j < |nodes| && j != k + 1 ==> nodes[j].next == if j == k then At(nodes, k + 2) else At(nodes, j + 1)
      ensures forall j :: 0 <= j < |nodes| && j != k + 1 ==> nodes[j].prev == if j == k + 2 then nodes[k] else At(nodes, j - 1)
      ensures e.numLines == old(e.numLines) + old(nodes[k + 1].numLines)
    {
      hide Distinct, Linked, Within;
      LinkFacts(nodes);
      WithinAt(nodes, pool, k + 2);
      OnlyAt(nodes, k);
      OnlyAt(nodes, k + 2);
      var next := e.next;
      e.numLines := e.numLines + next.numLines;
      e.next := next.next;
      if e.next != null {
        WithinAt(nodes, pool, k + 2);
        e.next.prev := e;
      }
    }

    /** One step of coalesce: the node behind k is merged into it and unlinked. */
    method MergeNext(e: Entry, ghost k: nat)
      requires Valid() && k + 1 < |nodes| && nodes[k] == e
      modifies this`nodes, pool
      ensures Valid() && nodes == old(nodes)[..k + 1] + old(nodes)[k + 2..]
      ensures Model() == MergedAt(old(Model()), k)
    {
      hide Distinct, Values, Linked, MergedAt, Within;
      ghost var ns := nodes;
      ghost var before := Model();
      OnlyAt(ns, k);
      WithinAt(ns, pool, k);
      ValueAt(ns, k);
      ValueAt(ns, k + 1);
      Unhook(e, k);
      ValuesUpdate(ns, before, k);
      MergedIs(before, k, e.Value());
      ValuesUnlinked(ns, Values(ns), k);
      Unlinked(ns, k);
      DistinctUnlinked(ns, k);
      nodes := ns[..k + 1] + ns[k + 2..];
    }

    /** coalesce. */
    method Coalesce()
      requires Valid()
      modifies this`nodes, pool
      ensures Valid()
      ensures Model() == BlameRun.Coalesce(old(Model()))
    {
      hide Distinct, Linked, Values, Coalescing, MergedAt;
      ghost var es := Model();
      ghost var k := 0;
      CoalescingStart(es);
      var e := ent;
      while e != null && e.next != null
        invariant Valid() && 0 <= k <= |nodes| && e == At(nodes, k)
        invariant Coalescing(Model(), es, k)
        decreases |nodes| - k
      {
        NextNode(nodes, k);
        ValueAt(nodes, k);
        ValueAt(nodes, k + 1);
        var next := e.next;
        CoalescingStep(Model(), es, k);
        if e.suspect == next.suspect && e.guilty == next.guilty && e.sLno + e.numLines == next.sLno {
          MergeNext(e, k);
        } else {
          e := next;
          k := k + 1;
        }
      }
      if e != null { NextNode(nodes, k); }
      ValueAt(nodes, k);
      CoalescingEnd(Model(), es, k);
    }

    /** The scoreboard of blame_internal: one open entry for the requested lines. */
    constructor (history: History, firstParent: bool, oldest: Option<nat>, o: Origin, lo: nat, n: nat)
      ensures Valid() && fresh(pool)
      ensures this.history == history && this.firstParent == firstParent && this.oldest == oldest
      ensures Model() == [Ent(lo, n, lo, o, false, false)]
    {
      this.history, this.firstParent, this.oldest := history, firstParent, oldest;
      var e := new Entry(Ent(lo, n, lo, o, false, false));
      ent := e;
      nodes, pool := [e], {e};
    }

    /** git_blame__like_git.  For any history, at the end every line is somebody's
        fault, the entries still tile the range, no two neighbours could be merged,
        and every line has its text at the place it is blamed on; the list is that of
        rounds for the first open suspect, coalesced.  The culprit of each line is the one
        that tracing that line alone arrives at, provided that the given oldest commit is
        respected. */
    method LikeGit(ghost lo: nat, ghost hi: nat, ghost final: seq<string>)
      requires Valid() && Acyclic(history) && ValidDiffs(history)
      requires Tiles(Model(), lo, hi) && TextOk(history, Lines(Model()), final)
      requires forall i :: 0 <= i < |Lines(Model())| ==> !Lines(Model())[i].guilty
      modifies this`ent, this`nodes, this`pool, this`oldest, pool
      ensures Valid() && Tiles(Model(), lo, hi) && TextOk(history, Lines(Model()), final)
      ensures forall i :: 0 <= i < |Model()| ==> Model()[i].guilty
      ensures forall i :: 0 <= i < |Model()| - 1 ==>
                Model()[i].suspect != Model()[i + 1].suspect || Model()[i].sLno + Model()[i].numLines != Model()[i + 1].sLno
      ensures Model() == BlameRun.Coalesce(Run(history, firstParent, old(oldest), old(Model())))
      ensures OldestHolds(history, firstParent, old(oldest), old(Model())) ==>
                Verdict(history, firstParent, old(oldest), Lines(Model()), old(Lines(Model())))
      ensures |old(Model())| == 1 && BlameOldest.Respected(history, firstParent, old(oldest), old(Model()[0].suspect.commit)) ==>
                Verdict(history, firstParent, old(oldest), Lines(Model()), old(Lines(Model())))
      ensures OldestHolds(history, firstParent, old(oldest), old(Model())) && Solid(old(Model())) ==>
                forall i :: 0 <= i < |Model()| ==>
                  (Model()[i].isBoundary <==> history.parents(Model()[i].suspect.commit) == [] || old(oldest) == Some(Model()[i].suspect.commit))
    {
      hide Distinct, Linked, Values, Within, Running, Measure, BlameRun.Coalesce, Decide, BlameRun.PassBlame, BlameRun.Convict, FirstOpen, Run,
           OldestHolds, Verdict, BlameOldest.Respected;
      ghost var es0, oldest0 := Model(), oldest;
      if |es0| == 1 {
        assert es0 == [es0[0]];
        BlameOldest.RespectedHolds(history, firstParent, oldest0, es0[0]);
      }
      StartsRunning(history, firstParent, oldest, Model(), lo, hi, final);
      Boundaries(history, firstParent, oldest, Model(), lo, hi, final);
      var more := true;
      while more
        invariant Valid() && fresh(pool - old(pool))
        invariant Running(history, firstParent, oldest0, oldest, es0, Model(), lo, hi, final)
        invariant !more ==> FirstOpen(Model()) == None
        decreases more, Measure(history, Model())
      {
        var suspect, k := FindSuspect();
        if suspect.None? {
          more := false;
        } else {
          var o := suspect.value;
          RoundRuns(history, firstParent, oldest0, oldest, es0, Model(), lo, hi, final, k);
          RunningTiles(history, firstParent, oldest0, oldest, es0, Model(), lo, hi, final);
          PassBlame(o, lo, hi);
          TakeResponsibility(o);
        }
      }
      FinishRun(history, firstParent, oldest0, oldest, es0, Model(), lo, hi, final);
      Coalesce();
    }
  }

  lemma RunningTiles(h: History, first: bool, oldest0: Option<nat>, oldest: Option<nat>, es0: seq<Ent>, es: seq<Ent>,
                     lo: nat, hi: nat, final: seq<string>)
    requires Running(h, first, oldest0, oldest, es0, es, lo, hi, final)
    ensures Tiles(es, lo, hi)
  {
  }

  lemma StartsRunning(h: History, first: bool, oldest: Option<nat>, es: seq<Ent>, lo: nat, hi: nat, final: seq<string>)
    requires Acyclic(h) && ValidDiffs(h) && Tiles(es, lo, hi) && TextOk(h, Lines(es), final)
    requires forall i :: 0 <= i < |Lines(es)| ==> !Lines(es)[i].guilty
    ensures Running(h, first, oldest, oldest, es, es, lo, hi, final)
  {
    hide Trace, Run, EndsOnlyAt, Reaches;
  }

  lemma Boundaries(h: History, first: bool, oldest: Option<nat>, es: seq<Ent>, lo: nat, hi: nat, final: seq<string>)
    requires Running(h, first, oldest, oldest, es, es, lo, hi, final) && forall i :: 0 <= i < |Lines(es)| ==> !Lines(es)[i].guilty
    ensures OldestHolds(h, first, oldest, es) && Solid(es) ==>
              var r := BlameRun.Coalesce(Run(h, first, oldest, es));
              forall i :: 0 <= i < |r| && r[i].guilty ==>
                (r[i].isBoundary <==> h.parents(r[i].suspect.commit) == [] || oldest == Some(r[i].suspect.commit))
  {
    hide OldestHolds, StillHolds, OnTrace, Tiles, TextOk, Run, BlameRun.Coalesce, Lines;
    if OldestHolds(h, first, oldest, es) && Solid(es) {
      forall i | 0 <= i < |es| ensures !es[i].guilty {
        var j := BlameBoundary.LineOfEntry(es, i);
      }
      BlameBoundary.BoundariesRight(h, first, oldest, es, lo, hi, final);
      var r := BlameRun.Coalesce(Run(h, first, oldest, es));
      assert forall i :: 0 <= i < |r| ==> BlameBoundary.Right(h, oldest, r[i]);
    }
  }

  lemma FinishRun(h: History, first: bool, oldest0: Option<nat>, oldest: Option<nat>, es0: seq<Ent>, es: seq<Ent>,
                  lo: nat, hi: nat, final: seq<string>)
    requires Running(h, first, oldest0, oldest, es0, es, lo, hi, final) && FirstOpen(es) == None
    ensures var r := BlameRun.Coalesce(es);
            && Tiles(r, lo, hi) && TextOk(h, Lines(r), final)
            && (forall i :: 0 <= i < |r| ==> r[i].guilty)
            && (forall i :: 0 <= i < |r| - 1 ==> !Mergeable(r[i], r[i + 1]))
            && es == Run(h, first, oldest0, es0)
            && (OldestHolds(h, first, oldest0, es0) ==> Verdict(h, first, oldest0, Lines(r), Lines(es0)))
  {
    hide Lines, Tiles, TextOk, BlameRun.Coalesce, OnTrace, Verdict, OldestHolds, FirstOpen;
    CoalesceLines(es);
    CoalesceTiles(es, lo, hi);
    CoalesceFinal(es);
    CoalesceGuilty(es);
    assert Run(h, first, oldest, es) == es;
    if OldestHolds(h, first, oldest0, es0) {
      RunDone(h, first, oldest0, es, Lines(es0));
    }
  }

  function MergedAt(es: seq<Ent>, k: nat): seq<Ent>
    requires k + 1 < |es|
  {
    es[..k] + [es[k].(numLines := es[k].numLines + es[k + 1].numLines)] + es[k + 2..]
  }

  lemma LinkFacts(ns: seq<Entry>)
    requires Linked(ns)
    ensures forall j :: 0 <= j < |ns| ==> ns[j].next == At(ns, j + 1) && ns[j].prev == At(ns, j - 1)
  {
  }

  lemma Unlinked(ns: seq<Entry>, k: nat)
    requires k + 1 < |ns|
    requires forall j :: 0 <= j < |ns| && j != k + 1 ==> ns[j].next == if j == k then At(ns, k + 2) else At(ns, j + 1)
    requires forall j :: 0 <= j < |ns| && j != k + 1 ==> ns[j].prev == if j == k + 2 then ns[k] else At(ns, j - 1)
    ensures Linked(ns[..k + 1] + ns[k + 2..])
  {
    var ms := ns[..k + 1] + ns[k + 2..];
    forall i | 0 <= i < |ms| ensures ms[i].next == At(ms, i + 1) && ms[i].prev == At(ms, i - 1) {
      if i <= k {
        assert ms[i] == ns[i];
      } else {
        assert ms[i] == ns[i + 1];
      }
    }
  }

  lemma DistinctUnlinked(ns: seq<Entry>, k: nat)
    requires k + 1 < |ns| && Distinct(ns)
    ensures var ms := ns[..k + 1] + ns[k + 2..];
            Distinct(ms) && At(ms, 0) == At(ns, 0) && (forall pool :: Within(ns, pool) ==> Within(ms, pool))
  {
    var ms := ns[..k + 1] + ns[k + 2..];
    assert forall i :: 0 <= i < |ms| ==> ms[i] == if i <= k then ns[i] else ns[i + 1];
  }

  lemma MergedIs(es: seq<Ent>, k: nat, v: Ent)
    requires k + 1 < |es| && v == es[k].(numLines := es[k].numLines + es[k + 1].numLines)
    ensures MergedAt(es, k) == es[k := v][..k] + [es[k := v][k]] + es[k := v][k + 2..]
  {
  }

  lemma ValuesUnlinked(ns: seq<Entry>, es: seq<Ent>, k: nat)
    requires k + 1 < |ns| && Values(ns) == es
    ensures Values(ns[..k + 1] + ns[k + 2..]) == es[..k] + [es[k]] + es[k + 2..]
  {
    hide Values;
    ValuesConcat(ns[..k + 1], ns[k + 2..]);
    ValuesCut(ns, k + 1);
    ValuesCut(ns, k + 2);
  }

  /** coalesce at position k: what lies before is final. */
  ghost predicate Coalescing(model: seq<Ent>, es: seq<Ent>, k: nat) {
    k <= |model| && model[..k] + BlameRun.Coalesce(model[k..]) == BlameRun.Coalesce(es)
  }

  lemma CoalescingStart(es: seq<Ent>)
    ensures Coalescing(es, es, 0)
  {
    assert es[0..] == es;
    assert [] + BlameRun.Coalesce(es) == BlameRun.Coalesce(es);
  }

  lemma CoalescingStep(model: seq<Ent>, es: seq<Ent>, k: nat)
    requires Coalescing(model, es, k) && k + 1 < |model|
    ensures if Mergeable(model[k], model[k + 1]) then Coalescing(MergedAt(model, k), es, k) else Coalescing(model, es, k + 1)
  {
    var rest := model[k..];
    if Mergeable(model[k], model[k + 1]) {
      var m := MergedAt(model, k);
      assert m[k..] == [m[k]] + rest[2..];
      assert m[..k] == model[..k];
    } else {
      assert rest[1..] == model[k + 1..];
      assert model[..k] + ([model[k]] + BlameRun.Coalesce(model[k + 1..])) == model[..k + 1] + BlameRun.Coalesce(model[k + 1..]);
    }
  }

  lemma CoalescingEnd(model: seq<Ent>, es: seq<Ent>, k: nat)
    requires Coalescing(model, es, k) && |model| <= k + 1
    ensures model == BlameRun.Coalesce(es)
  {
    assert model[..k] + model[k..] == model;
  }

  lemma PassStandardStep(es: seq<Ent>, h: History, o: Origin, ps: seq<Origin>, i: nat, lo: nat, hi: nat)
    requires i < |ps| && Tiles(es, lo, hi)
    ensures PassStandard(es, h, o, ps[i..]) ==
            if LastInTarget(es, o) == 0 then es else PassStandard(PassToParent(es, h, o, ps[i]), h, o, ps[i + 1..])
    ensures Tiles(PassToParent(es, h, o, ps[i]), lo, hi)
  {
    assert ps[i..][1..] == ps[i + 1..];
    PassHunksTiles(es, h.diff(ps[i], o), 0, 0, LastInTarget(es, o), o, ps[i], lo, hi);
  }

  lemma PassStandardEnd(es: seq<Ent>, h: History, o: Origin, ps: seq<Origin>)
    requires ps == []
    ensures PassStandard(es, h, o, ps) == es
  {
  }

  lemma NoParents(h: History, o: Origin, first: bool, oldest: Option<nat>)
    requires ParentCount(h, o.commit, first, oldest) == 0
    ensures PassingOf(h, first, oldest, o) == Standard([])
  {
  }

  function PassedOn(e: Ent, o: Origin, p: Origin): Ent { if e.suspect == o then e.(suspect := p) else e }

  function Convicted(e: Ent, o: Origin, boundary: bool): Ent {
    if e.suspect == o then e.(guilty := true, isBoundary := boundary) else e
  }

  /** pass_whole_blame when k nodes have been visited. */
  ghost function WholeTo(es: seq<Ent>, o: Origin, p: Origin, k: nat): (r: seq<Ent>)
    requires k <= |es|
    ensures |r| == |es|
  {
    PassWholeConcat(es[..k], [], o, p);
    PassWhole(es[..k], o, p) + es[k..]
  }

  lemma WholeEnds(es: seq<Ent>, o: Origin, p: Origin)
    ensures WholeTo(es, o, p, 0) == es && WholeTo(es, o, p, |es|) == PassWhole(es, o, p)
  {
    assert es[..|es|] == es;
  }

  lemma WholeStep(es: seq<Ent>, o: Origin, p: Origin, k: nat)
    requires k < |es|
    ensures WholeTo(es, o, p, k + 1) == WholeTo(es, o, p, k)[k := PassedOn(WholeTo(es, o, p, k)[k], o, p)]
  {
    assert es[..k + 1] == es[..k] + [es[k]];
    PassWholeConcat(es[..k], [es[k]], o, p);
    assert PassWhole([es[k]], o, p) == [PassedOn(es[k], o, p)];
  }

  /** The conviction when k nodes have been visited. */
  ghost function ConvictTo(es: seq<Ent>, o: Origin, boundary: bool, k: nat): (r: seq<Ent>)
    requires k <= |es|
    ensures |r| == |es|
  {
    ConvictConcat(es[..k], [], o, boundary);
    Convict(es[..k], o, boundary) + es[k..]
  }

  lemma ConvictEnds(es: seq<Ent>, o: Origin, boundary: bool)
    ensures ConvictTo(es, o, boundary, 0) == es && ConvictTo(es, o, boundary, |es|) == Convict(es, o, boundary)
  {
    assert es[..|es|] == es;
  }

  lemma ConvictToStep(es: seq<Ent>, o: Origin, boundary: bool, k: nat)
    requires k < |es|
    ensures ConvictTo(es, o, boundary, k + 1) == ConvictTo(es, o, boundary, k)[k := Convicted(ConvictTo(es, o, boundary, k)[k], o, boundary)]
  {
    assert es[..k + 1] == es[..k] + [es[k]];
    ConvictConcat(es[..k], [es[k]], o, boundary);
    assert Convict([es[k]], o, boundary) == [Convicted(es[k], o, boundary)];
  }

  lemma {:induction false} PassWholeConcat(a: seq<Ent>, b: seq<Ent>, o: Origin, p: Origin)
    ensures PassWhole(a + b, o, p) == PassWhole(a, o, p) + PassWhole(b, o, p)
    ensures |PassWhole(a, o, p)| == |a|
  {
    if a == [] {
      assert a + b == b;
    } else {
      assert (a + b)[1..] == a[1..] + b;
      PassWholeConcat(a[1..], b, o, p);
    }
  }

  lemma {:induction false} ConvictConcat(a: seq<Ent>, b: seq<Ent>, o: Origin, boundary: bool)
    ensures Convict(a + b, o, boundary) == Convict(a, o, boundary) + Convict(b, o, boundary)
    ensures |Convict(a, o, boundary)| == |a|
  {
    if a == [] {
      assert a + b == b;
    } else {
      assert (a + b)[1..] == a[1..] + b;
      ConvictConcat(a[1..], b, o, boundary);
    }
  }

  lemma AfterChunk(es: seq<Ent>, c: Chunk, last: nat, lo: nat, hi: nat)
    requires Tiles(es, lo, hi) && Below(Lines(es), c.target, last) && c.parent != c.target
    ensures Tiles(ApplyAll(es, c), lo, hi) && Below(Lines(ApplyAll(es, c)), c.target, last)
  {
    ApplyAllTiles(es, c, lo, hi);
    ApplyAllMoves(es, c);
    BelowMoves(Lines(es), c, last);
  }

  /** The tail chunk can only be out of order where the target has no lines left. */
  lemma TailApplicable(es: seq<Ent>, c: Chunk, lo: nat, hi: nat)
    requires Below(Lines(es), c.target, c.same)
    ensures Applicable(es, c)
  {
    if c.tlno > c.same {
      forall i | 0 <= i < |es| ensures !Overlaps(es[i], c) {
        if !es[i].guilty && es[i].suspect == c.target && es[i].numLines >= 1 {
          BelowEntries(es, c.target, c.same, i);
        }
      }
    }
  }
}
