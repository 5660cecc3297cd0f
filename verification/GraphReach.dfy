/** Commit graphs, reachability, and what the flags of graph.c say about it. */
module GraphReach {
  /** Commits are numbered; every commit has its parents and its time. */
  datatype Dag = Dag(parents: seq<seq<nat>>, time: seq<int>)

  ghost predicate WellFormed(g: Dag) {
    && |g.time| == |g.parents|
    && (forall c, p :: 0 <= c < |g.parents| && p in g.parents[c] ==> p < |g.parents|)
    && (forall c, i :: 0 <= c < |g.parents| && 0 <= i < |g.parents[c]| ==> g.parents[c][i] < |g.parents|)
  }

  /** Every parent is older than its child. */
  ghost predicate StrictTimes(g: Dag)
    requires WellFormed(g)
  {
    forall c, p :: 0 <= c < |g.parents| && p in g.parents[c] ==> g.time[p] < g.time[c]
  }

  /** `b` is reached from `a` in k steps from child to parent. */
  ghost predicate ReachIn(g: Dag, a: nat, b: nat, k: nat)
    requires WellFormed(g)
    decreases k
  {
    b < |g.parents| &&
    if k == 0 then a == b
    else exists c :: 0 <= c < |g.parents| && ReachIn(g, a, c, k - 1) && b in g.parents[c]
  }

  ghost predicate Reaches(g: Dag, a: nat, b: nat)
    requires WellFormed(g)
  {
    exists k: nat :: ReachIn(g, a, b, k)
  }

  lemma ReachesSelf(g: Dag, a: nat)
    requires WellFormed(g) && a < |g.parents|
    ensures Reaches(g, a, a)
  {
    assert ReachIn(g, a, a, 0);
  }

  lemma ReachesParent(g: Dag, a: nat, c: nat, p: nat)
    requires WellFormed(g) && c < |g.parents| && Reaches(g, a, c) && p in g.parents[c]
    ensures Reaches(g, a, p)
  {
    var k: nat :| ReachIn(g, a, c, k);
    assert ReachIn(g, a, p, k + 1);
  }

  lemma {:induction false} ReachInTrans(g: Dag, a: nat, b: nat, c: nat, k: nat)
    requires WellFormed(g) && Reaches(g, a, b) && ReachIn(g, b, c, k)
    ensures Reaches(g, a, c)
    decreases k
  {
    if k > 0 {
      var d :| 0 <= d < |g.parents| && ReachIn(g, b, d, k - 1) && c in g.parents[d];
      ReachInTrans(g, a, b, d, k - 1);
      ReachesParent(g, a, d, c);
    }
  }

  /** An ancestor of both commits. */
  ghost predicate CommonAnc(g: Dag, one: nat, two: nat, x: nat)
    requires WellFormed(g)
  {
    Reaches(g, one, x) && Reaches(g, two, x)
  }

  /** Some child of x is a common ancestor. */
  ghost predicate HasCommonChild(g: Dag, one: nat, two: nat, x: nat)
    requires WellFormed(g)
  {
    exists c :: 0 <= c < |g.parents| && CommonAnc(g, one, two, c) && x in g.parents[c]
  }

  /** A best common ancestor: one that is no proper ancestor of another. */
  ghost predicate Best(g: Dag, one: nat, two: nat, x: nat)
    requires WellFormed(g)
  {
    CommonAnc(g, one, two, x) && forall y :: 0 <= y < |g.parents| && y != x && CommonAnc(g, one, two, y) ==> !Reaches(g, y, x)
  }

  lemma {:induction false} ReachInOlder(g: Dag, a: nat, b: nat, k: nat)
    requires WellFormed(g) && StrictTimes(g) && a < |g.parents| && ReachIn(g, a, b, k)
    ensures if k == 0 then a == b else g.time[b] < g.time[a]
    decreases k
  {
    if k > 0 {
      var c :| 0 <= c < |g.parents| && ReachIn(g, a, c, k - 1) && b in g.parents[c];
      ReachInOlder(g, a, c, k - 1);
    }
  }

  /** With strict times, best means common without a common child. */
  lemma BestIsChildless(g: Dag, one: nat, two: nat, x: nat)
    requires WellFormed(g) && StrictTimes(g) && x < |g.parents|
    ensures Best(g, one, two, x) <==> CommonAnc(g, one, two, x) && !HasCommonChild(g, one, two, x)
  {
    if CommonAnc(g, one, two, x) {
      if HasCommonChild(g, one, two, x) {
        var c :| 0 <= c < |g.parents| && CommonAnc(g, one, two, c) && x in g.parents[c];
        ReachesSelf(g, c);
        ReachesParent(g, c, c, x);
        assert g.time[x] < g.time[c];
      } else {
        forall y | 0 <= y < |g.parents| && y != x && CommonAnc(g, one, two, y) ensures !Reaches(g, y, x) {
          if Reaches(g, y, x) {
            var k: nat :| ReachIn(g, y, x, k);
            LastStep(g, one, two, y, x, k);
          }
        }
      }
    }
  }

  /** Below a common ancestor lies a child that is common as well. */
  lemma LastStep(g: Dag, one: nat, two: nat, y: nat, x: nat, k: nat)
    requires WellFormed(g) && CommonAnc(g, one, two, y) && y != x && ReachIn(g, y, x, k)
    ensures HasCommonChild(g, one, two, x)
  {
    var c :| 0 <= c < |g.parents| && ReachIn(g, y, c, k - 1) && x in g.parents[c];
    ReachInTrans(g, one, y, c, k - 1);
    ReachInTrans(g, two, y, c, k - 1);
  }

  // ----------------------------------------------------------------------- flags

  datatype Flags = Flags(p1: bool, p2: bool, stale: bool, result: bool)

  const CLEAR: Flags := Flags(false, false, false, false)

  /** (a & b) == b for the flags that are handed on. */
  predicate Has(a: Flags, b: Flags) {
    (b.p1 ==> a.p1) && (b.p2 ==> a.p2) && (b.stale ==> a.stale)
  }

  /** a |= b for the flags that are handed on. */
  function Or(a: Flags, b: Flags): Flags {
    Flags(a.p1 || b.p1, a.p2 || b.p2, a.stale || b.stale, a.result)
  }

  /** What a popped commit hands on: its flags, and STALE below a merge base. */
  function HandedOn(f: Flags): Flags {
    Flags(f.p1, f.p2, f.stale || (f.p1 && f.p2), false)
  }

  /** RESULT is set on a popped commit that has both PARENT flags and is not STALE. */
  function Visited(f: Flags): Flags {
    if f.p1 && f.p2 && !f.stale then f.(result := true) else f
  }

  /** Every parent of c carries what c hands on. */
  ghost predicate Settled(g: Dag, f: seq<Flags>, c: nat)
    requires WellFormed(g) && |f| == |g.parents| && c < |f|
  {
    forall p :: p in g.parents[c] ==> Has(f[p], HandedOn(f[c]))
  }

  ghost predicate Flagged(f: Flags) { f.p1 || f.p2 }

  /** What the flags of one commit imply. */
  ghost predicate SoundFlags(g: Dag, one: nat, two: nat, x: nat, f: Flags)
    requires WellFormed(g)
  {
    && (f.p1 ==> Reaches(g, one, x)) && (f.p2 ==> Reaches(g, two, x))
    && (f.stale ==> f.p1 && f.p2 && HasCommonChild(g, one, two, x))
    && (f.result ==> f.p1 && f.p2)
  }

  /** What mark_parents keeps, for any times. */
  ghost predicate Marking(g: Dag, one: nat, two: nat, f: seq<Flags>, q: multiset<nat>) {
    && WellFormed(g) && |f| == |g.parents| && one < |f| && two < |f|
    && (forall x :: x in q ==> x < |f| && Flagged(f[x]))
    && (forall x :: 0 <= x < |f| ==> SoundFlags(g, one, two, x, f[x]))
    && (forall x :: 0 <= x < |f| && Flagged(f[x]) ==> x in q || Settled(g, f, x))
    && f[one].p1 && f[two].p2
  }

  /** All commits left in the queue are stale. */
  ghost predicate AllStale(f: seq<Flags>, q: multiset<nat>) {
    forall x :: x in q && x < |f| ==> f[x].stale
  }

  /** For any times: what is reachable from one side only has that side's flag. */
  lemma {:induction false} OneSided(g: Dag, one: nat, two: nat, f: seq<Flags>, q: multiset<nat>, x: nat, k: nat)
    requires Marking(g, one, two, f, q) && AllStale(f, q)
    requires ReachIn(g, one, x, k) && !Reaches(g, two, x)
    ensures f[x].p1
    decreases k
  {
    if k > 0 {
      var c :| 0 <= c < |g.parents| && ReachIn(g, one, c, k - 1) && x in g.parents[c];
      if Reaches(g, two, c) { ReachesParent(g, two, c, x); }
      OneSided(g, one, two, f, q, c, k - 1);
      assert SoundFlags(g, one, two, c, f[c]);
      assert Settled(g, f, c);
    }
  }

  lemma {:induction false} TwoSided(g: Dag, one: nat, two: nat, f: seq<Flags>, q: multiset<nat>, x: nat, k: nat)
    requires Marking(g, one, two, f, q) && AllStale(f, q)
    requires ReachIn(g, two, x, k) && !Reaches(g, one, x)
    ensures f[x].p2
    decreases k
  {
    if k > 0 {
      var c :| 0 <= c < |g.parents| && ReachIn(g, two, c, k - 1) && x in g.parents[c];
      if Reaches(g, one, c) { ReachesParent(g, one, c, x); }
      TwoSided(g, one, two, f, q, c, k - 1);
      assert SoundFlags(g, one, two, c, f[c]);
      assert Settled(g, f, c);
    }
  }

  // -------------------------------------------------------------- strict times

  /** Nothing in the queue is newer than t. */
  ghost predicate NoneNewer(g: Dag, q: multiset<nat>, t: int)
  {
    forall x :: x in q && x < |g.time| ==> g.time[x] <= t
  }

  /** Commits no older than everything in the queue have all their flags. */
  lemma {:induction false} Complete(g: Dag, one: nat, two: nat, f: seq<Flags>, q: multiset<nat>, t: int, from1: bool, x: nat, k: nat)
    requires Marking(g, one, two, f, q) && StrictTimes(g) && NoneNewer(g, q, t)
    requires ReachIn(g, if from1 then one else two, x, k) && g.time[x] >= t
    ensures if from1 then f[x].p1 else f[x].p2
    decreases k
  {
    if k > 0 {
      var c :| 0 <= c < |g.parents| && ReachIn(g, if from1 then one else two, c, k - 1) && x in g.parents[c];
      Complete(g, one, two, f, q, t, from1, c, k - 1);
      assert Settled(g, f, c);
    }
  }

  lemma CompleteStale(g: Dag, one: nat, two: nat, f: seq<Flags>, q: multiset<nat>, t: int, x: nat)
    requires Marking(g, one, two, f, q) && StrictTimes(g) && NoneNewer(g, q, t)
    requires x < |f| && g.time[x] >= t && HasCommonChild(g, one, two, x)
    ensures f[x].stale
  {
    var c :| 0 <= c < |g.parents| && CommonAnc(g, one, two, c) && x in g.parents[c];
    var k1: nat :| ReachIn(g, one, c, k1);
    var k2: nat :| ReachIn(g, two, c, k2);
    Complete(g, one, two, f, q, t, true, c, k1);
    Complete(g, one, two, f, q, t, false, c, k2);
    assert Settled(g, f, c);
  }

  /** The flags say exactly where the commit is reached from. */
  ghost predicate Exact(g: Dag, one: nat, two: nat, x: nat, f: Flags)
    requires WellFormed(g)
  {
    && (f.p1 <==> Reaches(g, one, x)) && (f.p2 <==> Reaches(g, two, x))
    && (f.stale <==> HasCommonChild(g, one, two, x))
  }

  /** At the time a newest commit is popped, its flags are exact. */
  lemma ExactWhenNewest(g: Dag, one: nat, two: nat, f: seq<Flags>, q: multiset<nat>, x: nat)
    requires Marking(g, one, two, f, q) && StrictTimes(g) && x < |f| && NoneNewer(g, q, g.time[x])
    ensures Exact(g, one, two, x, f[x])
  {
    assert SoundFlags(g, one, two, x, f[x]);
    if Reaches(g, one, x) {
      var k: nat :| ReachIn(g, one, x, k);
      Complete(g, one, two, f, q, g.time[x], true, x, k);
    }
    if Reaches(g, two, x) {
      var k: nat :| ReachIn(g, two, x, k);
      Complete(g, one, two, f, q, g.time[x], false, x, k);
    }
    if HasCommonChild(g, one, two, x) {
      CompleteStale(g, one, two, f, q, g.time[x], x);
    }
  }
}
