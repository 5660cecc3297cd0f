/** graph.c: painting the ancestors of two commits with flags, and counting the
    commits that are ahead and behind. */
module Graph {
  import opened GraphReach
  import opened GraphPaint

  predicate OnlyOne(f: Flags) { f.p1 && !f.p2 }

  predicate OnlyTwo(f: Flags) { f.p2 && !f.p1 }

  // ------------------------------------------------- the outcome of mark_parents

  /** The outcome of mark_parents. */
  ghost predicate Marked(g: Dag, one: nat, two: nat, f: seq<Flags>) {
    && WellFormed(g) && |f| == |g.parents| && one < |f| && two < |f|
    && f[one].p1 && f[two].p2
    && (forall x :: 0 <= x < |f| ==> SoundFlags(g, one, two, x, f[x]))
    && (forall x :: 0 <= x < |f| && Reaches(g, one, x) && !Reaches(g, two, x) ==> OnlyOne(f[x]))
    && (forall x :: 0 <= x < |f| && Reaches(g, two, x) && !Reaches(g, one, x) ==> OnlyTwo(f[x]))
    && (forall x, p :: 0 <= x < |f| && OnlyOne(f[x]) && p in g.parents[x] ==> f[p].p1)
    && (forall x, p :: 0 <= x < |f| && OnlyTwo(f[x]) && p in g.parents[x] ==> f[p].p2)
    && (TimesSuffice(g, one, two) ==> forall x :: 0 <= x < |f| && OnlyOne(f[x]) ==> !Reaches(g, two, x))
    && (TimesSuffice(g, one, two) ==> forall x :: 0 <= x < |f| && OnlyTwo(f[x]) ==> !Reaches(g, one, x))
  }

  lemma MarkedRange(g: Dag, one: nat, two: nat, f: seq<Flags>)
    requires Marked(g, one, two, f)
    ensures WellFormed(g) && |f| == |g.parents| && one < |f| && two < |f|
  {
  }

  lemma SameCommit(g: Dag, one: nat, f: seq<Flags>)
    requires WellFormed(g) && |f| == |g.parents| && one < |f|
    requires forall x :: 0 <= x < |f| ==> f[x] == if x == one then Flags(true, true, false, true) else CLEAR
    ensures Marked(g, one, one, f)
    ensures StrictTimes(g) ==> forall x :: 0 <= x < |f| ==> (f[x].result <==> Best(g, one, one, x))
  {
    ReachesSelf(g, one);
    if StrictTimes(g) {
      forall x | 0 <= x < |f| ensures f[x].result <==> Best(g, one, one, x) {
        if x == one {
          forall y | 0 <= y < |g.parents| && y != x && CommonAnc(g, one, one, y) ensures !Reaches(g, y, x) {
            NoCycle(g, y, x);
          }
        } else if Best(g, one, one, x) {
          assert CommonAnc(g, one, one, one);
        }
      }
    }
  }

  lemma NoCycle(g: Dag, y: nat, x: nat)
    requires WellFormed(g) && StrictTimes(g) && x < |g.parents| && y < |g.parents| && x != y && Reaches(g, x, y)
    ensures !Reaches(g, y, x)
  {
    var k: nat :| ReachIn(g, x, y, k);
    ReachInOlder(g, x, y, k);
    if Reaches(g, y, x) {
      var j: nat :| ReachIn(g, y, x, j);
      ReachInOlder(g, y, x, j);
    }
  }

  lemma OneFlagSettled(g: Dag, one: nat, two: nat, f: seq<Flags>, q: multiset<nat>, x: nat, p: nat)
    requires Marking(g, one, two, f, q) && AllStale(f, q) && x < |f| && p in g.parents[x]
    requires OnlyOne(f[x]) || OnlyTwo(f[x])
    ensures (OnlyOne(f[x]) ==> f[p].p1) && (OnlyTwo(f[x]) ==> f[p].p2)
  {
    assert SoundFlags(g, one, two, x, f[x]);
    assert Settled(g, f, x);
  }

  /** Once only stale commits are queued, the marking is complete on each side. */
  lemma MarkingDone(g: Dag, one: nat, two: nat, f: seq<Flags>, q: multiset<nat>, popped: set<nat>)
    requires Marking(g, one, two, f, q) && AllStale(f, q)
    requires FallingTimes(g) ==> Descending(g, f, q, popped)
    ensures Marked(g, one, two, f)
  {
    hide HasCommonChild, Settled, TimesSuffice, Descending;
    forall x | 0 <= x < |f| && Reaches(g, one, x) && !Reaches(g, two, x) ensures OnlyOne(f[x]) {
      var k: nat :| ReachIn(g, one, x, k);
      OneSided(g, one, two, f, q, x, k);
      assert SoundFlags(g, one, two, x, f[x]);
    }
    forall x | 0 <= x < |f| && Reaches(g, two, x) && !Reaches(g, one, x) ensures OnlyTwo(f[x]) {
      var k: nat :| ReachIn(g, two, x, k);
      TwoSided(g, one, two, f, q, x, k);
      assert SoundFlags(g, one, two, x, f[x]);
    }
    forall x, p | 0 <= x < |f| && (OnlyOne(f[x]) || OnlyTwo(f[x])) && p in g.parents[x]
      ensures (OnlyOne(f[x]) ==> f[p].p1) && (OnlyTwo(f[x]) ==> f[p].p2)
    {
      OneFlagSettled(g, one, two, f, q, x, p);
    }
    if TimesSuffice(g, one, two) {
      SufficeFalls(g, one, two);
      forall x | 0 <= x < |f| && Flagged(f[x])
        ensures (!f[x].p2 ==> !Reaches(g, two, x)) && (!f[x].p1 ==> !Reaches(g, one, x))
      {
        OneFlagExact(g, one, two, f, q, popped, x);
      }
    }
  }

  // -------------------------------------------------------------------- counting

  /** The commits that are reached from a but not from b. */
  ghost function Exclusive(g: Dag, a: nat, b: nat): set<nat>
    requires WellFormed(g)
  {
    set x: nat | x < |g.parents| && Reaches(g, a, x) && !Reaches(g, b, x)
  }

  predicate Single(f: Flags, first: bool) {
    if first then OnlyOne(f) else OnlyTwo(f)
  }

  /** x is reached from `a` in k steps through commits with one and the same single flag. */
  ghost predicate LineIn(g: Dag, f: seq<Flags>, a: nat, first: bool, x: nat, k: nat)
    requires WellFormed(g) && |f| == |g.parents|
    decreases k
  {
    x < |f| && Single(f[x], first) &&
    if k == 0 then a == x
    else exists c :: 0 <= c < |f| && LineIn(g, f, a, first, c, k - 1) && x in g.parents[c]
  }

  ghost predicate OnLine(g: Dag, f: seq<Flags>, a: nat, first: bool, x: nat)
    requires WellFormed(g) && |f| == |g.parents|
  {
    exists k: nat :: LineIn(g, f, a, first, x, k)
  }

  /** What ahead_behind counts: the commits on lines of one flag. */
  ghost function Line(g: Dag, f: seq<Flags>, a: nat, first: bool): set<nat>
    requires WellFormed(g) && |f| == |g.parents|
  {
    set x: nat | x < |f| && OnLine(g, f, a, first, x)
  }

  lemma LineStart(g: Dag, f: seq<Flags>, a: nat, first: bool)
    requires WellFormed(g) && |f| == |g.parents| && a < |f| && Single(f[a], first)
    ensures a in Line(g, f, a, first)
  {
    assert LineIn(g, f, a, first, a, 0);
  }

  lemma LineGrows(g: Dag, f: seq<Flags>, a: nat, first: bool, c: nat, p: nat)
    requires WellFormed(g) && |f| == |g.parents| && c in Line(g, f, a, first) && c < |f| && p in g.parents[c]
    requires Single(f[p], first)
    ensures p in Line(g, f, a, first)
  {
    var k: nat :| LineIn(g, f, a, first, c, k);
    assert LineIn(g, f, a, first, p, k + 1);
  }

  /** x needs no more work: queued, counted, or common. */
  ghost predicate Handled(f0: seq<Flags>, q: multiset<nat>, a: set<nat>, b: set<nat>, x: nat) {
    x in q || x in a || x in b || (x < |f0| && f0[x].p1 && f0[x].p2)
  }

  /** The queued and counted commits lie on lines of their flag. */
  ghost predicate OnLines(g: Dag, one: nat, two: nat, f0: seq<Flags>, q: multiset<nat>, a: set<nat>, b: set<nat>)
    requires WellFormed(g) && |f0| == |g.parents|
  {
    && a <= Line(g, f0, one, true) && b <= Line(g, f0, two, false)
    && (forall x :: x in q && x < |f0| && OnlyOne(f0[x]) ==> x in Line(g, f0, one, true))
    && (forall x :: x in q && x < |f0| && OnlyTwo(f0[x]) ==> x in Line(g, f0, two, false))
  }

  /** What ahead_behind keeps: `a` and `b` are counted, and marked RESULT. */
  ghost predicate Counting(g: Dag, one: nat, two: nat, f0: seq<Flags>, f: seq<Flags>, q: multiset<nat>, a: set<nat>, b: set<nat>) {
    && Marked(g, one, two, f0) && |f| == |f0|
    && (forall x :: 0 <= x < |f| ==> f[x] == f0[x].(result := f0[x].result || x in a || x in b))
    && (forall x :: x in q ==> x < |f| && Flagged(f0[x]))
    && OnLines(g, one, two, f0, q, a, b)
    && Handled(f0, q, a, b, one) && Handled(f0, q, a, b, two)
    && forall x, p :: (x in a || x in b) && x < |f| && p in g.parents[x] ==> Handled(f0, q, a, b, p)
  }

  /** Commits that are not marked RESULT yet. */
  function Uncounted(f: seq<Flags>): nat {
    if f == [] then 0 else (if f[0].result then 0 else 1) + Uncounted(f[1..])
  }

  lemma {:induction false} UncountedUpdate(f: seq<Flags>, c: nat)
    requires c < |f| && !f[c].result
    ensures Uncounted(f[c := f[c].(result := true)]) < Uncounted(f)
  {
    if c == 0 {
      assert f[c := f[c].(result := true)][1..] == f[1..];
    } else {
      assert f[c := f[c].(result := true)][1..] == f[1..][c - 1 := f[c].(result := true)];
      UncountedUpdate(f[1..], c - 1);
    }
  }

  lemma CountingStart(g: Dag, one: nat, two: nat, f0: seq<Flags>)
    requires Marked(g, one, two, f0)
    ensures Counting(g, one, two, f0, f0, multiset{one, two}, {}, {})
  {
    hide Reaches, Line;
    if OnlyOne(f0[one]) { LineStart(g, f0, one, true); }
    if OnlyTwo(f0[two]) { LineStart(g, f0, two, false); }
  }

  lemma CountingRange(g: Dag, one: nat, two: nat, f0: seq<Flags>, f: seq<Flags>, q: multiset<nat>, a: set<nat>, b: set<nat>)
    requires Counting(g, one, two, f0, f, q, a, b)
    ensures WellFormed(g) && |f| == |g.parents| && forall x :: x in q ==> x < |f| && Flagged(f[x])
  {
    hide Reaches;
  }

  lemma CountingSkip(g: Dag, one: nat, two: nat, f0: seq<Flags>, f: seq<Flags>, q: multiset<nat>, a: set<nat>, b: set<nat>, c: nat)
    requires Counting(g, one, two, f0, f, q, a, b) && c in q && c < |f|
    requires f[c].result || (f[c].p1 && f[c].p2)
    ensures Counting(g, one, two, f0, f, q - multiset{c}, a, b)
    ensures |q - multiset{c}| < |q|
  {
    hide Reaches;
    var q' := q - multiset{c};
    assert SoundFlags(g, one, two, c, f0[c]);
    assert Handled(f0, q', a, b, c);
    forall x | Handled(f0, q, a, b, x) ensures Handled(f0, q', a, b, x) {
      assert x == c || (x in q ==> x in q');
    }
  }

  lemma CountOne(g: Dag, one: nat, two: nat, f0: seq<Flags>, f: seq<Flags>, q: multiset<nat>, a: set<nat>, b: set<nat>, c: nat)
    requires Counting(g, one, two, f0, f, q, a, b) && c in q && c < |f|
    requires !f[c].result && OnlyOne(f[c])
    ensures c !in a && Counting(g, one, two, f0, f[c := f[c].(result := true)], q - multiset{c} + multiset(g.parents[c]), a + {c}, b)
    ensures Uncounted(f[c := f[c].(result := true)]) < Uncounted(f)
  {
    assert c in Line(g, f0, one, true);
    hide Reaches, Marked, Line;
    CountStep(g, one, two, f0, f, q, a, b, c, a + {c}, b);
    UncountedUpdate(f, c);
  }

  lemma CountTwo(g: Dag, one: nat, two: nat, f0: seq<Flags>, f: seq<Flags>, q: multiset<nat>, a: set<nat>, b: set<nat>, c: nat)
    requires Counting(g, one, two, f0, f, q, a, b) && c in q && c < |f|
    requires !f[c].result && OnlyTwo(f[c])
    ensures c !in b && Counting(g, one, two, f0, f[c := f[c].(result := true)], q - multiset{c} + multiset(g.parents[c]), a, b + {c})
    ensures Uncounted(f[c := f[c].(result := true)]) < Uncounted(f)
  {
    assert c in Line(g, f0, two, false);
    hide Reaches, Marked, Line;
    CountStep(g, one, two, f0, f, q, a, b, c, a, b + {c});
    UncountedUpdate(f, c);
  }

  lemma ParentsFlagged(g: Dag, one: nat, two: nat, f0: seq<Flags>, c: nat, p: nat)
    requires Marked(g, one, two, f0) && c < |f0| && (OnlyOne(f0[c]) || OnlyTwo(f0[c])) && p in g.parents[c]
    ensures p < |f0| && Flagged(f0[p])
  {
    hide Reaches;
  }

  lemma HandledStays(f0: seq<Flags>, q: multiset<nat>, a: set<nat>, b: set<nat>, c: nat, more: multiset<nat>, a': set<nat>, b': set<nat>, x: nat)
    requires Handled(f0, q, a, b, x) && a <= a' && b <= b' && (c in a' || c in b')
    ensures Handled(f0, q - multiset{c} + more, a', b', x)
  {
    assert x == c || (x in q ==> x in q - multiset{c});
  }

  lemma QueueAfter(q: multiset<nat>, c: nat, ps: seq<nat>, x: nat)
    ensures x in q - multiset{c} + multiset(ps) ==> x in q || x in ps
    ensures x in ps ==> x in q - multiset{c} + multiset(ps)
  {
    assert x in ps <==> x in multiset(ps);
  }

  lemma InQueueHandled(f0: seq<Flags>, q: multiset<nat>, a: set<nat>, b: set<nat>, x: nat)
    requires x in q
    ensures Handled(f0, q, a, b, x)
  {
  }

  /** The parents of a counted commit continue its line, or carry both flags. */
  lemma LinesGrow(g: Dag, one: nat, two: nat, f0: seq<Flags>, c: nat, p: nat)
    requires Marked(g, one, two, f0) && c < |f0| && p in g.parents[c] && p < |f0|
    requires c in Line(g, f0, one, true) || c in Line(g, f0, two, false)
    ensures OnlyOne(f0[p]) ==> p in Line(g, f0, one, true)
    ensures OnlyTwo(f0[p]) ==> p in Line(g, f0, two, false)
  {
    hide Reaches, SoundFlags;
    if c in Line(g, f0, one, true) {
      assert OnlyOne(f0[c]);
      if OnlyOne(f0[p]) { LineGrows(g, f0, one, true, c, p); }
    } else {
      assert OnlyTwo(f0[c]);
      if OnlyTwo(f0[p]) { LineGrows(g, f0, two, false, c, p); }
    }
  }

  lemma LinesKept(g: Dag, one: nat, two: nat, f0: seq<Flags>, q: multiset<nat>, a: set<nat>, b: set<nat>, c: nat, a': set<nat>, b': set<nat>)
    requires Marked(g, one, two, f0) && WellFormed(g) && |f0| == |g.parents|
    requires OnLines(g, one, two, f0, q, a, b) && c in q && c < |f0|
    requires (OnlyOne(f0[c]) && a' == a + {c} && b' == b) || (OnlyTwo(f0[c]) && a' == a && b' == b + {c})
    ensures OnLines(g, one, two, f0, q - multiset{c} + multiset(g.parents[c]), a', b')
  {
    hide Reaches, Marked, Line;
    var q': multiset<nat> := q - multiset{c} + multiset(g.parents[c]);
    forall x | x in q' && x < |f0|
      ensures (OnlyOne(f0[x]) ==> x in Line(g, f0, one, true)) && (OnlyTwo(f0[x]) ==> x in Line(g, f0, two, false))
    {
      QueueAfter(q, c, g.parents[c], x);
      if x in g.parents[c] { LinesGrow(g, one, two, f0, c, x); }
    }
  }

  lemma CountStep(g: Dag, one: nat, two: nat, f0: seq<Flags>, f: seq<Flags>, q: multiset<nat>, a: set<nat>, b: set<nat>, c: nat, a': set<nat>, b': set<nat>)
    requires Counting(g, one, two, f0, f, q, a, b) && c in q && c < |f| && !f[c].result
    requires (OnlyOne(f[c]) && a' == a + {c} && b' == b) || (OnlyTwo(f[c]) && a' == a && b' == b + {c})
    ensures Counting(g, one, two, f0, f[c := f[c].(result := true)], q - multiset{c} + multiset(g.parents[c]), a', b')
  {
    hide Reaches, Marked, Handled, OnLines;
    MarkedRange(g, one, two, f0);
    var q': multiset<nat> := q - multiset{c} + multiset(g.parents[c]);
    LinesKept(g, one, two, f0, q, a, b, c, a', b');
    forall x | Handled(f0, q, a, b, x) ensures Handled(f0, q', a', b', x) {
      HandledStays(f0, q, a, b, c, multiset(g.parents[c]), a', b', x);
    }
    forall p | p in g.parents[c] ensures Handled(f0, q', a', b', p) && p < |f| && Flagged(f0[p]) {
      QueueAfter(q, c, g.parents[c], p);
      ParentsFlagged(g, one, two, f0, c, p);
      InQueueHandled(f0, q', a', b', p);
    }
    forall x | x in q' ensures x < |f| && Flagged(f0[x]) {
      QueueAfter(q, c, g.parents[c], x);
    }
  }

  lemma LineFlags(g: Dag, f: seq<Flags>, a: nat, first: bool, x: nat)
    requires WellFormed(g) && |f| == |g.parents| && x in Line(g, f, a, first)
    ensures x < |f| && Single(f[x], first)
  {
  }

  lemma SingleCounted(g: Dag, one: nat, two: nat, f0: seq<Flags>, a: set<nat>, b: set<nat>, first: bool, x: nat)
    requires WellFormed(g) && |f0| == |g.parents| && OnLines(g, one, two, f0, multiset{}, a, b)
    requires x < |f0| && Single(f0[x], first) && Handled(f0, multiset{}, a, b, x)
    ensures if first then x in a else x in b
  {
    hide Line;
    if x in a { LineFlags(g, f0, one, true, x); }
    if x in b { LineFlags(g, f0, two, false, x); }
  }

  /** When the queue is empty, every commit on a line has been counted. */
  lemma {:induction false} LineCounted(g: Dag, one: nat, two: nat, f0: seq<Flags>, f: seq<Flags>, a: set<nat>, b: set<nat>, first: bool, x: nat, k: nat)
    requires Counting(g, one, two, f0, f, multiset{}, a, b) && WellFormed(g) && |f0| == |g.parents|
    requires LineIn(g, f0, if first then one else two, first, x, k)
    ensures if first then x in a else x in b
    decreases k
  {
    hide Marked, OnLines, Handled, Single;
    if k > 0 {
      var c :| 0 <= c < |f0| && LineIn(g, f0, if first then one else two, first, c, k - 1) && x in g.parents[c];
      LineCounted(g, one, two, f0, f, a, b, first, c, k - 1);
    }
    SingleCounted(g, one, two, f0, a, b, first, x);
  }

  /** When the queue is empty, exactly the commits on lines have been counted. */
  lemma CountingDone(g: Dag, one: nat, two: nat, f0: seq<Flags>, f: seq<Flags>, a: set<nat>, b: set<nat>)
    requires Counting(g, one, two, f0, f, multiset{}, a, b)
    ensures WellFormed(g) && |f0| == |g.parents|
    ensures a == Line(g, f0, one, true) && b == Line(g, f0, two, false)
  {
    hide Reaches;
    forall x | x in Line(g, f0, one, true) ensures x in a {
      var k: nat :| LineIn(g, f0, one, true, x, k);
      LineCounted(g, one, two, f0, f, a, b, true, x, k);
    }
    forall x | x in Line(g, f0, two, false) ensures x in b {
      var k: nat :| LineIn(g, f0, two, false, x, k);
      LineCounted(g, one, two, f0, f, a, b, false, x, k);
    }
  }

  // ------------------------------------------------------- what the counts mean

  lemma ExclusiveFlags(g: Dag, one: nat, two: nat, f0: seq<Flags>, x: nat)
    requires Marked(g, one, two, f0) && x < |f0|
    ensures Reaches(g, one, x) && !Reaches(g, two, x) ==> OnlyOne(f0[x])
    ensures Reaches(g, two, x) && !Reaches(g, one, x) ==> OnlyTwo(f0[x])
  {
    hide Reaches;
  }

  lemma {:induction false} ExclusiveOnLine(g: Dag, one: nat, two: nat, f: seq<Flags>, first: bool, x: nat, k: nat)
    requires Marked(g, one, two, f) && WellFormed(g) && |f| == |g.parents|
    requires if first then ReachIn(g, one, x, k) && !Reaches(g, two, x) else ReachIn(g, two, x, k) && !Reaches(g, one, x)
    ensures x in Line(g, f, if first then one else two, first)
    decreases k
  {
    hide Marked;
    ExclusiveFlags(g, one, two, f, x);
    var near, far := if first then one else two, if first then two else one;
    if k > 0 {
      var c :| 0 <= c < |g.parents| && ReachIn(g, near, c, k - 1) && x in g.parents[c];
      if Reaches(g, far, c) { ReachesParent(g, far, c, x); }
      ExclusiveOnLine(g, one, two, f, first, c, k - 1);
      LineGrows(g, f, near, first, c, x);
    } else {
      LineStart(g, f, near, first);
    }
  }

  /** The exclusive commits lie on lines, for any times; with times that suffice, nothing
      else does. */
  lemma LinesExclusive(g: Dag, one: nat, two: nat, f: seq<Flags>)
    requires Marked(g, one, two, f)
    ensures WellFormed(g) && |f| == |g.parents|
    ensures Exclusive(g, one, two) <= Line(g, f, one, true) && Exclusive(g, two, one) <= Line(g, f, two, false)
    ensures TimesSuffice(g, one, two) ==>
              Exclusive(g, one, two) == Line(g, f, one, true) && Exclusive(g, two, one) == Line(g, f, two, false)
  {
    MarkedRange(g, one, two, f);
    hide TimesSuffice;
    forall x | x in Exclusive(g, one, two) ensures x in Line(g, f, one, true) {
      var k: nat :| ReachIn(g, one, x, k);
      ExclusiveOnLine(g, one, two, f, true, x, k);
    }
    forall x | x in Exclusive(g, two, one) ensures x in Line(g, f, two, false) {
      var k: nat :| ReachIn(g, two, x, k);
      ExclusiveOnLine(g, one, two, f, false, x, k);
    }
    if TimesSuffice(g, one, two) {
      forall x | x in Line(g, f, one, true) ensures x in Exclusive(g, one, two) {
        assert SoundFlags(g, one, two, x, f[x]) && OnlyOne(f[x]);
      }
      forall x | x in Line(g, f, two, false) ensures x in Exclusive(g, two, one) {
        assert SoundFlags(g, one, two, x, f[x]) && OnlyTwo(f[x]);
      }
    }
  }

  /** A commit that carries both flags starts no line. */
  lemma NoLine(g: Dag, f: seq<Flags>, a: nat, first: bool)
    requires WellFormed(g) && |f| == |g.parents| && a < |f| && f[a].p1 && f[a].p2
    ensures Line(g, f, a, first) == {}
  {
    forall x | x in Line(g, f, a, first) ensures false {
      var k: nat :| LineIn(g, f, a, first, x, k);
      LineFromStart(g, f, a, first, x, k);
    }
  }

  lemma {:induction false} LineFromStart(g: Dag, f: seq<Flags>, a: nat, first: bool, x: nat, k: nat)
    requires WellFormed(g) && |f| == |g.parents| && LineIn(g, f, a, first, x, k)
    ensures a < |f| && Single(f[a], first)
    decreases k
  {
    if k > 0 {
      var c :| 0 <= c < |f| && LineIn(g, f, a, first, c, k - 1) && x in g.parents[c];
      LineFromStart(g, f, a, first, c, k - 1);
    }
  }

  lemma SubsetSize(s: set<nat>, t: set<nat>)
    requires s <= t
    ensures |s| <= |t|
  {
    assert t == s + (t - s);
  }

  // -------------------------------------------------------------------- the code

  lemma {:induction false} NewestExists(g: Dag, q: multiset<nat>) returns (c: nat)
    requires q != multiset{} && forall x :: x in q ==> x < |g.time|
    ensures c in q && forall d :: d in q ==> g.time[d] <= g.time[c]
    decreases |q|
  {
    var x :| x in q;
    c := x;
    var rest := q - multiset{x};
    if rest != multiset{} {
      var d := NewestExists(g, rest);
      c := if g.time[d] >= g.time[x] then d else x;
    }
    forall d | d in q ensures g.time[d] <= g.time[c] {
      assert d == x || d in rest;
    }
  }

  /** git_pqueue_pop: some newest entry. */
  method PopNewest(g: Dag, q: multiset<nat>) returns (c: nat, rest: multiset<nat>)
    requires q != multiset{} && |g.time| == |g.parents| && forall x :: x in q ==> x < |g.time|
    ensures c in q && rest == q - multiset{c} && NoneNewer(g, q, g.time[c])
  {
    ghost var _ := NewestExists(g, q);
    c :| c in q && forall d :: d in q ==> d < |g.time| && g.time[d] <= g.time[c];
    rest := q - multiset{c};
  }

  class Walk {
    const g: Dag
    const flags: array<Flags>

    constructor (g: Dag)
      ensures this.g == g && fresh(flags) && flags.Length == |g.parents|
      ensures forall x :: 0 <= x < flags.Length ==> flags[x] == CLEAR
    {
      this.g := g;
      flags := new Flags[|g.parents|](_ => CLEAR);
    }

    /** interesting: the answer is no exactly when all that is queued, and every root met
        so far, is stale. */
    method Interesting(q: multiset<nat>, roots: seq<nat>) returns (r: bool)
      requires InRange(g, Painting(flags[..], q, roots))
      ensures !r <==> Idle(g, Painting(flags[..], q, roots))
    {
      var rest := q;
      while rest != multiset{}
        invariant rest <= q && forall x :: x in q ==> x in rest || flags[x].stale
      {
        var commit :| commit in rest;
        if !flags[commit].stale { return true; }
        rest := rest[commit := 0];
      }
      for i := 0 to |roots|
        invariant forall j :: 0 <= j < i ==> flags[roots[j]].stale
      {
        if !flags[roots[i]].stale { return true; }
      }
      r := false;
    }

    /** The inner loop of mark_parents: `c` hands its flags on, and every parent that
        did not have them yet goes (back) into the queue. */
    method HandOn(c: nat, h: Flags, q0: multiset<nat>, ghost roots: seq<nat>) returns (q: multiset<nat>)
      requires WellFormed(g) && flags.Length == |g.parents| && c < |g.parents|
      modifies flags
      ensures Painting(flags[..], q, roots) == Spread(g.parents[c], Painting(old(flags[..]), q0, roots), h)
    {
      q := q0;
      assert g.parents[c][0..] == g.parents[c];
      for i := 0 to |g.parents[c]|
        invariant Spread(g.parents[c][i..], Painting(flags[..], q, roots), h)
               == Spread(g.parents[c], Painting(old(flags[..]), q0, roots), h)
      {
        var p := g.parents[c][i];
        ghost var f := flags[..];
        assert g.parents[c][i..][0] == p && g.parents[c][i..][1..] == g.parents[c][i + 1..];
        if !Has(flags[p], h) {
          flags[p] := Or(flags[p], h);
          assert flags[..] == f[p := Or(f[p], h)];
          q := q + multiset{p};
        }
      }
    }

    /** One round of mark_parents: a newest commit is popped and hands on, and a root is
        remembered. */
    method PopAndMark(q0: multiset<nat>, roots0: seq<nat>) returns (ghost c: nat, q: multiset<nat>, roots: seq<nat>)
      requires InRange(g, Painting(flags[..], q0, roots0)) && q0 != multiset{}
      modifies flags
      ensures c in q0 && c < |g.parents| && NoneNewer(g, q0, g.time[c])
      ensures Painting(flags[..], q, roots) == Pop(g, Painting(old(flags[..]), q0, roots0), c)
    {
      var commit;
      commit, q := PopNewest(g, q0);
      c := commit;
      ghost var f := flags[..];
      var h := HandedOn(flags[commit]);
      flags[commit] := Visited(flags[commit]);
      assert flags[..] == f[c := Visited(f[c])];
      q := HandOn(commit, h, q, roots0);
      roots := if |g.parents[commit]| == 0 then [commit] + roots0 else roots0;
    }

    /** mark_parents.  For any times, commits reachable from one side only carry that
        side's flag and no other, and what the flags say is true.  When parents are
        older than their children, RESULT marks the best common ancestors. */
    method MarkParents(one: nat, two: nat) returns (ghost run: seq<nat>)
      requires WellFormed(g) && flags.Length == |g.parents| && one < |g.parents| && two < |g.parents|
      requires forall x :: 0 <= x < flags.Length ==> flags[x] == CLEAR
      modifies flags
      ensures Marked(g, one, two, flags[..])
      ensures one != two ==> PaintsTo(g, one, two, run, flags[..])
      ensures one == two ==> flags[one] == Flags(true, true, false, true)
      ensures StrictTimes(g) ==> forall x :: 0 <= x < |g.parents| ==> (flags[x].result <==> Best(g, one, two, x))
    {
      hide Ordered, Descending, Missing, StrictTimes, FallingTimes, Marking, Marked, Best, Idle, Pop, Painted, Runs, SoundFlags;
      run := [];
      if one == two {
        flags[one] := Flags(true, true, false, true);
        SameCommit(g, one, flags[..]);
        return;
      }
      flags[one] := flags[one].(p1 := true);
      flags[two] := flags[two].(p2 := true);
      var list: multiset<nat> := multiset{one, two};
      var roots: seq<nat> := [];
      ghost var popped: set<nat> := {};
      ghost var s := Start(g, one, two);
      MarkingStart(g, one, two);
      assert flags[..] == s.f;
      RunsStart(g, s);
      OrderedDescends(g, one, two, s.f, s.q, popped);
      var more := Interesting(list, roots);
      while more && list != multiset{}
        invariant InRange(g, s) && s == Painting(flags[..], list, roots)
        invariant Below(run, |g.parents|) && Runs(g, Start(g, one, two), run) && s == Painted(g, Start(g, one, two), run)
        invariant Marking(g, one, two, s.f, s.q)
        invariant FallingTimes(g) ==> Descending(g, s.f, s.q, popped)
        invariant StrictTimes(g) ==> Ordered(g, one, two, s.f, s.q, popped)
        invariant !more <==> Idle(g, s)
        decreases Missing(s.f), |list|
      {
        ghost var c;
        c, list, roots := PopAndMark(list, roots);
        PopKeeps(g, one, two, s, popped, c);
        RunsOn(g, Start(g, one, two), run, c);
        run, popped, s := run + [c], popped + {c}, Pop(g, s, c);
        more := Interesting(list, roots);
      }
      StoppedStale(g, s);
      MarkingDone(g, one, two, s.f, s.q, popped);
      if StrictTimes(g) {
        forall x | 0 <= x < |g.parents| ensures flags[x].result <==> Best(g, one, two, x) {
          ResultIsBest(g, one, two, s.f, s.q, popped, x);
        }
      }
    }

    /** ahead_behind: counts the commits on lines of one flag, each once. */
    method AheadBehind(one: nat, two: nat) returns (ahead: nat, behind: nat)
      requires Marked(g, one, two, flags[..])
      modifies flags
      ensures ahead == |Line(g, old(flags[..]), one, true)| && behind == |Line(g, old(flags[..]), two, false)|
      ensures ahead >= |Exclusive(g, one, two)| && behind >= |Exclusive(g, two, one)|
      ensures TimesSuffice(g, one, two) ==> ahead == |Exclusive(g, one, two)| && behind == |Exclusive(g, two, one)|
    {
      hide Marked, TimesSuffice, Reaches, Exclusive, Counting, Uncounted, Line;
      ghost var f0 := flags[..];
      ghost var a: set<nat>, b: set<nat> := {}, {};
      ahead, behind := 0, 0;
      var q: multiset<nat> := multiset{one, two};
      MarkedRange(g, one, two, f0);
      CountingStart(g, one, two, f0);
      while q != multiset{}
        invariant WellFormed(g) && flags.Length == |g.parents|
        invariant Counting(g, one, two, f0, flags[..], q, a, b)
        invariant ahead == |a| && behind == |b|
        decreases Uncounted(flags[..]), |q|
      {
        ghost var f, q0 := flags[..], q;
        CountingRange(g, one, two, f0, f, q, a, b);
        var c;
        c, q := PopNewest(g, q);
        if flags[c].result || (flags[c].p1 && flags[c].p2) {
          CountingSkip(g, one, two, f0, f, q0, a, b, c);
          continue;
        } else if flags[c].p1 {
          CountOne(g, one, two, f0, f, q0, a, b, c);
          ahead := ahead + 1;
          a := a + {c};
        } else if flags[c].p2 {
          CountTwo(g, one, two, f0, f, q0, a, b, c);
          behind := behind + 1;
          b := b + {c};
        }
        q := q + multiset(g.parents[c]);
        flags[c] := flags[c].(result := true);
        assert flags[..] == f[c := f[c].(result := true)];
      }
      CountingDone(g, one, two, f0, flags[..], a, b);
      LinesExclusive(g, one, two, f0);
      SubsetSize(Exclusive(g, one, two), a);
      SubsetSize(Exclusive(g, two, one), b);
    }

    /** git_graph_ahead_behind: exact when no parent is newer than its child and parents
        are older below the best common ancestors, and never too small for any times. */
    method GitGraphAheadBehind(local: nat, upstream: nat) returns (ahead: nat, behind: nat, ghost run: seq<nat>, ghost f: seq<Flags>)
      requires WellFormed(g) && flags.Length == |g.parents| && local < |g.parents| && upstream < |g.parents|
      requires forall x :: 0 <= x < flags.Length ==> flags[x] == CLEAR
      modifies flags
      ensures |f| == |g.parents| && (local != upstream ==> PaintsTo(g, local, upstream, run, f))
      ensures local == upstream ==> ahead == behind == 0
      ensures ahead == |Line(g, f, local, true)| && behind == |Line(g, f, upstream, false)|
      ensures ahead >= |Exclusive(g, local, upstream)| && behind >= |Exclusive(g, upstream, local)|
      ensures TimesSuffice(g, local, upstream) ==> ahead == |Exclusive(g, local, upstream)| && behind == |Exclusive(g, upstream, local)|
    {
      hide Marked, TimesSuffice, Reaches, Exclusive, Line, PaintsTo, Best, StrictTimes;
      run := MarkParents(local, upstream);
      f := flags[..];
      MarkedRange(g, local, upstream, f);
      ahead, behind := AheadBehind(local, upstream);
      if local == upstream {
        NoLine(g, f, local, true);
        NoLine(g, f, local, false);
      }
    }
  }
}
