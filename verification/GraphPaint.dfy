/** mark_parents of graph.c, one popped commit after another: the flags, the queue and
    the roots as values, and what every step keeps. */
module GraphPaint {
  import opened GraphReach

  /** What mark_parents works on: the flags, the queue, and the roots met so far. */
  datatype Painting = Painting(f: seq<Flags>, q: multiset<nat>, roots: seq<nat>)

  predicate Below(s: seq<nat>, n: nat) {
    forall i :: 0 <= i < |s| ==> s[i] < n
  }

  ghost predicate InRange(g: Dag, s: Painting) {
    && WellFormed(g) && |s.f| == |g.parents|
    && (forall x :: x in s.q ==> x < |s.f|)
    && Below(s.roots, |s.f|)
  }

  /** `interesting` says no: all that is queued, and every root met so far, is stale. */
  ghost predicate Idle(g: Dag, s: Painting)
    requires InRange(g, s)
  {
    AllStale(s.f, s.q) && forall i :: 0 <= i < |s.roots| ==> s.f[s.roots[i]].stale
  }

  function Start(g: Dag, one: nat, two: nat): Painting
    requires one < |g.parents| && two < |g.parents|
  {
    Painting(seq(|g.parents|, x => CLEAR.(p1 := x == one, p2 := x == two)), multiset{one, two}, [])
  }

  /** The parents `ps`, in turn, get what is handed on; one that lacks some of it is queued. */
  function Spread(ps: seq<nat>, s: Painting, h: Flags): (t: Painting)
    requires Below(ps, |s.f|)
    ensures |t.f| == |s.f| && t.roots == s.roots
    ensures forall x :: x in t.q ==> x in s.q || x in ps
  {
    if ps == [] then s
    else if Has(s.f[ps[0]], h) then Spread(ps[1..], s, h)
    else Spread(ps[1..], s.(f := s.f[ps[0] := Or(s.f[ps[0]], h)], q := s.q + multiset{ps[0]}), h)
  }

  /** One round of the loop: c leaves the queue and hands its flags on. */
  ghost function Pop(g: Dag, s: Painting, c: nat): (t: Painting)
    requires InRange(g, s) && c < |g.parents|
    ensures InRange(g, t)
  {
    var t := Spread(g.parents[c], s.(f := s.f[c := Visited(s.f[c])], q := s.q - multiset{c}), HandedOn(s.f[c]));
    if g.parents[c] == [] then t.(roots := [c] + t.roots) else t
  }

  ghost function Painted(g: Dag, s: Painting, cs: seq<nat>): (t: Painting)
    requires InRange(g, s) && Below(cs, |g.parents|)
    ensures InRange(g, t)
    decreases |cs|
  {
    if cs == [] then s else Painted(g, Pop(g, s, cs[0]), cs[1..])
  }

  /** All of `cs` come out of the queue, in any order that the queue may have. */
  ghost predicate Queued(g: Dag, s: Painting, cs: seq<nat>)
    requires InRange(g, s)
    decreases |cs|
  {
    cs == [] || (cs[0] in s.q && Queued(g, Pop(g, s, cs[0]), cs[1..]))
  }

  /** The loop may pop `cs`: each is a newest of the queue, and there was something left to do. */
  ghost predicate Runs(g: Dag, s: Painting, cs: seq<nat>)
    requires InRange(g, s)
    decreases |cs|
  {
    cs == [] ||
    (!Idle(g, s) && cs[0] in s.q && NoneNewer(g, s.q, g.time[cs[0]]) && Runs(g, Pop(g, s, cs[0]), cs[1..]))
  }

  /** A whole run of the loop, from the two commits until there is nothing left to do. */
  ghost predicate FullRun(g: Dag, one: nat, two: nat, cs: seq<nat>)
    requires WellFormed(g) && one < |g.parents| && two < |g.parents|
  {
    && Below(cs, |g.parents|)
    && Runs(g, Start(g, one, two), cs)
    && var t := Painted(g, Start(g, one, two), cs); Idle(g, t) || t.q == multiset{}
  }

  /** The run `cs` of the loop ends with the flags f. */
  ghost predicate PaintsTo(g: Dag, one: nat, two: nat, cs: seq<nat>, f: seq<Flags>)
    requires WellFormed(g) && one < |g.parents| && two < |g.parents|
  {
    FullRun(g, one, two, cs) && Painted(g, Start(g, one, two), cs).f == f
  }

  lemma {:induction false} RunsOn(g: Dag, s: Painting, cs: seq<nat>, c: nat)
    requires InRange(g, s) && c < |g.parents| && Below(cs, |g.parents|)
    requires Runs(g, s, cs)
    requires var t := Painted(g, s, cs); !Idle(g, t) && c in t.q && NoneNewer(g, t.q, g.time[c])
    ensures Below(cs + [c], |g.parents|)
    ensures Runs(g, s, cs + [c]) && Painted(g, s, cs + [c]) == Pop(g, Painted(g, s, cs), c)
    decreases |cs|
  {
    hide Pop, Idle, InRange;
    if cs == [] {
      assert [c][1..] == [];
      assert Runs(g, Pop(g, s, c), []);
      assert Painted(g, Pop(g, s, c), []) == Pop(g, s, c);
    } else {
      RunsOn(g, Pop(g, s, cs[0]), cs[1..], c);
      assert (cs + [c])[1..] == cs[1..] + [c];
    }
  }

  // -------------------------------------------------------- one popped commit

  /** While the popped commit c hands on h: its first i parents have it. */
  ghost predicate Passing(g: Dag, one: nat, two: nat, f: seq<Flags>, q: multiset<nat>, c: nat, h: Flags, i: nat) {
    && WellFormed(g) && |f| == |g.parents| && one < |f| && two < |f| && c < |f| && i <= |g.parents[c]|
    && (forall x :: x in q ==> x < |f| && Flagged(f[x]))
    && (forall x :: 0 <= x < |f| ==> SoundFlags(g, one, two, x, f[x]))
    && (forall x :: 0 <= x < |f| && x != c && Flagged(f[x]) ==> x in q || Settled(g, f, x))
    && f[one].p1 && f[two].p2
    && HandedOn(f[c]) == h && Flagged(f[c])
    && forall j :: 0 <= j < i ==> Has(f[g.parents[c][j]], h)
  }

  lemma PassingStart(g: Dag, one: nat, two: nat, f: seq<Flags>, q: multiset<nat>, c: nat)
    requires Marking(g, one, two, f, q) && c in q && Flagged(f[c])
    ensures Passing(g, one, two, f[c := Visited(f[c])], q - multiset{c}, c, HandedOn(f[c]), 0)
  {
    hide Reaches, HasCommonChild;
    var f' := f[c := Visited(f[c])];
    forall x | 0 <= x < |f'| ensures SoundFlags(g, one, two, x, f'[x]) {
      assert SoundFlags(g, one, two, x, f[x]);
    }
    forall x | 0 <= x < |f'| && x != c && Flagged(f'[x]) ensures x in q - multiset{c} || Settled(g, f', x) {
      assert x in q || Settled(g, f, x);
    }
  }

  /** What is handed on is true of a parent as well. */
  lemma HandedOnIsSound(g: Dag, one: nat, two: nat, c: nat, fc: Flags, p: nat, fp: Flags)
    requires WellFormed(g) && c < |g.parents| && p in g.parents[c]
    requires SoundFlags(g, one, two, c, fc) && SoundFlags(g, one, two, p, fp)
    ensures SoundFlags(g, one, two, p, Or(fp, HandedOn(fc)))
  {
    if fc.p1 { ReachesParent(g, one, c, p); }
    if fc.p2 { ReachesParent(g, two, c, p); }
    if fc.p1 && fc.p2 { assert CommonAnc(g, one, two, c); }
  }

  lemma PassingStep(g: Dag, one: nat, two: nat, f: seq<Flags>, q: multiset<nat>, c: nat, h: Flags, i: nat)
    requires Passing(g, one, two, f, q, c, h, i) && i < |g.parents[c]|
    ensures var p := g.parents[c][i];
            if Has(f[p], h) then Passing(g, one, two, f, q, c, h, i + 1)
            else Passing(g, one, two, f[p := Or(f[p], h)], q + multiset{p}, c, h, i + 1)
  {
    hide Reaches, HasCommonChild;
    var p := g.parents[c][i];
    if !Has(f[p], h) {
      var f', q' := f[p := Or(f[p], h)], q + multiset{p};
      assert SoundFlags(g, one, two, c, f[c]) && SoundFlags(g, one, two, p, f[p]);
      HandedOnIsSound(g, one, two, c, f[c], p, f[p]);
      forall x | 0 <= x < |f'| && x != c && Flagged(f'[x]) ensures x in q' || Settled(g, f', x) {
        if x != p {
          assert x in q || Settled(g, f, x);
        }
      }
    }
  }

  lemma PassingEnd(g: Dag, one: nat, two: nat, f: seq<Flags>, q: multiset<nat>, c: nat, h: Flags)
    requires c < |g.parents| && Passing(g, one, two, f, q, c, h, |g.parents[c]|)
    ensures Marking(g, one, two, f, q)
  {
    hide Reaches, HasCommonChild, SoundFlags;
    assert Settled(g, f, c);
  }

  lemma PassingRange(g: Dag, one: nat, two: nat, f: seq<Flags>, q: multiset<nat>, c: nat, h: Flags, i: nat)
    requires Passing(g, one, two, f, q, c, h, i)
    ensures WellFormed(g) && c < |g.parents| == |f| && forall j :: 0 <= j < |g.parents[c]| ==> g.parents[c][j] < |f|
  {
    assert forall j :: 0 <= j < |g.parents[c]| ==> g.parents[c][j] in g.parents[c];
  }

  lemma {:induction false} SpreadMarks(g: Dag, one: nat, two: nat, s: Painting, c: nat, h: Flags, i: nat)
    requires InRange(g, s) && Passing(g, one, two, s.f, s.q, c, h, i)
    ensures i <= |g.parents[c]| && Below(g.parents[c][i..], |s.f|)
    ensures var t := Spread(g.parents[c][i..], s, h); Marking(g, one, two, t.f, t.q)
    decreases |g.parents[c]| - i
  {
    assert i <= |g.parents[c]|;
    hide Reaches, HasCommonChild, SoundFlags, Settled, Passing, Marking;
    PassingRange(g, one, two, s.f, s.q, c, h, i);
    var ps := g.parents[c][i..];
    if i == |g.parents[c]| {
      PassingEnd(g, one, two, s.f, s.q, c, h);
    } else {
      var p := g.parents[c][i];
      assert ps[0] == p && ps[1..] == g.parents[c][i + 1..];
      PassingStep(g, one, two, s.f, s.q, c, h, i);
      if Has(s.f[p], h) {
        SpreadMarks(g, one, two, s, c, h, i + 1);
      } else {
        SpreadMarks(g, one, two, s.(f := s.f[p := Or(s.f[p], h)], q := s.q + multiset{p}), c, h, i + 1);
      }
    }
  }

  /** A popped commit leaves true flags behind, and nothing unfinished outside the queue. */
  lemma PopMarks(g: Dag, one: nat, two: nat, s: Painting, c: nat)
    requires InRange(g, s) && Marking(g, one, two, s.f, s.q) && c in s.q
    ensures Marking(g, one, two, Pop(g, s, c).f, Pop(g, s, c).q)
  {
    assert Flagged(s.f[c]);
    hide Reaches, HasCommonChild, SoundFlags, Settled, Passing, Marking;
    PassingStart(g, one, two, s.f, s.q, c);
    SpreadMarks(g, one, two, s.(f := s.f[c := Visited(s.f[c])], q := s.q - multiset{c}), c, HandedOn(s.f[c]), 0);
    assert g.parents[c][0..] == g.parents[c];
  }

  lemma MarkingStart(g: Dag, one: nat, two: nat)
    requires WellFormed(g) && one < |g.parents| && two < |g.parents| && one != two
    ensures InRange(g, Start(g, one, two))
    ensures Marking(g, one, two, Start(g, one, two).f, Start(g, one, two).q)
    ensures Ordered(g, one, two, Start(g, one, two).f, Start(g, one, two).q, {})
  {
    ReachesSelf(g, one);
    ReachesSelf(g, two);
  }

  // ------------------------------------------------------- when only stale is left

  lemma {:induction false} SpreadStale(ps: seq<nat>, s: Painting, h: Flags)
    requires Below(ps, |s.f|) && h.stale && AllStale(s.f, s.q)
    ensures AllStale(Spread(ps, s, h).f, Spread(ps, s, h).q)
    ensures forall x :: 0 <= x < |s.f| ==> Spread(ps, s, h).f[x].result == s.f[x].result
    ensures forall x :: 0 <= x < |s.f| && x !in ps ==> Spread(ps, s, h).f[x] == s.f[x]
  {
    if ps != [] {
      assert ps[0] in ps;
      if Has(s.f[ps[0]], h) {
        SpreadStale(ps[1..], s, h);
      } else {
        var s' := s.(f := s.f[ps[0] := Or(s.f[ps[0]], h)], q := s.q + multiset{ps[0]});
        SpreadStale(ps[1..], s', h);
      }
    }
  }

  /** Once only stale commits are queued, popping one keeps it so; no commit becomes a
      RESULT, and no flag is set on a commit that is not an ancestor of both. */
  lemma StaleStays(g: Dag, one: nat, two: nat, s: Painting, c: nat)
    requires InRange(g, s) && Marking(g, one, two, s.f, s.q) && AllStale(s.f, s.q) && c in s.q
    ensures var t := Pop(g, s, c);
            && Marking(g, one, two, t.f, t.q) && AllStale(t.f, t.q)
            && (forall x :: 0 <= x < |s.f| ==> t.f[x].result == s.f[x].result)
            && (forall x :: 0 <= x < |s.f| && !CommonAnc(g, one, two, x) ==> t.f[x] == s.f[x])
  {
    PopMarks(g, one, two, s, c);
    assert SoundFlags(g, one, two, c, s.f[c]) && Visited(s.f[c]) == s.f[c];
    hide Marking, Reaches, Spread, SoundFlags, HasCommonChild;
    assert s.f[c := Visited(s.f[c])] == s.f;
    SpreadStale(g.parents[c], s.(q := s.q - multiset{c}), HandedOn(s.f[c]));
    forall x | 0 <= x < |s.f| && !CommonAnc(g, one, two, x) ensures x !in g.parents[c] {
      if x in g.parents[c] {
        ReachesParent(g, one, c, x);
        ReachesParent(g, two, c, x);
      }
    }
  }

  /** So the early exit of mark_parents loses no RESULT and no flag of a commit that is
      reached from one side only, however long the loop would have gone on. */
  lemma {:induction false} StaleForever(g: Dag, one: nat, two: nat, s: Painting, cs: seq<nat>)
    requires InRange(g, s) && Marking(g, one, two, s.f, s.q) && AllStale(s.f, s.q)
    requires Below(cs, |g.parents|) && Queued(g, s, cs)
    ensures var t := Painted(g, s, cs);
            && AllStale(t.f, t.q)
            && (forall x :: 0 <= x < |s.f| ==> t.f[x].result == s.f[x].result)
            && (forall x :: 0 <= x < |s.f| && !CommonAnc(g, one, two, x) ==> t.f[x] == s.f[x])
    decreases |cs|
  {
    hide Pop, Marking, CommonAnc;
    if cs != [] {
      StaleStays(g, one, two, s, cs[0]);
      StaleForever(g, one, two, Pop(g, s, cs[0]), cs[1..]);
    }
  }

  // ------------------------------------------------------------ the order of popping

  /** No commit is older than its parents. */
  ghost predicate FallingTimes(g: Dag)
    requires WellFormed(g)
  {
    forall c, p :: 0 <= c < |g.parents| && p in g.parents[c] ==> g.time[p] <= g.time[c]
  }

  /** No commit is older than its parents, and parents are strictly older below the best
      common ancestors.  Weaker than StrictTimes. */
  ghost predicate TimesSuffice(g: Dag, one: nat, two: nat)
    requires WellFormed(g)
  {
    && FallingTimes(g)
    && forall c, p :: 0 <= c < |g.parents| && p in g.parents[c] && HasCommonChild(g, one, two, c) ==> g.time[p] < g.time[c]
  }

  /** Commits are popped newest first, and all that is painted was queued. */
  ghost predicate Descending(g: Dag, f: seq<Flags>, q: multiset<nat>, popped: set<nat>)
    requires WellFormed(g)
  {
    && |f| == |g.parents|
    && (forall c :: c in popped ==> c < |f|)
    && (forall x :: x in q ==> x < |f|)
    && (forall c, x :: c in popped && x in q ==> g.time[x] <= g.time[c])
    && (forall x :: 0 <= x < |f| && Flagged(f[x]) ==> x in q || x in popped)
  }

  lemma {:induction false} SpreadDescends(g: Dag, ps: seq<nat>, s: Painting, h: Flags, popped: set<nat>)
    requires WellFormed(g) && Descending(g, s.f, s.q, popped) && Below(ps, |s.f|)
    requires forall d, p :: d in popped && p in ps ==> g.time[p] <= g.time[d]
    ensures Descending(g, Spread(ps, s, h).f, Spread(ps, s, h).q, popped)
    decreases |ps|
  {
    if ps != [] {
      assert ps[0] in ps;
      if Has(s.f[ps[0]], h) {
        SpreadDescends(g, ps[1..], s, h, popped);
      } else {
        SpreadDescends(g, ps[1..], s.(f := s.f[ps[0] := Or(s.f[ps[0]], h)], q := s.q + multiset{ps[0]}), h, popped);
      }
    }
  }

  lemma PopDescends(g: Dag, s: Painting, popped: set<nat>, c: nat)
    requires InRange(g, s) && FallingTimes(g) && Descending(g, s.f, s.q, popped)
    requires c in s.q && NoneNewer(g, s.q, g.time[c])
    ensures Descending(g, Pop(g, s, c).f, Pop(g, s, c).q, popped + {c})
  {
    var s' := s.(f := s.f[c := Visited(s.f[c])], q := s.q - multiset{c});
    forall x | 0 <= x < |s'.f| && Flagged(s'.f[x]) ensures x in s'.q || x in popped + {c} {
      assert Flagged(s.f[x]);
    }
    forall d, p | d in popped + {c} && p in g.parents[c] ensures g.time[p] <= g.time[d] {
      assert g.time[p] <= g.time[c] <= g.time[d];
    }
    SpreadDescends(g, g.parents[c], s', HandedOn(s.f[c]), popped + {c});
  }

  /** A commit reached from `two` that lacks PARENT2 lies below a queued stale commit
      that is newer. */
  lemma {:induction false} LackingTwo(g: Dag, one: nat, two: nat, f: seq<Flags>, q: multiset<nat>, x: nat, k: nat) returns (d: nat)
    requires Marking(g, one, two, f, q) && AllStale(f, q) && TimesSuffice(g, one, two)
    requires ReachIn(g, two, x, k) && !f[x].p2
    ensures d in q && d < |f| && g.time[x] < g.time[d]
    decreases k
  {
    var c :| 0 <= c < |g.parents| && ReachIn(g, two, c, k - 1) && x in g.parents[c];
    if f[c].p2 {
      d := c;
      assert c in q by {
        if Settled(g, f, c) { assert Has(f[x], HandedOn(f[c])); }
      }
      assert SoundFlags(g, one, two, c, f[c]);
    } else {
      d := LackingTwo(g, one, two, f, q, c, k - 1);
    }
  }

  lemma {:induction false} LackingOne(g: Dag, one: nat, two: nat, f: seq<Flags>, q: multiset<nat>, x: nat, k: nat) returns (d: nat)
    requires Marking(g, one, two, f, q) && AllStale(f, q) && TimesSuffice(g, one, two)
    requires ReachIn(g, one, x, k) && !f[x].p1
    ensures d in q && d < |f| && g.time[x] < g.time[d]
    decreases k
  {
    var c :| 0 <= c < |g.parents| && ReachIn(g, one, c, k - 1) && x in g.parents[c];
    if f[c].p1 {
      d := c;
      assert c in q by {
        if Settled(g, f, c) { assert Has(f[x], HandedOn(f[c])); }
      }
      assert SoundFlags(g, one, two, c, f[c]);
    } else {
      d := LackingOne(g, one, two, f, q, c, k - 1);
    }
  }

  /** With times that suffice, a commit with one flag at the exit is reached from that
      side only. */
  lemma OneFlagExact(g: Dag, one: nat, two: nat, f: seq<Flags>, q: multiset<nat>, popped: set<nat>, x: nat)
    requires Marking(g, one, two, f, q) && AllStale(f, q) && TimesSuffice(g, one, two)
    requires Descending(g, f, q, popped) && x < |f| && Flagged(f[x])
    ensures !f[x].p2 ==> !Reaches(g, two, x)
    ensures !f[x].p1 ==> !Reaches(g, one, x)
  {
    if !f[x].p2 && Reaches(g, two, x) {
      assert SoundFlags(g, one, two, x, f[x]);
      var k: nat :| ReachIn(g, two, x, k);
      var d := LackingTwo(g, one, two, f, q, x, k);
    }
    if !f[x].p1 && Reaches(g, one, x) {
      assert SoundFlags(g, one, two, x, f[x]);
      var k: nat :| ReachIn(g, one, x, k);
      var d := LackingOne(g, one, two, f, q, x, k);
    }
  }

  // ------------------------------------------------- the same with strict times

  /** What mark_parents keeps when parents are older: commits are popped newest
      first, and the flags of a popped commit are final. */
  ghost predicate Ordered(g: Dag, one: nat, two: nat, f: seq<Flags>, q: multiset<nat>, popped: set<nat>)
    requires WellFormed(g)
  {
    && Descending(g, f, q, popped)
    && (forall c :: c in popped ==> Exact(g, one, two, c, f[c]) && (f[c].result <==> Best(g, one, two, c)))
    && (forall x :: 0 <= x < |f| && f[x].result ==> x in popped)
  }

  lemma OrderedStart(g: Dag, one: nat, two: nat, f: seq<Flags>, q: multiset<nat>, popped: set<nat>, c: nat)
    requires Marking(g, one, two, f, q) && StrictTimes(g) && Ordered(g, one, two, f, q, popped)
    requires c in q && NoneNewer(g, q, g.time[c])
    ensures Ordered(g, one, two, f[c := Visited(f[c])], q - multiset{c}, popped + {c})
  {
    hide Reaches, HasCommonChild, Best;
    ExactWhenNewest(g, one, two, f, q, c);
    BestIsChildless(g, one, two, c);
    var f', q', popped' := f[c := Visited(f[c])], q - multiset{c}, popped + {c};
    forall x | 0 <= x < |f'| && Flagged(f'[x]) ensures x in q' || x in popped' {
      assert Flagged(f[x]);
    }
    forall x | 0 <= x < |f'| && f'[x].result ensures x in popped' {
    }
    forall d | d in popped' ensures Exact(g, one, two, d, f'[d]) && (f'[d].result <==> Best(g, one, two, d)) {
      if d == c {
        assert Exact(g, one, two, c, f[c]);
        if c in popped { assert f[c].result <==> Best(g, one, two, c); }
        else { assert !f[c].result; }
      }
    }
  }

  lemma {:induction false} SpreadOrdered(g: Dag, one: nat, two: nat, ps: seq<nat>, s: Painting, h: Flags, popped: set<nat>)
    requires WellFormed(g) && Ordered(g, one, two, s.f, s.q, popped) && Below(ps, |s.f|)
    requires forall d, p :: d in popped && p in ps ==> g.time[p] < g.time[d]
    ensures Ordered(g, one, two, Spread(ps, s, h).f, Spread(ps, s, h).q, popped)
    decreases |ps|
  {
    hide Exact, Best;
    if ps != [] {
      assert ps[0] in ps && ps[0] !in popped;
      if Has(s.f[ps[0]], h) {
        SpreadOrdered(g, one, two, ps[1..], s, h, popped);
      } else {
        SpreadOrdered(g, one, two, ps[1..], s.(f := s.f[ps[0] := Or(s.f[ps[0]], h)], q := s.q + multiset{ps[0]}), h, popped);
      }
    }
  }

  /** With strict times, the flags of a popped commit are exact and stay so. */
  lemma PopOrdered(g: Dag, one: nat, two: nat, s: Painting, popped: set<nat>, c: nat)
    requires InRange(g, s) && Marking(g, one, two, s.f, s.q) && StrictTimes(g) && Ordered(g, one, two, s.f, s.q, popped)
    requires c in s.q && NoneNewer(g, s.q, g.time[c])
    ensures Ordered(g, one, two, Pop(g, s, c).f, Pop(g, s, c).q, popped + {c})
  {
    OrderedStart(g, one, two, s.f, s.q, popped, c);
    hide Marking, Exact, Best;
    var s' := s.(f := s.f[c := Visited(s.f[c])], q := s.q - multiset{c});
    forall d, p | d in popped + {c} && p in g.parents[c] ensures g.time[p] < g.time[d] {
      assert g.time[p] < g.time[c] <= g.time[d];
    }
    SpreadOrdered(g, one, two, g.parents[c], s', HandedOn(s.f[c]), popped + {c});
  }

  lemma OrderedDescends(g: Dag, one: nat, two: nat, f: seq<Flags>, q: multiset<nat>, popped: set<nat>)
    requires WellFormed(g) && Ordered(g, one, two, f, q, popped)
    ensures Descending(g, f, q, popped)
  {
  }

  lemma SufficeFalls(g: Dag, one: nat, two: nat)
    requires WellFormed(g) && TimesSuffice(g, one, two)
    ensures FallingTimes(g)
  {
  }

  lemma RunsStart(g: Dag, s: Painting)
    requires InRange(g, s)
    ensures Runs(g, s, []) && Painted(g, s, []) == s
  {
  }

  lemma StoppedStale(g: Dag, s: Painting)
    requires InRange(g, s) && (Idle(g, s) || s.q == multiset{})
    ensures AllStale(s.f, s.q)
  {
  }

  lemma FreshIsPopped(g: Dag, one: nat, two: nat, f: seq<Flags>, q: multiset<nat>, popped: set<nat>, x: nat)
    requires WellFormed(g) && AllStale(f, q) && Ordered(g, one, two, f, q, popped) && x < |f| && Flagged(f[x]) && !f[x].stale
    ensures x in popped && (f[x].result <==> Best(g, one, two, x))
  {
    hide Best, Exact;
  }

  /** A best common ancestor is painted, and not stale. */
  lemma BestIsPainted(g: Dag, one: nat, two: nat, f: seq<Flags>, q: multiset<nat>, x: nat)
    requires Marking(g, one, two, f, q) && AllStale(f, q) && x < |f|
    requires CommonAnc(g, one, two, x) && !HasCommonChild(g, one, two, x)
    ensures f[x].p1 && !f[x].stale
  {
    var k: nat :| ReachIn(g, one, x, k);
    assert SoundFlags(g, one, two, x, f[x]);
    if k > 0 {
      var c :| 0 <= c < |g.parents| && ReachIn(g, one, c, k - 1) && x in g.parents[c];
      assert !CommonAnc(g, one, two, c);
      OneSided(g, one, two, f, q, c, k - 1);
      hide HasCommonChild, Reaches;
      assert SoundFlags(g, one, two, c, f[c]);
      assert Settled(g, f, c);
    }
  }

  lemma PaintedRange(g: Dag, one: nat, two: nat, f: seq<Flags>, q: multiset<nat>)
    requires Marking(g, one, two, f, q)
    ensures WellFormed(g) && |f| == |g.parents| && one < |f| && two < |f|
  {
    hide SoundFlags, Settled;
  }

  /** When only stale commits are left, exactly the best common ancestors are RESULT. */
  lemma ResultIsBest(g: Dag, one: nat, two: nat, f: seq<Flags>, q: multiset<nat>, popped: set<nat>, x: nat)
    requires Marking(g, one, two, f, q) && AllStale(f, q) && StrictTimes(g)
    requires Ordered(g, one, two, f, q, popped) && x < |f|
    ensures f[x].result <==> Best(g, one, two, x)
  {
    PaintedRange(g, one, two, f, q);
    hide Marking, Best, HasCommonChild, Reaches, Exact, AllStale;
    if Best(g, one, two, x) {
      BestIsChildless(g, one, two, x);
      BestIsPainted(g, one, two, f, q, x);
      FreshIsPopped(g, one, two, f, q, popped, x);
    }
  }

  // ------------------------------------------------------------------- progress

  function Unset(f: Flags): nat {
    (if f.p1 then 0 else 1) + (if f.p2 then 0 else 1) + (if f.stale then 0 else 1)
  }

  /** Flags that can still be set. */
  function Missing(f: seq<Flags>): nat {
    if f == [] then 0 else Unset(f[0]) + Missing(f[1..])
  }

  lemma {:induction false} MissingUpdate(f: seq<Flags>, x: nat, v: Flags)
    requires x < |f|
    ensures Missing(f[x := v]) + Unset(f[x]) == Missing(f) + Unset(v)
  {
    if x == 0 {
      assert f[x := v][1..] == f[1..];
    } else {
      assert f[x := v][1..] == f[1..][x - 1 := v];
      MissingUpdate(f[1..], x - 1, v);
    }
  }

  lemma {:induction false} SpreadProgress(ps: seq<nat>, s: Painting, h: Flags)
    requires Below(ps, |s.f|)
    ensures Spread(ps, s, h) == s || Missing(Spread(ps, s, h).f) < Missing(s.f)
  {
    hide Missing;
    if ps != [] {
      assert ps[0] in ps;
      if Has(s.f[ps[0]], h) {
        SpreadProgress(ps[1..], s, h);
      } else {
        MissingUpdate(s.f, ps[0], Or(s.f[ps[0]], h));
        SpreadProgress(ps[1..], s.(f := s.f[ps[0] := Or(s.f[ps[0]], h)], q := s.q + multiset{ps[0]}), h);
      }
    }
  }

  /** Every round sets a new flag or shortens the queue: painting ends, for any times. */
  lemma PopProgress(g: Dag, s: Painting, c: nat)
    requires InRange(g, s) && c in s.q
    ensures var t := Pop(g, s, c);
            Missing(t.f) < Missing(s.f) || (Missing(t.f) == Missing(s.f) && |t.q| < |s.q|)
  {
    hide Missing;
    MissingUpdate(s.f, c, Visited(s.f[c]));
    SpreadProgress(g.parents[c], s.(f := s.f[c := Visited(s.f[c])], q := s.q - multiset{c}), HandedOn(s.f[c]));
  }

  /** All that one round keeps. */
  lemma PopKeeps(g: Dag, one: nat, two: nat, s: Painting, popped: set<nat>, c: nat)
    requires InRange(g, s) && Marking(g, one, two, s.f, s.q) && c in s.q && c < |g.parents| && NoneNewer(g, s.q, g.time[c])
    requires FallingTimes(g) ==> Descending(g, s.f, s.q, popped)
    requires StrictTimes(g) ==> Ordered(g, one, two, s.f, s.q, popped)
    ensures Marking(g, one, two, Pop(g, s, c).f, Pop(g, s, c).q)
    ensures FallingTimes(g) ==> Descending(g, Pop(g, s, c).f, Pop(g, s, c).q, popped + {c})
    ensures StrictTimes(g) ==> Ordered(g, one, two, Pop(g, s, c).f, Pop(g, s, c).q, popped + {c})
    ensures Missing(Pop(g, s, c).f) < Missing(s.f) || (Missing(Pop(g, s, c).f) == Missing(s.f) && |Pop(g, s, c).q| < |s.q|)
  {
    hide Marking, Descending, Ordered, FallingTimes, StrictTimes, Missing, Pop, NoneNewer;
    PopMarks(g, one, two, s, c);
    if FallingTimes(g) { PopDescends(g, s, popped, c); }
    if StrictTimes(g) { PopOrdered(g, one, two, s, popped, c); }
    PopProgress(g, s, c);
  }
}
