/** A history in which one commit is as old as its parent, and ahead_behind counts a
    common commit. */
module GraphTied {
  import opened GraphReach
  import opened GraphPaint
  import opened Graph

  /** 4 has the parents 1 and 3; 3 has 2 and 0; 2 has 1; 1 has 0.  The commits 1 and 2
      have the same time. */
  const TIED: Dag := Dag([[], [0], [1], [2, 0], [1, 3]], [0, 1, 1, 2, 3])

  const FIRST: Flags := Flags(true, false, false, false)
  const SECOND: Flags := Flags(false, true, false, false)
  const BOTH: Flags := Flags(true, true, false, false)
  const BASE: Flags := Flags(true, true, false, true)
  const STALE: Flags := Flags(true, true, true, false)

  const ATSTART: Painting := Painting([CLEAR, CLEAR, CLEAR, FIRST, SECOND], multiset{3, 4}, [])
  const AFTER4: Painting := Painting([CLEAR, SECOND, CLEAR, BOTH, SECOND], multiset{3, 1, 3}, [])
  const AFTER3: Painting := Painting([STALE, SECOND, STALE, BASE, SECOND], multiset{1, 3, 2, 0}, [])
  const AGAIN3: Painting := Painting([STALE, SECOND, STALE, BASE, SECOND], multiset{1, 2, 0}, [])
  const AFTER1: Painting := Painting([STALE, SECOND, STALE, BASE, SECOND], multiset{2, 0}, [])

  lemma TiedRange()
    ensures WellFormed(TIED) && InRange(TIED, ATSTART) && InRange(TIED, AFTER4) && InRange(TIED, AFTER3)
    ensures InRange(TIED, AGAIN3) && InRange(TIED, AFTER1) && Start(TIED, 3, 4) == ATSTART
  {
    assert Start(TIED, 3, 4).f == ATSTART.f;
  }

  /** What handing on to one parent does. */
  function HandTo(s: Painting, p: nat, h: Flags): Painting
    requires p < |s.f|
  {
    if Has(s.f[p], h) then s else s.(f := s.f[p := Or(s.f[p], h)], q := s.q + multiset{p})
  }

  lemma SpreadOne(p: nat, s: Painting, h: Flags)
    requires p < |s.f|
    ensures Spread([p], s, h) == HandTo(s, p, h)
  {
    assert [p][1..] == [];
  }

  lemma SpreadTwo(p: nat, r: nat, s: Painting, h: Flags)
    requires p < |s.f| && r < |s.f|
    ensures Spread([p, r], s, h) == HandTo(HandTo(s, p, h), r, h)
  {
    assert [p, r][1..] == [r];
    SpreadOne(r, HandTo(s, p, h), h);
  }

  /** A round at a commit with two parents, or with one. */
  lemma RoundTwo(g: Dag, s: Painting, c: nat, p: nat, r: nat, s1: Painting, h: Flags)
    requires InRange(g, s) && c < |g.parents| && g.parents[c] == [p, r] && p < |s.f| && r < |s.f|
    requires s1 == s.(f := s.f[c := Visited(s.f[c])], q := s.q - multiset{c}) && h == HandedOn(s.f[c])
    ensures Pop(g, s, c) == HandTo(HandTo(s1, p, h), r, h)
  {
    hide Spread;
    SpreadTwo(p, r, s1, h);
  }

  lemma RoundOne(g: Dag, s: Painting, c: nat, p: nat, s1: Painting, h: Flags)
    requires InRange(g, s) && c < |g.parents| && g.parents[c] == [p] && p < |s.f|
    requires s1 == s.(f := s.f[c := Visited(s.f[c])], q := s.q - multiset{c}) && h == HandedOn(s.f[c])
    ensures Pop(g, s, c) == HandTo(s1, p, h)
  {
    hide Spread;
    SpreadOne(p, s1, h);
  }

  /** The loop may pop c at s, and then stands at t. */
  ghost predicate Next(g: Dag, s: Painting, c: nat, t: Painting) {
    && InRange(g, s) && c < |g.parents| && !Idle(g, s)
    && c in s.q && NoneNewer(g, s.q, g.time[c]) && Pop(g, s, c) == t
  }

  lemma Round4()
    ensures InRange(TIED, ATSTART) && Pop(TIED, ATSTART, 4) == AFTER4
  {
    TiedRange();
    hide InRange, WellFormed, Pop;
    var s := ATSTART.(q := multiset{3});
    assert ATSTART.(f := ATSTART.f[4 := SECOND], q := ATSTART.q - multiset{4}) == s;
    RoundTwo(TIED, ATSTART, 4, 1, 3, s, SECOND);
    assert HandTo(s, 1, SECOND) == Painting([CLEAR, SECOND, CLEAR, FIRST, SECOND], multiset{3, 1}, []);
  }

  lemma Round4Next()
    ensures Next(TIED, ATSTART, 4, AFTER4)
  {
    TiedRange();
    Round4();
    hide InRange, WellFormed, Pop;
    assert 4 in ATSTART.q;
  }

  lemma Round3()
    ensures InRange(TIED, AFTER4) && Pop(TIED, AFTER4, 3) == AFTER3
  {
    TiedRange();
    hide InRange, WellFormed, Pop;
    var s := Painting([CLEAR, SECOND, CLEAR, BASE, SECOND], multiset{3, 1}, []);
    assert AFTER4.(f := AFTER4.f[3 := BASE], q := AFTER4.q - multiset{3}) == s;
    RoundTwo(TIED, AFTER4, 3, 2, 0, s, STALE);
    assert HandTo(s, 2, STALE) == Painting([CLEAR, SECOND, STALE, BASE, SECOND], multiset{3, 1, 2}, []);
  }

  lemma Round3Next()
    ensures Next(TIED, AFTER4, 3, AFTER3)
  {
    TiedRange();
    Round3();
    hide InRange, WellFormed, Pop;
    assert 3 in AFTER4.q;
  }

  lemma Round3Again()
    ensures InRange(TIED, AFTER3) && Pop(TIED, AFTER3, 3) == AGAIN3
  {
    TiedRange();
    hide InRange, WellFormed, Pop;
    assert AFTER3.(f := AFTER3.f[3 := BASE], q := AFTER3.q - multiset{3}) == AGAIN3;
    RoundTwo(TIED, AFTER3, 3, 2, 0, AGAIN3, STALE);
  }

  lemma Round3AgainNext()
    ensures Next(TIED, AFTER3, 3, AGAIN3)
  {
    TiedRange();
    Round3Again();
    hide InRange, WellFormed, Pop;
    assert 3 in AFTER3.q;
  }

  lemma Round1()
    ensures InRange(TIED, AGAIN3) && Pop(TIED, AGAIN3, 1) == AFTER1
  {
    TiedRange();
    hide InRange, WellFormed, Pop;
    assert AGAIN3.(f := AGAIN3.f[1 := SECOND], q := AGAIN3.q - multiset{1}) == AFTER1;
    RoundOne(TIED, AGAIN3, 1, 0, AFTER1, SECOND);
  }

  lemma Round1Next()
    ensures Next(TIED, AGAIN3, 1, AFTER1)
  {
    TiedRange();
    Round1();
    hide InRange, WellFormed, Pop;
    assert 1 in AGAIN3.q;
  }

  lemma OneRound(g: Dag, s: Painting, c: nat, cs: seq<nat>)
    requires InRange(g, s) && c < |g.parents| && Below(cs, |g.parents|)
    requires !Idle(g, s) && c in s.q && NoneNewer(g, s.q, g.time[c]) && Runs(g, Pop(g, s, c), cs)
    ensures Below([c] + cs, |g.parents|) && Runs(g, s, [c] + cs) && Painted(g, s, [c] + cs) == Painted(g, Pop(g, s, c), cs)
  {
    hide Idle, InRange, NoneNewer, Pop;
    assert ([c] + cs)[1..] == cs;
  }

  /** Four rounds, one after the other. */
  lemma FourRounds(g: Dag, s0: Painting, s1: Painting, s2: Painting, s3: Painting, s4: Painting, a: nat, b: nat, c: nat, d: nat)
    requires Next(g, s0, a, s1) && Next(g, s1, b, s2) && Next(g, s2, c, s3) && Next(g, s3, d, s4)
    ensures InRange(g, s0) && Below([a, b, c, d], |g.parents|)
    ensures Runs(g, s0, [a, b, c, d]) && Painted(g, s0, [a, b, c, d]) == s4
  {
    hide Idle, InRange, NoneNewer, Pop, Runs, Painted;
    assert [d] + [] == [d] && [c] + [d] == [c, d] && [b] + [c, d] == [b, c, d] && [a] + [b, c, d] == [a, b, c, d];
    RunsStart(g, s4);
    OneRound(g, s3, d, []);
    OneRound(g, s2, c, [d]);
    OneRound(g, s1, b, [c, d]);
    OneRound(g, s0, a, [b, c, d]);
  }

  lemma RunOfFour(g: Dag, one: nat, two: nat, s1: Painting, s2: Painting, s3: Painting, s4: Painting, a: nat, b: nat, c: nat, d: nat)
    requires WellFormed(g) && one < |g.parents| && two < |g.parents| && InRange(g, s4) && Idle(g, s4)
    requires Next(g, Start(g, one, two), a, s1) && Next(g, s1, b, s2) && Next(g, s2, c, s3) && Next(g, s3, d, s4)
    ensures PaintsTo(g, one, two, [a, b, c, d], s4.f)
  {
    FourRounds(g, Start(g, one, two), s1, s2, s3, s4, a, b, c, d);
    hide Idle, Next, Runs, Painted;
  }

  lemma TiedRun()
    ensures WellFormed(TIED) && PaintsTo(TIED, 3, 4, [4, 3, 3, 1], AFTER1.f)
  {
    TiedRange();
    Round4Next();
    Round3Next();
    Round3AgainNext();
    Round1Next();
    hide InRange, WellFormed, Next, PaintsTo, Start;
    assert Idle(TIED, AFTER1);
    RunOfFour(TIED, 3, 4, AFTER4, AFTER3, AGAIN3, AFTER1, 4, 3, 3, 1);
  }

  lemma {:induction false} ReachInFalls(g: Dag, a: nat, b: nat, k: nat)
    requires WellFormed(g) && FallingTimes(g) && a < |g.parents| && ReachIn(g, a, b, k)
    ensures g.time[b] <= g.time[a]
    decreases k
  {
    if k > 0 {
      var c :| 0 <= c < |g.parents| && ReachIn(g, a, c, k - 1) && b in g.parents[c];
      ReachInFalls(g, a, c, k - 1);
    }
  }

  lemma TiedTimes()
    ensures WellFormed(TIED) && FallingTimes(TIED)
  {
    TiedRange();
  }

  lemma TiedAncestors()
    ensures WellFormed(TIED) && Reaches(TIED, 3, 0) && Reaches(TIED, 3, 1) && Reaches(TIED, 3, 2) && Reaches(TIED, 3, 3)
    ensures Reaches(TIED, 4, 4) && Reaches(TIED, 4, 3) && !Reaches(TIED, 3, 4)
  {
    TiedTimes();
    assert 2 in TIED.parents[3] && 0 in TIED.parents[3] && 1 in TIED.parents[2] && 3 in TIED.parents[4];
    hide Reaches, WellFormed, FallingTimes;
    ReachesSelf(TIED, 3);
    ReachesSelf(TIED, 4);
    ReachesParent(TIED, 3, 3, 2);
    ReachesParent(TIED, 3, 3, 0);
    ReachesParent(TIED, 3, 2, 1);
    ReachesParent(TIED, 4, 4, 3);
    NotReached(TIED, 3, 4);
  }

  lemma NotReached(g: Dag, a: nat, b: nat)
    requires WellFormed(g) && FallingTimes(g) && a < |g.parents| && b < |g.parents| && g.time[a] < g.time[b]
    ensures !Reaches(g, a, b)
  {
    if Reaches(g, a, b) {
      var k: nat :| ReachIn(g, a, b, k);
      ReachInFalls(g, a, b, k);
    }
  }

  lemma NotSufficient()
    ensures WellFormed(TIED) && !TimesSuffice(TIED, 3, 4)
  {
    TiedAncestors();
    hide Reaches, WellFormed, FallingTimes;
    assert CommonAnc(TIED, 3, 4, 3) && 2 in TIED.parents[3];
    assert HasCommonChild(TIED, 3, 4, 2) && 1 in TIED.parents[2];
    assert TIED.time[1] == TIED.time[2];
  }

  lemma TiedExclusive()
    ensures WellFormed(TIED) && Exclusive(TIED, 4, 3) == {4}
  {
    TiedAncestors();
    hide Reaches, WellFormed;
  }

  lemma TiedLine()
    ensures WellFormed(TIED) && Line(TIED, AFTER1.f, 4, false) == {1, 4}
  {
    TiedRange();
    var f := AFTER1.f;
    assert 1 in TIED.parents[4] && Single(f[1], false) && Single(f[4], false);
    hide Line, WellFormed;
    LineStart(TIED, f, 4, false);
    LineGrows(TIED, f, 4, false, 4, 1);
    forall x | x in Line(TIED, f, 4, false) ensures x in {1, 4} {
      LineFlags(TIED, f, 4, false, x);
    }
  }

  /** FallingTimes alone does not make the counts exact: a run of the loop that pops 1
      before 2 leaves 1 with one flag, and `behind` is 2 where one commit is exclusive. */
  lemma TiedCounts()
    ensures WellFormed(TIED) && FallingTimes(TIED) && !TimesSuffice(TIED, 3, 4)
    ensures PaintsTo(TIED, 3, 4, [4, 3, 3, 1], AFTER1.f)
    ensures Line(TIED, AFTER1.f, 4, false) == {1, 4}
    ensures Exclusive(TIED, 4, 3) == {4}
  {
    TiedTimes();
    NotSufficient();
    TiedRun();
    TiedLine();
    TiedExclusive();
  }
}
