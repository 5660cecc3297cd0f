/** Which entries blame marks as boundaries: those of commits at which the history ends. */
module BlameBoundary {
  import opened Common
  import opened BlameLines
  import opened BlameEntries
  import opened BlameRun
  import opened BlameVerdict

  /** The commit is a root, or the oldest one that is to be looked at. */
  predicate HistoryEnds(h: History, oldest: Option<nat>, c: nat) { h.parents(c) == [] || oldest == Some(c) }

  ghost predicate Right(h: History, oldest: Option<nat>, e: Ent) {
    e.guilty ==> (e.isBoundary <==> HistoryEnds(h, oldest, e.suspect.commit))
  }

  /** Every entry of a found culprit is marked exactly if the history ends there. */
  ghost predicate AllRight(h: History, oldest: Option<nat>, es: seq<Ent>) { forall i :: 0 <= i < |es| ==> Right(h, oldest, es[i]) }

  lemma ApplyRight(h: History, oldest: Option<nat>, e: Ent, c: Chunk)
    requires Right(h, oldest, e)
    ensures AllRight(h, oldest, Apply(e, c))
  {
  }

  lemma {:induction false} ApplyAllRight(h: History, oldest: Option<nat>, es: seq<Ent>, c: Chunk)
    requires AllRight(h, oldest, es)
    ensures AllRight(h, oldest, ApplyAll(es, c))
  {
    hide Right, Apply;
    if es != [] {
      assert AllRight(h, oldest, es[1..]);
      ApplyRight(h, oldest, es[0], c);
      ApplyAllRight(h, oldest, es[1..], c);
    }
  }

  lemma {:induction false} PassHunksRight(h: History, oldest: Option<nat>, es: seq<Ent>, hs: seq<Hunk>, p: nat, t: nat, last: nat, o: Origin, parent: Origin)
    requires AllRight(h, oldest, es)
    ensures AllRight(h, oldest, PassHunks(es, hs, p, t, last, o, parent))
    decreases |hs|
  {
    hide ApplyAll, AllRight;
    var c := Chunk(t, p, if hs == [] then last else hs[0].startB, o, parent);
    ApplyAllRight(h, oldest, es, c);
    if hs != [] {
      PassHunksRight(h, oldest, ApplyAll(es, c), hs[1..], hs[0].startA + hs[0].countA, hs[0].startB + hs[0].countB, last, o, parent);
    }
  }

  lemma {:induction false} PassStandardRight(h: History, oldest: Option<nat>, es: seq<Ent>, o: Origin, ps: seq<Origin>)
    requires AllRight(h, oldest, es)
    ensures AllRight(h, oldest, PassStandard(es, h, o, ps))
    decreases |ps|
  {
    hide PassHunks, LastInTarget, AllRight;
    if ps != [] && LastInTarget(es, o) != 0 {
      PassHunksRight(h, oldest, es, h.diff(ps[0], o), 0, 0, LastInTarget(es, o), o, ps[0]);
      PassStandardRight(h, oldest, PassToParent(es, h, o, ps[0]), o, ps[1..]);
    }
  }

  /** Nothing guilty is passed on as a whole. */
  lemma {:induction false} PassWholeRight(h: History, oldest: Option<nat>, es: seq<Ent>, o: Origin, p: Origin)
    requires AllRight(h, oldest, es) && forall i :: 0 <= i < |es| && es[i].suspect == o ==> !es[i].guilty
    ensures AllRight(h, oldest, PassWhole(es, o, p))
  {
    hide HistoryEnds;
    if es != [] {
      assert AllRight(h, oldest, es[1..]);
      PassWholeRight(h, oldest, es[1..], o, p);
      assert Right(h, oldest, es[0]);
    }
  }

  lemma {:induction false} ConvictRight(h: History, oldest: Option<nat>, es: seq<Ent>, o: Origin, boundary: bool)
    requires AllRight(h, oldest, es) && (boundary <==> HistoryEnds(h, oldest, o.commit))
    ensures AllRight(h, oldest, Convict(es, o, boundary))
  {
    hide HistoryEnds;
    if es != [] {
      assert AllRight(h, oldest, es[1..]);
      ConvictRight(h, oldest, es[1..], o, boundary);
      assert Right(h, oldest, es[0]);
    }
  }

  /** An entry that is not empty has its first line in the list of lines. */
  lemma {:induction false} LineOfEntry(es: seq<Ent>, i: nat) returns (j: nat)
    requires i < |es| && es[i].numLines >= 1
    ensures j < |Lines(es)| && Lines(es)[j] == Who(es[i].suspect, es[i].sLno, es[i].guilty)
  {
    if i == 0 {
      j := 0;
      assert LinesOf(es[0])[0] == Who(es[0].suspect, es[0].sLno, es[0].guilty);
    } else {
      var k := LineOfEntry(es[1..], i - 1);
      j := |LinesOf(es[0])| + k;
    }
  }

  /** A suspect whose file a parent has unchanged is not guilty of anything yet. */
  lemma NotGuiltyYet(h: History, first: bool, oldest: Option<nat>, es: seq<Ent>, start: seq<Who>, o: Origin)
    requires Acyclic(h) && OnTrace(h, first, oldest, Lines(es), start) && Solid(es) && PassingOf(h, first, oldest, o).Whole?
    ensures forall i :: 0 <= i < |es| && es[i].suspect == o ==> !es[i].guilty
  {
    hide Trace, Lines, Decide;
    forall i | 0 <= i < |es| && es[i].suspect == o ensures !es[i].guilty {
      var j := LineOfEntry(es, i);
      assert OnTraceWho(h, first, oldest, Lines(es)[j], start[j]);
    }
  }

  lemma RoundRight(h: History, first: bool, oldest0: Option<nat>, oldest: Option<nat>, es: seq<Ent>, start: seq<Who>, k: nat)
    requires Acyclic(h) && StillHolds(h, first, oldest0, oldest, es) && OnTrace(h, first, oldest0, Lines(es), start)
    requires Solid(es) && AllRight(h, oldest0, es) && k < |es|
    ensures AllRight(h, oldest0, RoundFor(h, first, oldest, es, es[k].suspect))
  {
    hide StillHolds, OnTrace, Lines, AllRight, Convict, PassStandard, PassWhole, Decide;
    var o := es[k].suspect;
    var how, boundary := PassingOf(h, first, oldest, o), NextOldest(h, first, oldest, o.commit) == Some(o.commit);
    HoldsAgrees(h, first, oldest0, oldest, es, k);
    SamePassing(h, first, oldest0, oldest, o);
    assert boundary <==> HistoryEnds(h, oldest0, o.commit);
    match how {
      case Whole(p) =>
        NotGuiltyYet(h, first, oldest0, es, start, o);
        PassWholeRight(h, oldest0, es, o, p);
        ConvictRight(h, oldest0, PassWhole(es, o, p), o, boundary);
      case Standard(ps) =>
        PassStandardRight(h, oldest0, es, o, ps);
        ConvictRight(h, oldest0, PassStandard(es, h, o, ps), o, boundary);
    }
  }

  /** A whole run. */
  lemma {:induction false} RunRight(h: History, first: bool, oldest0: Option<nat>, oldest: Option<nat>, es0: seq<Ent>, es: seq<Ent>,
                                    lo: nat, hi: nat, final: seq<string>)
    requires Running(h, first, oldest0, oldest, es0, es, lo, hi, final) && OldestHolds(h, first, oldest0, es0)
    requires Solid(es) && AllRight(h, oldest0, es)
    ensures Solid(Run(h, first, oldest, es)) && AllRight(h, oldest0, Run(h, first, oldest, es))
    decreases Measure(h, es)
  {
    hide OldestHolds, StillHolds, OnTrace, Lines, Tiles, TextOk, Measure, Round, FirstOpen, Run, AllRight, Solid, Decide;
    var k := FirstOpen(es);
    if k.None? {
      RunEnds(h, first, oldest, es);
    } else {
      var o := es[k.value].suspect;
      RoundRuns(h, first, oldest0, oldest, es0, es, lo, hi, final, k.value);
      RoundRight(h, first, oldest0, oldest, es, Lines(es0), k.value);
      RoundTiles(es, h, o, PassingOf(h, first, oldest, o), NextOldest(h, first, oldest, o.commit) == Some(o.commit), lo, hi);
      RunStep(h, first, oldest, es, k.value);
      RunRight(h, first, oldest0, NextOldest(h, first, oldest, o.commit), es0, RoundFor(h, first, oldest, es, o), lo, hi, final);
    }
  }

  lemma RunEnds(h: History, first: bool, oldest: Option<nat>, es: seq<Ent>)
    requires Acyclic(h) && FirstOpen(es) == None
    ensures Run(h, first, oldest, es) == es
  {
    hide FirstOpen, Measure;
  }

  lemma {:induction false} CoalesceRight(h: History, oldest: Option<nat>, es: seq<Ent>)
    requires AllRight(h, oldest, es)
    ensures AllRight(h, oldest, Coalesce(es))
    decreases |es|
  {
    hide HistoryEnds;
    if |es| >= 2 {
      var e := es[0].(numLines := es[0].numLines + es[1].numLines);
      assert Right(h, oldest, es[0]);
      assert AllRight(h, oldest, es[1..]);
      assert AllRight(h, oldest, [e] + es[2..]);
      CoalesceRight(h, oldest, es[1..]);
      CoalesceRight(h, oldest, [e] + es[2..]);
    }
  }

  /** Where the given oldest commit is respected, the entries that are marked as boundaries at
      the end are exactly those blamed on a root or on the oldest commit. */
  lemma BoundariesRight(h: History, first: bool, oldest: Option<nat>, es: seq<Ent>, lo: nat, hi: nat, final: seq<string>)
    requires Running(h, first, oldest, oldest, es, es, lo, hi, final) && OldestHolds(h, first, oldest, es)
    requires Solid(es) && forall i :: 0 <= i < |es| ==> !es[i].guilty
    ensures AllRight(h, oldest, Coalesce(Run(h, first, oldest, es)))
  {
    hide OldestHolds, StillHolds, OnTrace, Lines, Tiles, TextOk, Run, Coalesce;
    RunRight(h, first, oldest, oldest, es, es, lo, hi, final);
    CoalesceRight(h, oldest, Run(h, first, oldest, es));
  }
}
