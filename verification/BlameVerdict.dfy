/** Whole runs of blame: which commits end the history, what the main loop keeps, and
    when the culprit of every line is the end of its own trace. */
module BlameVerdict {
  import opened Common
  import opened BlameLines
  import opened BlameEntries
  import opened BlameRun

  // ------------------------------------------------------ where the history ends

  /** However blame goes back from c, the oldest commit is the first end that it meets. */
  ghost predicate EndsOnlyAt(h: History, first: bool, oldest: nat, c: nat)
    requires Acyclic(h)
    decreases h.height(c)
  {
    c == oldest
    || (ParentCount(h, c, first, Some(oldest)) > 0
        && forall i :: 0 <= i < ParentCount(h, c, first, Some(oldest)) ==> EndsOnlyAt(h, first, oldest, h.parents(c)[i]))
  }

  /** Blame can get back from c to the oldest commit. */
  ghost predicate Reaches(h: History, first: bool, oldest: nat, c: nat)
    requires Acyclic(h)
    decreases h.height(c)
  {
    c == oldest
    || exists i :: 0 <= i < ParentCount(h, c, first, Some(oldest)) && Reaches(h, first, oldest, h.parents(c)[i])
  }

  /** The history would end there without being told to. */
  predicate NoEnd(h: History, oldest: Option<nat>) { oldest.None? || h.parents(oldest.value) == [] }

  ghost predicate AllEnd(h: History, first: bool, oldest: nat, es: seq<Ent>)
    requires Acyclic(h)
  {
    forall i :: 0 <= i < |es| ==> EndsOnlyAt(h, first, oldest, es[i].suspect.commit)
  }

  ghost predicate NoneReaches(h: History, first: bool, oldest: nat, es: seq<Ent>)
    requires Acyclic(h)
  {
    forall i :: 0 <= i < |es| ==> !Reaches(h, first, oldest, es[i].suspect.commit)
  }

  /** The given oldest commit is respected: it is none or a root anyway, or no root is met
      before it, or it is never met. */
  ghost predicate OldestHolds(h: History, first: bool, oldest: Option<nat>, es: seq<Ent>)
    requires Acyclic(h)
  {
    NoEnd(h, oldest) || AllEnd(h, first, oldest.value, es) || NoneReaches(h, first, oldest.value, es)
  }

  /** The same while blame runs: pass_blame overwrites `oldest` with each end it meets. */
  ghost predicate StillHolds(h: History, first: bool, oldest0: Option<nat>, oldest: Option<nat>, es: seq<Ent>)
    requires Acyclic(h)
  {
    || (NoEnd(h, oldest0) && NoEnd(h, oldest))
    || (oldest0.Some? && oldest == oldest0 && AllEnd(h, first, oldest0.value, es))
    || (oldest0.Some? && (oldest == oldest0 || NoEnd(h, oldest)) && NoneReaches(h, first, oldest0.value, es))
  }

  /** Then the suspects end where they should. */
  lemma HoldsAgrees(h: History, first: bool, oldest0: Option<nat>, oldest: Option<nat>, es: seq<Ent>, k: nat)
    requires Acyclic(h) && StillHolds(h, first, oldest0, oldest, es) && k < |es|
    ensures ParentCount(h, es[k].suspect.commit, first, oldest) == ParentCount(h, es[k].suspect.commit, first, oldest0)
  {
  }

  // ------------------------------------------------------------ who is suspected

  ghost predicate Suspected(es: seq<Ent>, s: iset<nat>) {
    forall i :: 0 <= i < |es| ==> es[i].suspect.commit in s
  }

  ghost predicate PassesInto(how: Passing, s: iset<nat>) {
    match how
    case Whole(p) => p.commit in s
    case Standard(ps) => forall j :: 0 <= j < |ps| ==> ps[j].commit in s
  }

  lemma {:induction false} DecideInto(h: History, o: Origin, n: nat, i: nat, found: seq<Origin>, s: iset<nat>)
    requires i <= n <= |h.parents(o.commit)| && PassesInto(Standard(found), s)
    requires forall j :: 0 <= j < n ==> h.parents(o.commit)[j] in s
    ensures PassesInto(Decide(h, o, n, i, found), s)
    decreases n - i
  {
    hide SameBlob;
    if i < n {
      match h.find(o, i)
      case None => DecideInto(h, o, n, i + 1, found, s);
      case Some(path) =>
        var p := Origin(h.parents(o.commit)[i], path);
        if h.text(p) != h.text(o) {
          if SameBlob(h, found, p) { DecideInto(h, o, n, i + 1, found, s); } else { DecideInto(h, o, n, i + 1, found + [p], s); }
        }
    }
  }

  lemma {:induction false} ApplyAllSuspected(es: seq<Ent>, c: Chunk, s: iset<nat>)
    requires Suspected(es, s) && c.parent.commit in s
    ensures Suspected(ApplyAll(es, c), s)
  {
    if es != [] {
      assert Suspected(es[1..], s);
      ApplyAllSuspected(es[1..], c, s);
      ApplySuspected(es[0], c, s);
      hide Apply;
    }
  }

  lemma ApplySuspected(e: Ent, c: Chunk, s: iset<nat>)
    requires e.suspect.commit in s && c.parent.commit in s
    ensures Suspected(Apply(e, c), s)
  {
  }

  lemma {:induction false} PassHunksSuspected(es: seq<Ent>, hs: seq<Hunk>, p: nat, t: nat, last: nat, o: Origin, parent: Origin, s: iset<nat>)
    requires Suspected(es, s) && parent.commit in s
    ensures Suspected(PassHunks(es, hs, p, t, last, o, parent), s)
    decreases |hs|
  {
    hide ApplyAll, Suspected;
    var c := Chunk(t, p, if hs == [] then last else hs[0].startB, o, parent);
    ApplyAllSuspected(es, c, s);
    if hs != [] {
      PassHunksSuspected(ApplyAll(es, c), hs[1..], hs[0].startA + hs[0].countA, hs[0].startB + hs[0].countB, last, o, parent, s);
    }
  }

  lemma {:induction false} PassStandardSuspected(es: seq<Ent>, h: History, o: Origin, ps: seq<Origin>, s: iset<nat>)
    requires Suspected(es, s) && PassesInto(Standard(ps), s)
    ensures Suspected(PassStandard(es, h, o, ps), s)
    decreases |ps|
  {
    hide PassHunks, LastInTarget, Suspected;
    if ps != [] && LastInTarget(es, o) != 0 {
      PassHunksSuspected(es, h.diff(ps[0], o), 0, 0, LastInTarget(es, o), o, ps[0], s);
      PassStandardSuspected(PassToParent(es, h, o, ps[0]), h, o, ps[1..], s);
    }
  }

  lemma {:induction false} PassWholeSuspected(es: seq<Ent>, o: Origin, p: Origin, s: iset<nat>)
    requires Suspected(es, s) && p.commit in s
    ensures Suspected(PassWhole(es, o, p), s)
  {
    if es != [] {
      assert Suspected(es[1..], s);
      PassWholeSuspected(es[1..], o, p, s);
    }
  }

  lemma {:induction false} ConvictSuspected(es: seq<Ent>, o: Origin, boundary: bool, s: iset<nat>)
    requires Suspected(es, s)
    ensures Suspected(Convict(es, o, boundary), s)
  {
    if es != [] {
      assert Suspected(es[1..], s);
      ConvictSuspected(es[1..], o, boundary, s);
    }
  }

  /** Only the files that blame is passed to become suspects. */
  lemma RoundSuspected(es: seq<Ent>, h: History, o: Origin, how: Passing, boundary: bool, s: iset<nat>)
    requires Suspected(es, s) && PassesInto(how, s)
    ensures Suspected(Round(es, h, o, how, boundary), s)
  {
    hide Suspected, Convict, PassStandard, PassWhole;
    match how
    case Whole(p) => PassWholeSuspected(es, o, p, s); ConvictSuspected(PassWhole(es, o, p), o, boundary, s);
    case Standard(ps) => PassStandardSuspected(es, h, o, ps, s); ConvictSuspected(PassStandard(es, h, o, ps), o, boundary, s);
  }

  // -------------------------------------------------------------- a whole run

  /** The new `oldest` after a round for the commit c. */
  function NextOldest(h: History, first: bool, oldest: Option<nat>, c: nat): Option<nat> {
    if ParentCount(h, c, first, oldest) == 0 then Some(c) else oldest
  }

  function RoundFor(h: History, first: bool, oldest: Option<nat>, es: seq<Ent>, o: Origin): seq<Ent> {
    Round(es, h, o, PassingOf(h, first, oldest, o), NextOldest(h, first, oldest, o.commit) == Some(o.commit))
  }

  /** The first open entry. */
  ghost function FirstOpen(es: seq<Ent>): (k: Option<nat>)
    ensures k.None? ==> forall i :: 0 <= i < |es| ==> es[i].guilty
    ensures k.Some? ==> k.value < |es| && !es[k.value].guilty && forall i :: 0 <= i < k.value ==> es[i].guilty
  {
    if es == [] then None
    else if !es[0].guilty then Some(0)
    else
      var k := FirstOpen(es[1..]);
      assert forall i :: 1 <= i < |es| ==> es[i] == es[1..][i - 1];
      if k.None? then None else Some(k.value + 1)
  }

  lemma RoundForProgress(h: History, first: bool, oldest: Option<nat>, es: seq<Ent>, k: nat)
    requires Acyclic(h) && k < |es| && !es[k].guilty
    ensures Measure(h, RoundFor(h, first, oldest, es, es[k].suspect)) < Measure(h, es)
  {
    hide Measure, Round, Decide;
    var o := es[k].suspect;
    DecideFromParents(h, o, ParentCount(h, o.commit, first, oldest), 0, []);
    RoundProgress(h, es, o, PassingOf(h, first, oldest, o), NextOldest(h, first, oldest, o.commit) == Some(o.commit), k);
  }

  /** The main loop of git_blame__like_git: rounds for the first open suspect, until all
      entries are guilty. */
  ghost function Run(h: History, first: bool, oldest: Option<nat>, es: seq<Ent>): seq<Ent>
    requires Acyclic(h)
    decreases Measure(h, es)
  {
    var k := FirstOpen(es);
    if k.None? then es
    else
      var o := es[k.value].suspect;
      RoundForProgress(h, first, oldest, es, k.value);
      Run(h, first, NextOldest(h, first, oldest, o.commit), RoundFor(h, first, oldest, es, o))
  }

  /** A round keeps the condition. */
  lemma HoldsKept(h: History, first: bool, oldest0: Option<nat>, oldest: Option<nat>, es: seq<Ent>, k: nat)
    requires Acyclic(h) && StillHolds(h, first, oldest0, oldest, es) && k < |es|
    ensures var o := es[k].suspect;
            StillHolds(h, first, oldest0, NextOldest(h, first, oldest, o.commit), RoundFor(h, first, oldest, es, o))
  {
    var o := es[k].suspect;
    var n, how := ParentCount(h, o.commit, first, oldest), PassingOf(h, first, oldest, o);
    var boundary := NextOldest(h, first, oldest, o.commit) == Some(o.commit);
    HoldsAgrees(h, first, oldest0, oldest, es, k);
    if NoEnd(h, oldest0) && NoEnd(h, oldest) {
    } else if oldest == oldest0 && AllEnd(h, first, oldest0.value, es) {
      hide Round, Decide;
      var s := iset c: nat | EndsOnlyAt(h, first, oldest0.value, c);
      DecideInto(h, o, n, 0, [], s);
      RoundSuspected(es, h, o, how, boundary, s);
    } else {
      hide Round, Decide;
      var s := iset c: nat | !Reaches(h, first, oldest0.value, c);
      DecideInto(h, o, n, 0, [], s);
      RoundSuspected(es, h, o, how, boundary, s);
    }
  }

  /** All that the main loop keeps about its list of entries. */
  ghost predicate Running(h: History, first: bool, oldest0: Option<nat>, oldest: Option<nat>, es0: seq<Ent>, es: seq<Ent>,
                          lo: nat, hi: nat, final: seq<string>)
  {
    && Acyclic(h) && ValidDiffs(h)
    && Tiles(es, lo, hi) && TextOk(h, Lines(es), final)
    && Run(h, first, oldest, es) == Run(h, first, oldest0, es0)
    && (OldestHolds(h, first, oldest0, es0) ==>
          StillHolds(h, first, oldest0, oldest, es) && OnTrace(h, first, oldest0, Lines(es), Lines(es0)))
  }

  lemma SamePassing(h: History, first: bool, a: Option<nat>, b: Option<nat>, o: Origin)
    requires ParentCount(h, o.commit, first, a) == ParentCount(h, o.commit, first, b)
    ensures PassingOf(h, first, a, o) == PassingOf(h, first, b, o)
  {
  }

  lemma RunStep(h: History, first: bool, oldest: Option<nat>, es: seq<Ent>, k: nat)
    requires Acyclic(h) && FirstOpen(es) == Some(k)
    ensures var o := es[k].suspect;
            Run(h, first, oldest, es) == Run(h, first, NextOldest(h, first, oldest, o.commit), RoundFor(h, first, oldest, es, o))
  {
    hide RoundFor, NextOldest, FirstOpen, Measure;
  }

  /** One round keeps it, and makes the measure smaller. */
  lemma RoundRuns(h: History, first: bool, oldest0: Option<nat>, oldest: Option<nat>, es0: seq<Ent>, es: seq<Ent>,
                  lo: nat, hi: nat, final: seq<string>, k: nat)
    requires Running(h, first, oldest0, oldest, es0, es, lo, hi, final) && FirstOpen(es) == Some(k)
    ensures var o := es[k].suspect;
            && Running(h, first, oldest0, NextOldest(h, first, oldest, o.commit), es0, RoundFor(h, first, oldest, es, o), lo, hi, final)
            && Measure(h, RoundFor(h, first, oldest, es, o)) < Measure(h, es)
  {
    hide Tiles, Lines, Round, Measure, OnTrace, TextOk, RoundWhos, Decide, OldestHolds, StillHolds, Run, FirstOpen;
    var o := es[k].suspect;
    var how := PassingOf(h, first, oldest, o);
    var boundary := NextOldest(h, first, oldest, o.commit) == Some(o.commit);
    DecideFromParents(h, o, ParentCount(h, o.commit, first, oldest), 0, []);
    RoundLines(es, h, o, how, boundary);
    RoundTiles(es, h, o, how, boundary, lo, hi);
    RoundKeepsText(h, Lines(es), final, o, how);
    RoundForProgress(h, first, oldest, es, k);
    RunStep(h, first, oldest, es, k);
    if OldestHolds(h, first, oldest0, es0) {
      HoldsAgrees(h, first, oldest0, oldest, es, k);
      SamePassing(h, first, oldest0, oldest, o);
      RoundOnTrace(h, first, oldest0, Lines(es), Lines(es0), o);
      HoldsKept(h, first, oldest0, oldest, es, k);
    }
  }

  /** The verdict on every line is the end of that line's own trace. */
  ghost predicate Verdict(h: History, first: bool, oldest: Option<nat>, ws: seq<Who>, start: seq<Who>)
    requires Acyclic(h)
  {
    |ws| == |start| &&
    forall i :: 0 <= i < |ws| ==>
      ws[i].guilty && (ws[i].suspect, ws[i].line) == Trace(h, first, oldest, start[i].suspect, start[i].line)
  }

  lemma {:induction false} AllGuilty(es: seq<Ent>)
    requires forall i :: 0 <= i < |es| ==> es[i].guilty
    ensures forall i :: 0 <= i < |Lines(es)| ==> Lines(es)[i].guilty
  {
    if es != [] {
      assert forall i :: 0 <= i < |es[1..]| ==> es[1..][i] == es[i + 1];
      AllGuilty(es[1..]);
    }
  }

  lemma RunDone(h: History, first: bool, oldest: Option<nat>, es: seq<Ent>, start: seq<Who>)
    requires Acyclic(h) && OnTrace(h, first, oldest, Lines(es), start)
    requires forall i :: 0 <= i < |es| ==> es[i].guilty
    ensures Verdict(h, first, oldest, Lines(es), start)
  {
    hide Lines;
    AllGuilty(es);
    var ws := Lines(es);
    forall i | 0 <= i < |ws|
      ensures ws[i].guilty && (ws[i].suspect, ws[i].line) == Trace(h, first, oldest, start[i].suspect, start[i].line)
    {
      assert OnTraceWho(h, first, oldest, ws[i], start[i]);
    }
  }

  /** Coalescing keeps every entry guilty. */
  lemma {:induction false} CoalesceGuilty(es: seq<Ent>)
    requires forall i :: 0 <= i < |es| ==> es[i].guilty
    ensures forall i :: 0 <= i < |Coalesce(es)| ==> Coalesce(es)[i].guilty
    decreases |es|
  {
    if |es| >= 2 {
      if Mergeable(es[0], es[1]) {
        CoalesceGuilty([es[0].(numLines := es[0].numLines + es[1].numLines)] + es[2..]);
      } else {
        CoalesceGuilty(es[1..]);
      }
    }
  }
}
