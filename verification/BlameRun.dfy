/** Whole runs of blame on entry lists: one suspect after the other passes its
    lines on, keeps the rest, and the list shrinks to guilty entries only. */
module BlameRun {
  import opened Common
  import opened BlameLines
  import opened BlameEntries

  // ----------------------------------------------------------------- one suspect

  /** pass_whole_blame. */
  function PassWhole(es: seq<Ent>, o: Origin, p: Origin): seq<Ent> {
    if es == [] then []
    else [if es[0].suspect == o then es[0].(suspect := p) else es[0]] + PassWhole(es[1..], o, p)
  }

  /** The standard part of pass_blame; it stops when nothing is left to pass. */
  function PassStandard(es: seq<Ent>, h: History, o: Origin, ps: seq<Origin>): seq<Ent>
    decreases |ps|
  {
    if ps == [] || LastInTarget(es, o) == 0 then es
    else PassStandard(PassToParent(es, h, o, ps[0]), h, o, ps[1..])
  }

  function PassBlame(es: seq<Ent>, h: History, o: Origin, how: Passing): seq<Ent> {
    match how
    case Whole(p) => PassWhole(es, o, p)
    case Standard(ps) => PassStandard(es, h, o, ps)
  }

  /** The suspect takes responsibility for what is left. */
  function Convict(es: seq<Ent>, o: Origin, boundary: bool): seq<Ent> {
    if es == [] then []
    else [if es[0].suspect == o then es[0].(guilty := true, isBoundary := boundary) else es[0]]
         + Convict(es[1..], o, boundary)
  }

  // -------------------------------------------------------- the same, per line

  function StandardWho(w: Who, h: History, o: Origin, ps: seq<Origin>): Who {
    if w.guilty || w.suspect != o then w
    else
      match FirstKept(h, o, ps, w.line)
      case Some(n) => Who(n.0, n.1, false)
      case None => w
  }

  function StandardWhos(ws: seq<Who>, h: History, o: Origin, ps: seq<Origin>): seq<Who> {
    seq(|ws|, i requires 0 <= i < |ws| => StandardWho(ws[i], h, o, ps))
  }

  lemma StandardWhoStep(w: Who, h: History, o: Origin, ps: seq<Origin>)
    requires ps != [] && o != ps[0]
    ensures StandardWho(PassWho(w, h.diff(ps[0], o), 0, 0, o, ps[0]), h, o, ps[1..]) == StandardWho(w, h, o, ps)
  {
  }

  lemma {:induction false} NothingLeft(es: seq<Ent>, o: Origin)
    requires LastInTarget(es, o) == 0
    ensures forall i :: 0 <= i < |Lines(es)| ==> Lines(es)[i].guilty || Lines(es)[i].suspect != o
  {
    LastIsBound(es, o);
  }

  /** Passing to the candidates in turn gives each line to the first candidate that
      kept it. */
  lemma {:induction false} PassStandardLines(es: seq<Ent>, h: History, o: Origin, ps: seq<Origin>)
    requires o !in ps
    ensures Lines(PassStandard(es, h, o, ps)) == StandardWhos(Lines(es), h, o, ps)
    decreases |ps|
  {
    hide Lines, PassToParent, PassWho, StandardWho, FirstKept, LastInTarget;
    var ws := Lines(es);
    if ps == [] || LastInTarget(es, o) == 0 {
      forall i | 0 <= i < |ws| ensures StandardWho(ws[i], h, o, ps) == ws[i] {
        if ps == [] { NoCandidates(ws[i], h, o); } else { NothingLeft(es, o); NotOpen(ws[i], h, o, ps); }
      }
    } else {
      PassToParentLines(es, h, o, ps[0]);
      PassStandardLines(PassToParent(es, h, o, ps[0]), h, o, ps[1..]);
      forall i | 0 <= i < |ws|
        ensures StandardWho(PassWho(ws[i], h.diff(ps[0], o), 0, 0, o, ps[0]), h, o, ps[1..]) == StandardWho(ws[i], h, o, ps)
      {
        StandardWhoStep(ws[i], h, o, ps);
      }
    }
  }

  lemma NoCandidates(w: Who, h: History, o: Origin)
    ensures StandardWho(w, h, o, []) == w
  {
  }

  lemma NotOpen(w: Who, h: History, o: Origin, ps: seq<Origin>)
    requires w.guilty || w.suspect != o
    ensures StandardWho(w, h, o, ps) == w
  {
  }

  lemma PassToParentLines(es: seq<Ent>, h: History, o: Origin, p: Origin)
    requires o != p
    ensures Lines(PassToParent(es, h, o, p)) == PassWhos(Lines(es), h.diff(p, o), 0, 0, o, p)
  {
    LastIsBound(es, o);
    PassHunksLines(es, h.diff(p, o), 0, 0, LastInTarget(es, o), o, p);
  }

  function WholeWho(w: Who, o: Origin, p: Origin): Who {
    if w.suspect == o then w.(suspect := p) else w
  }

  function WholeWhos(ws: seq<Who>, o: Origin, p: Origin): seq<Who> {
    seq(|ws|, i requires 0 <= i < |ws| => WholeWho(ws[i], o, p))
  }

  lemma {:induction false} PassWholeLines(es: seq<Ent>, o: Origin, p: Origin)
    ensures Lines(PassWhole(es, o, p)) == WholeWhos(Lines(es), o, p)
  {
    if es != [] {
      PassWholeLines(es[1..], o, p);
      assert PassWhole(es, o, p)[1..] == PassWhole(es[1..], o, p);
    }
  }

  function ConvictWho(w: Who, o: Origin): Who {
    if w.suspect == o then w.(guilty := true) else w
  }

  function ConvictWhos(ws: seq<Who>, o: Origin): seq<Who> {
    seq(|ws|, i requires 0 <= i < |ws| => ConvictWho(ws[i], o))
  }

  lemma {:induction false} ConvictLines(es: seq<Ent>, o: Origin, boundary: bool)
    ensures Lines(Convict(es, o, boundary)) == ConvictWhos(Lines(es), o)
  {
    if es != [] {
      ConvictLines(es[1..], o, boundary);
      assert Convict(es, o, boundary)[1..] == Convict(es[1..], o, boundary);
    }
  }

  function PassBlameWho(w: Who, h: History, o: Origin, how: Passing): Who {
    match how
    case Whole(p) => WholeWho(w, o, p)
    case Standard(ps) => StandardWho(w, h, o, ps)
  }

  /** One round of the main loop, seen by a single line. */
  function RoundWho(w: Who, h: History, o: Origin, how: Passing): Who {
    ConvictWho(PassBlameWho(w, h, o, how), o)
  }

  function RoundWhos(ws: seq<Who>, h: History, o: Origin, how: Passing): seq<Who> {
    seq(|ws|, i requires 0 <= i < |ws| => RoundWho(ws[i], h, o, how))
  }

  /** One round of the main loop of git_blame__like_git for the suspect `o`. */
  function Round(es: seq<Ent>, h: History, o: Origin, how: Passing, boundary: bool): seq<Ent> {
    Convict(PassBlame(es, h, o, how), o, boundary)
  }

  /** The list operations of a round are the round on every single line. */
  lemma RoundLines(es: seq<Ent>, h: History, o: Origin, how: Passing, boundary: bool)
    requires Acyclic(h) && FromParents(h, o.commit, how)
    ensures Lines(Round(es, h, o, how, boundary)) == RoundWhos(Lines(es), h, o, how)
  {
    hide Lines, Convict, PassWhole, PassStandard, StandardWho, WholeWho, ConvictWho;
    match how
    case Whole(p) =>
      PassWholeLines(es, o, p);
      ConvictLines(PassWhole(es, o, p), o, boundary);
    case Standard(ps) =>
      NotOwnParent(h, o, ps);
      PassStandardLines(es, h, o, ps);
      ConvictLines(PassStandard(es, h, o, ps), o, boundary);
  }

  lemma NotOwnParent(h: History, o: Origin, ps: seq<Origin>)
    requires Acyclic(h) && FromParents(h, o.commit, Standard(ps))
    ensures o !in ps
  {
  }

  // -------------------------------------------------------------- shape is kept

  lemma {:induction false} PassHunksTiles(es: seq<Ent>, hs: seq<Hunk>, p: nat, t: nat, last: nat, target: Origin, parent: Origin, lo: nat, hi: nat)
    requires Tiles(es, lo, hi)
    ensures Tiles(PassHunks(es, hs, p, t, last, target, parent), lo, hi)
    ensures Solid(es) ==> Solid(PassHunks(es, hs, p, t, last, target, parent))
    decreases |hs|
  {
    hide Tiles, Solid, ApplyAll;
    var c := Chunk(t, p, if hs == [] then last else hs[0].startB, target, parent);
    ApplyAllTiles(es, c, lo, hi);
    if hs != [] {
      PassHunksTiles(ApplyAll(es, c), hs[1..], hs[0].startA + hs[0].countA, hs[0].startB + hs[0].countB, last, target, parent, lo, hi);
    }
  }

  lemma {:induction false} PassStandardTiles(es: seq<Ent>, h: History, o: Origin, ps: seq<Origin>, lo: nat, hi: nat)
    requires Tiles(es, lo, hi)
    ensures Tiles(PassStandard(es, h, o, ps), lo, hi)
    ensures Solid(es) ==> Solid(PassStandard(es, h, o, ps))
    decreases |ps|
  {
    hide Tiles, Solid, PassHunks, LastInTarget;
    if ps != [] && LastInTarget(es, o) != 0 {
      PassHunksTiles(es, h.diff(ps[0], o), 0, 0, LastInTarget(es, o), o, ps[0], lo, hi);
      PassStandardTiles(PassToParent(es, h, o, ps[0]), h, o, ps[1..], lo, hi);
    }
  }

  lemma {:induction false} PassWholeTiles(es: seq<Ent>, o: Origin, p: Origin, lo: nat, hi: nat)
    requires Tiles(es, lo, hi)
    ensures Tiles(PassWhole(es, o, p), lo, hi)
    ensures Solid(es) ==> Solid(PassWhole(es, o, p))
    decreases |es|
  {
    if es != [] {
      PassWholeTiles(es[1..], o, p, lo + es[0].numLines, hi);
      assert PassWhole(es, o, p)[1..] == PassWhole(es[1..], o, p);
      assert Solid(es) ==> Solid(es[1..]);
    }
  }

  lemma {:induction false} ConvictTiles(es: seq<Ent>, o: Origin, boundary: bool, lo: nat, hi: nat)
    requires Tiles(es, lo, hi)
    ensures Tiles(Convict(es, o, boundary), lo, hi)
    ensures Solid(es) ==> Solid(Convict(es, o, boundary))
    decreases |es|
  {
    if es != [] {
      ConvictTiles(es[1..], o, boundary, lo + es[0].numLines, hi);
      assert Convict(es, o, boundary)[1..] == Convict(es[1..], o, boundary);
      assert Solid(es) ==> Solid(es[1..]);
    }
  }

  lemma RoundTiles(es: seq<Ent>, h: History, o: Origin, how: Passing, boundary: bool, lo: nat, hi: nat)
    requires Tiles(es, lo, hi)
    ensures Tiles(Round(es, h, o, how, boundary), lo, hi)
    ensures Solid(es) ==> Solid(Round(es, h, o, how, boundary))
  {
    hide Tiles, Solid, PassWhole, PassStandard, Convict;
    match how
    case Whole(p) => PassWholeTiles(es, o, p, lo, hi); ConvictTiles(PassWhole(es, o, p), o, boundary, lo, hi);
    case Standard(ps) => PassStandardTiles(es, h, o, ps, lo, hi); ConvictTiles(PassStandard(es, h, o, ps), o, boundary, lo, hi);
  }

  // --------------------------------------------------------------- text is kept

  /** Every line's suspect has the text of that line where it is suspected to be. */
  ghost predicate TextOk(h: History, ws: seq<Who>, final: seq<string>) {
    |ws| == |final| &&
    forall i :: 0 <= i < |ws| ==> ws[i].line < |h.text(ws[i].suspect)| && h.text(ws[i].suspect)[ws[i].line] == final[i]
  }

  lemma RoundWhoText(w: Who, h: History, o: Origin, how: Passing)
    requires ValidDiffs(h) && w.line < |h.text(w.suspect)|
    requires how.Whole? ==> h.text(how.to) == h.text(o)
    ensures var w' := RoundWho(w, h, o, how);
            w'.line < |h.text(w'.suspect)| && h.text(w'.suspect)[w'.line] == h.text(w.suspect)[w.line]
  {
    if how.Standard? && w.suspect == o {
      FirstKeptText(h, o, how.candidates, w.line);
    }
  }

  lemma RoundKeepsText(h: History, ws: seq<Who>, final: seq<string>, o: Origin, how: Passing)
    requires ValidDiffs(h) && TextOk(h, ws, final)
    requires how.Whole? ==> h.text(how.to) == h.text(o)
    ensures TextOk(h, RoundWhos(ws, h, o, how), final)
  {
    hide RoundWho;
    var ws' := RoundWhos(ws, h, o, how);
    forall i | 0 <= i < |ws'|
      ensures ws'[i].line < |h.text(ws'[i].suspect)| && h.text(ws'[i].suspect)[ws'[i].line] == final[i]
    {
      RoundWhoText(ws[i], h, o, how);
    }
  }

  // ------------------------------------------------------ every line is traced

  /** Every line is suspected at a point of its own trace, and a guilty suspect is
      where the trace ends. */
  ghost predicate OnTrace(h: History, first: bool, oldest: Option<nat>, ws: seq<Who>, start: seq<Who>)
    requires Acyclic(h)
  {
    |ws| == |start| &&
    forall i :: 0 <= i < |ws| ==> OnTraceWho(h, first, oldest, ws[i], start[i])
  }

  ghost predicate OnTraceWho(h: History, first: bool, oldest: Option<nat>, w: Who, w0: Who)
    requires Acyclic(h)
  {
    && Trace(h, first, oldest, w.suspect, w.line) == Trace(h, first, oldest, w0.suspect, w0.line)
    && (w.guilty ==> NextOf(h, first, oldest, w.suspect, w.line).None?)
  }

  lemma RoundWhoOnTrace(h: History, first: bool, oldest: Option<nat>, w: Who, w0: Who, o: Origin)
    requires Acyclic(h) && OnTraceWho(h, first, oldest, w, w0)
    ensures OnTraceWho(h, first, oldest, RoundWho(w, h, o, PassingOf(h, first, oldest, o)), w0)
  {
    hide Decide, FirstKept;
    var how := PassingOf(h, first, oldest, o);
    if w.suspect == o {
      DecideFromParents(h, o, ParentCount(h, o.commit, first, oldest), 0, []);
      NextIsOlder(h, first, oldest, o, w.line);
      match how
      case Whole(p) =>
      case Standard(ps) =>
    }
  }

  lemma RoundOnTrace(h: History, first: bool, oldest: Option<nat>, ws: seq<Who>, start: seq<Who>, o: Origin)
    requires Acyclic(h) && OnTrace(h, first, oldest, ws, start)
    ensures OnTrace(h, first, oldest, RoundWhos(ws, h, o, PassingOf(h, first, oldest, o)), start)
  {
    hide OnTraceWho, RoundWho;
    forall i | 0 <= i < |ws|
      ensures OnTraceWho(h, first, oldest, RoundWho(ws[i], h, o, PassingOf(h, first, oldest, o)), start[i])
    {
      RoundWhoOnTrace(h, first, oldest, ws[i], start[i], o);
    }
  }

  // -------------------------------------------------------------------- progress

  /** An entry counts with its lines times the height its blame can still fall. */
  function Weight(h: History, e: Ent): nat {
    if e.guilty then 0 else Max(e.numLines, 1) * (h.height(e.suspect.commit) + 1)
  }

  function Measure(h: History, es: seq<Ent>): nat {
    if es == [] then 0 else Weight(h, es[0]) + Measure(h, es[1..])
  }

  /** The weight with the lines of `o` counted as if they had fallen by one. */
  function WeightBelow(h: History, o: Origin, e: Ent): nat {
    if e.guilty then 0
    else if e.suspect == o then Max(e.numLines, 1) * h.height(o.commit)
    else Max(e.numLines, 1) * (h.height(e.suspect.commit) + 1)
  }

  function MeasureBelow(h: History, o: Origin, es: seq<Ent>): nat {
    if es == [] then 0 else WeightBelow(h, o, es[0]) + MeasureBelow(h, o, es[1..])
  }

  lemma {:induction false} MeasureBelowConcat(h: History, o: Origin, a: seq<Ent>, b: seq<Ent>)
    ensures MeasureBelow(h, o, a + b) == MeasureBelow(h, o, a) + MeasureBelow(h, o, b)
  {
    if a == [] {
      assert a + b == b;
    } else {
      assert (a + b)[1..] == a[1..] + b;
      MeasureBelowConcat(h, o, a[1..], b);
    }
  }

  lemma MeasureBelowOne(h: History, o: Origin, e: Option<Ent>)
    ensures MeasureBelow(h, o, One(e)) == if e.Some? then WeightBelow(h, o, e.value) else 0
  {
  }

  lemma ThreeParts(a: nat, b: nat, c: nat, n: nat, k: nat, k': nat)
    requires a + b + c == n && k' <= k
    ensures a * k + b * k' + c * k <= n * k
  {
    assert b * k' <= b * k;
    assert a * k + b * k + c * k == (a + b + c) * k;
  }

  /** Splitting an entry of `o` gives no part more weight than it had. */
  lemma ApplyMeasure(h: History, o: Origin, e: Ent, c: Chunk)
    requires c.target == o && h.height(c.parent.commit) < h.height(o.commit) && c.parent != o
    ensures MeasureBelow(h, o, Apply(e, c)) <= WeightBelow(h, o, e)
  {
    var s := if Overlaps(e, c) && c.tlno <= c.same then SplitOverlap(e, c) else Split(None, None, None);
    if s.mid.Some? {
      MeasureBelowConcat(h, o, One(s.pre), One(s.mid));
      MeasureBelowConcat(h, o, One(s.pre) + One(s.mid), One(s.post));
      MeasureBelowOne(h, o, s.pre);
      MeasureBelowOne(h, o, s.mid);
      MeasureBelowOne(h, o, s.post);
      ThreeParts(if s.pre.Some? then s.pre.value.numLines else 0, s.mid.value.numLines,
                 if s.post.Some? then s.post.value.numLines else 0,
                 e.numLines, h.height(o.commit), h.height(c.parent.commit) + 1);
    } else {
      assert [e][1..] == [];
    }
  }

  lemma {:induction false} ApplyAllMeasure(h: History, o: Origin, es: seq<Ent>, c: Chunk)
    requires c.target == o && h.height(c.parent.commit) < h.height(o.commit) && c.parent != o
    ensures MeasureBelow(h, o, ApplyAll(es, c)) <= MeasureBelow(h, o, es)
  {
    hide Apply;
    if es != [] {
      ApplyMeasure(h, o, es[0], c);
      ApplyAllMeasure(h, o, es[1..], c);
      MeasureBelowConcat(h, o, Apply(es[0], c), ApplyAll(es[1..], c));
    }
  }

  lemma {:induction false} PassHunksMeasure(h: History, es: seq<Ent>, hs: seq<Hunk>, p: nat, t: nat, last: nat, o: Origin, parent: Origin)
    requires h.height(parent.commit) < h.height(o.commit)
    ensures MeasureBelow(h, o, PassHunks(es, hs, p, t, last, o, parent)) <= MeasureBelow(h, o, es)
    decreases |hs|
  {
    hide ApplyAll, MeasureBelow;
    var c := Chunk(t, p, if hs == [] then last else hs[0].startB, o, parent);
    ApplyAllMeasure(h, o, es, c);
    if hs != [] {
      PassHunksMeasure(h, ApplyAll(es, c), hs[1..], hs[0].startA + hs[0].countA, hs[0].startB + hs[0].countB, last, o, parent);
    }
  }

  lemma {:induction false} PassStandardMeasure(h: History, es: seq<Ent>, o: Origin, ps: seq<Origin>)
    requires forall p :: p in ps ==> h.height(p.commit) < h.height(o.commit)
    ensures MeasureBelow(h, o, PassStandard(es, h, o, ps)) <= MeasureBelow(h, o, es)
    decreases |ps|
  {
    hide PassHunks, MeasureBelow, LastInTarget;
    if ps != [] && LastInTarget(es, o) != 0 {
      PassHunksMeasure(h, es, h.diff(ps[0], o), 0, 0, LastInTarget(es, o), o, ps[0]);
      PassStandardMeasure(h, PassToParent(es, h, o, ps[0]), o, ps[1..]);
    }
  }

  lemma {:induction false} PassWholeMeasure(h: History, es: seq<Ent>, o: Origin, p: Origin)
    requires h.height(p.commit) < h.height(o.commit)
    ensures MeasureBelow(h, o, PassWhole(es, o, p)) <= MeasureBelow(h, o, es)
  {
    if es != [] {
      PassWholeMeasure(h, es[1..], o, p);
      assert PassWhole(es, o, p)[1..] == PassWhole(es[1..], o, p);
      var n := Max(es[0].numLines, 1);
      assert n * (h.height(p.commit) + 1) <= n * h.height(o.commit);
    }
  }

  lemma {:induction false} ConvictMeasure(h: History, es: seq<Ent>, o: Origin, boundary: bool)
    ensures Measure(h, Convict(es, o, boundary)) <= MeasureBelow(h, o, es)
  {
    if es != [] {
      ConvictMeasure(h, es[1..], o, boundary);
      assert Convict(es, o, boundary)[1..] == Convict(es[1..], o, boundary);
    }
  }

  /** An open entry of `o` makes the discounted measure strictly smaller. */
  lemma {:induction false} MeasureDrops(h: History, es: seq<Ent>, o: Origin)
    ensures MeasureBelow(h, o, es) <= Measure(h, es)
    ensures (exists i :: 0 <= i < |es| && !es[i].guilty && es[i].suspect == o) ==> MeasureBelow(h, o, es) < Measure(h, es)
  {
    if es != [] {
      MeasureDrops(h, es[1..], o);
      var n := Max(es[0].numLines, 1);
      assert n * (h.height(o.commit) + 1) == n * h.height(o.commit) + n;
      if i :| 0 <= i < |es| && !es[i].guilty && es[i].suspect == o {
        if i > 0 { assert es[1..][i - 1] == es[i]; }
      }
    }
  }

  /** Each round of the main loop makes the measure smaller. */
  lemma RoundProgress(h: History, es: seq<Ent>, o: Origin, how: Passing, boundary: bool, i: nat)
    requires Acyclic(h) && FromParents(h, o.commit, how)
    requires i < |es| && !es[i].guilty && es[i].suspect == o
    ensures Measure(h, Round(es, h, o, how, boundary)) < Measure(h, es)
  {
    hide Convict, PassStandard, PassWhole, Measure, MeasureBelow;
    MeasureDrops(h, es, o);
    match how
    case Whole(p) =>
      PassWholeMeasure(h, es, o, p);
      ConvictMeasure(h, PassWhole(es, o, p), o, boundary);
    case Standard(ps) =>
      PassStandardMeasure(h, es, o, ps);
      ConvictMeasure(h, PassStandard(es, h, o, ps), o, boundary);
  }

  // ------------------------------------------------------------------ coalescing

  /** Two neighbours that are one contiguous piece of the same origin. */
  predicate Mergeable(a: Ent, b: Ent) {
    a.suspect == b.suspect && a.guilty == b.guilty && a.sLno + a.numLines == b.sLno
  }

  /** coalesce. */
  function Coalesce(es: seq<Ent>): seq<Ent>
    decreases |es|
  {
    if |es| < 2 then es
    else if Mergeable(es[0], es[1]) then Coalesce([es[0].(numLines := es[0].numLines + es[1].numLines)] + es[2..])
    else [es[0]] + Coalesce(es[1..])
  }

  /** Coalescing leaves every line's commit, path and origin line alone ... */
  lemma {:induction false} CoalesceLines(es: seq<Ent>)
    ensures Lines(Coalesce(es)) == Lines(es)
    decreases |es|
  {
    if |es| >= 2 {
      if Mergeable(es[0], es[1]) {
        var m := es[0].(numLines := es[0].numLines + es[1].numLines);
        CoalesceLines([m] + es[2..]);
        assert ([m] + es[2..])[1..] == es[2..];
        assert es[1..][1..] == es[2..];
        assert LinesOf(m) == LinesOf(es[0]) + LinesOf(es[1]);
        assert Lines(es) == LinesOf(es[0]) + (LinesOf(es[1]) + Lines(es[2..]));
      } else {
        CoalesceLines(es[1..]);
        assert Coalesce(es)[1..] == Coalesce(es[1..]);
      }
    }
  }

  /** ... keeps the tiling ... */
  lemma {:induction false} CoalesceTiles(es: seq<Ent>, lo: nat, hi: nat)
    requires Tiles(es, lo, hi)
    ensures Tiles(Coalesce(es), lo, hi)
    decreases |es|
  {
    if |es| >= 2 {
      if Mergeable(es[0], es[1]) {
        var m := es[0].(numLines := es[0].numLines + es[1].numLines);
        assert ([m] + es[2..])[1..] == es[2..];
        assert es[1..][1..] == es[2..];
        CoalesceTiles([m] + es[2..], lo, hi);
      } else {
        CoalesceTiles(es[1..], lo + es[0].numLines, hi);
        assert Coalesce(es)[1..] == Coalesce(es[1..]);
      }
    }
  }

  /** ... and leaves no two neighbours that could be merged. */
  lemma {:induction false} CoalesceFinal(es: seq<Ent>)
    ensures es != [] ==> Coalesce(es) != []
    ensures es != [] ==> var f := Coalesce(es)[0];
                         f.suspect == es[0].suspect && f.guilty == es[0].guilty && f.sLno == es[0].sLno
    ensures forall i :: 0 <= i < |Coalesce(es)| - 1 ==> !Mergeable(Coalesce(es)[i], Coalesce(es)[i + 1])
    decreases |es|
  {
    if |es| >= 2 {
      if Mergeable(es[0], es[1]) {
        CoalesceFinal([es[0].(numLines := es[0].numLines + es[1].numLines)] + es[2..]);
      } else {
        CoalesceFinal(es[1..]);
        var r := Coalesce(es[1..]);
        assert Coalesce(es) == [es[0]] + r;
        forall i | 0 <= i < |r| ensures !Mergeable(([es[0]] + r)[i], r[i]) {
          if i > 0 { assert ([es[0]] + r)[i] == r[i - 1]; }
        }
      }
    }
  }
}
