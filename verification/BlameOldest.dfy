/** The oldest commit, exactly: for every commit graph, blame finds the right culprits in
    all histories over that graph if and only if the given oldest commit is respected. */
module BlameOldest {
  import opened Common
  import opened BlameLines
  import opened BlameEntries
  import opened BlameRun
  import opened BlameVerdict

  // ------------------------------------------------------------------ what is claimed

  /** The two histories have the same commits. */
  ghost predicate SameGraph(h: History, g: History) { h.parents == g.parents && h.height == g.height }

  /** The entry that blame starts with: all lines of a file. */
  ghost function Start(h: History, o: Origin): seq<Ent> { [Ent(0, |h.text(o)|, 0, o, false, false)] }

  /** In every history over the graph, each line of each file of c is blamed on the end of
      its own trace. */
  ghost predicate AlwaysRight(g: History, first: bool, oldest: Option<nat>, c: nat)
    requires Acyclic(g)
  {
    forall h: History, path: string :: SameGraph(h, g) && ValidDiffs(h) ==> RightFor(h, first, oldest, Origin(c, path))
  }

  ghost predicate RightFor(h: History, first: bool, oldest: Option<nat>, o: Origin) {
    Acyclic(h) && Verdict(h, first, oldest, Lines(Run(h, first, oldest, Start(h, o))), Lines(Start(h, o)))
  }

  // ------------------------------------------------------------ where it is respected

  lemma {:induction false} SameGraphSameEnds(h: History, g: History, first: bool, oldest: nat, c: nat)
    requires Acyclic(g) && SameGraph(h, g)
    ensures Acyclic(h) && EndsOnlyAt(h, first, oldest, c) == EndsOnlyAt(g, first, oldest, c)
    ensures Reaches(h, first, oldest, c) == Reaches(g, first, oldest, c)
    decreases g.height(c)
  {
    assert ParentCount(h, c, first, Some(oldest)) == ParentCount(g, c, first, Some(oldest));
    forall i | 0 <= i < ParentCount(g, c, first, Some(oldest))
      ensures EndsOnlyAt(h, first, oldest, h.parents(c)[i]) == EndsOnlyAt(g, first, oldest, g.parents(c)[i])
      ensures Reaches(h, first, oldest, h.parents(c)[i]) == Reaches(g, first, oldest, g.parents(c)[i])
    {
      SameGraphSameEnds(h, g, first, oldest, g.parents(c)[i]);
    }
  }

  /** Where the condition still holds, the rest of the run ends right. */
  lemma {:induction false} RunRight(h: History, first: bool, oldest0: Option<nat>, oldest: Option<nat>, es: seq<Ent>, start: seq<Who>)
    requires Acyclic(h) && StillHolds(h, first, oldest0, oldest, es) && OnTrace(h, first, oldest0, Lines(es), start)
    ensures Verdict(h, first, oldest0, Lines(Run(h, first, oldest, es)), start)
    decreases Measure(h, es)
  {
    hide Lines, Round, Measure, OnTrace, RoundWhos, Decide, StillHolds, FirstOpen, Verdict, Run;
    var k := FirstOpen(es);
    if k.None? {
      RunEnds(h, first, oldest, es);
      RunDone(h, first, oldest0, es, start);
    } else {
      var o := es[k.value].suspect;
      RunStep(h, first, oldest, es, k.value);
      RoundForProgress(h, first, oldest, es, k.value);
      DecideFromParents(h, o, ParentCount(h, o.commit, first, oldest), 0, []);
      RoundLines(es, h, o, PassingOf(h, first, oldest, o), NextOldest(h, first, oldest, o.commit) == Some(o.commit));
      HoldsAgrees(h, first, oldest0, oldest, es, k.value);
      SamePassing(h, first, oldest0, oldest, o);
      RoundOnTrace(h, first, oldest0, Lines(es), start, o);
      HoldsKept(h, first, oldest0, oldest, es, k.value);
      RunRight(h, first, oldest0, NextOldest(h, first, oldest, o.commit), RoundFor(h, first, oldest, es, o), start);
    }
  }

  lemma RunEnds(h: History, first: bool, oldest: Option<nat>, es: seq<Ent>)
    requires Acyclic(h) && FirstOpen(es) == None
    ensures Run(h, first, oldest, es) == es
  {
  }

  lemma StartOnTrace(h: History, first: bool, oldest: Option<nat>, o: Origin)
    requires Acyclic(h)
    ensures OnTrace(h, first, oldest, Lines(Start(h, o)), Lines(Start(h, o)))
  {
    hide Trace;
  }

  /** What a caller can check on the commit graph: the oldest commit is none or a root, or
      no root is met before it on the way back from c, or it is not met at all. */
  ghost predicate Respected(g: History, first: bool, oldest: Option<nat>, c: nat)
    requires Acyclic(g)
  {
    NoEnd(g, oldest) || EndsOnlyAt(g, first, oldest.value, c) || !Reaches(g, first, oldest.value, c)
  }

  /** For a run that starts with one entry it is the condition of LikeGit. */
  lemma RespectedHolds(h: History, first: bool, oldest: Option<nat>, e: Ent)
    requires Acyclic(h)
    ensures Respected(h, first, oldest, e.suspect.commit) <==> OldestHolds(h, first, oldest, [e])
  {
    hide EndsOnlyAt, Reaches;
    assert [e][0] == e;
  }

  lemma RespectedRight(g: History, first: bool, oldest: Option<nat>, c: nat)
    requires Acyclic(g) && Respected(g, first, oldest, c)
    ensures AlwaysRight(g, first, oldest, c)
  {
    forall h: History, path: string | SameGraph(h, g) && ValidDiffs(h) ensures RightFor(h, first, oldest, Origin(c, path)) {
      if oldest.Some? { SameGraphSameEnds(h, g, first, oldest.value, c); }
      hide Lines, Verdict, Run, EndsOnlyAt, Reaches;
      StartOnTrace(h, first, oldest, Origin(c, path));
      RunRight(h, first, oldest, oldest, Start(h, Origin(c, path)), Lines(Start(h, Origin(c, path))));
    }
  }

  // --------------------------------------------------------- where it is not: a history

  /** What can be met on the way back from a commit: the oldest one, another end before
      it, or both. */
  datatype Side = On | Off | Both | Neither

  ghost function SideOf(g: History, first: bool, oldest: nat, c: nat): Side {
    if !Acyclic(g) then Neither
    else
      var off, on := !EndsOnlyAt(g, first, oldest, c), Reaches(g, first, oldest, c);
      if off && on then Both else if off then Off else if on then On else Neither
  }

  /** The first parent from i on that lies on that side. */
  ghost function Way(g: History, first: bool, oldest: nat, c: nat, i: nat, side: Side): (r: Option<nat>)
    requires i <= ParentCount(g, c, first, Some(oldest))
    ensures r.Some? ==> i <= r.value < ParentCount(g, c, first, Some(oldest)) && SideOf(g, first, oldest, g.parents(c)[r.value]) == side
    ensures r.Some? ==> forall j :: i <= j < r.value ==> SideOf(g, first, oldest, g.parents(c)[j]) != side
    ensures r.None? ==> forall j :: i <= j < ParentCount(g, c, first, Some(oldest)) ==> SideOf(g, first, oldest, g.parents(c)[j]) != side
    decreases ParentCount(g, c, first, Some(oldest)) - i
  {
    if i == ParentCount(g, c, first, Some(oldest)) then None
    else if SideOf(g, first, oldest, g.parents(c)[i]) == side then Some(i)
    else Way(g, first, oldest, c, i + 1, side)
  }

  /** A file f of two lines, the first of which goes back to the other end and the second
      to the oldest commit; behind that it is called g. */
  ghost function BadText(g: History, first: bool, oldest: nat, o: Origin): seq<string> {
    if o.path == "g" then ["b"]
    else
      match SideOf(g, first, oldest, o.commit)
      case On => ["b"]
      case Off => ["a"]
      case Both => ["a", "b"]
      case Neither => []
  }

  ghost function BadFind(g: History, first: bool, oldest: nat, o: Origin, i: nat): Option<string> {
    if o.path == "g" then None
    else if o.commit == oldest then (if i == 0 then Some("g") else None)
    else if Follows(g, first, oldest, o.commit, i) then Some("f") else None
  }

  /** The way back goes over the i-th parent. */
  ghost predicate Follows(g: History, first: bool, oldest: nat, c: nat, i: nat) {
    var side := SideOf(g, first, oldest, c);
    if side == Both && Way(g, first, oldest, c, 0, Both) == None
    then Way(g, first, oldest, c, 0, Off) == Some(i) || Way(g, first, oldest, c, 0, On) == Some(i)
    else Way(g, first, oldest, c, 0, side) == Some(i)
  }

  function BadDiff(a: seq<string>, b: seq<string>): seq<Hunk> {
    if a == b then []
    else if a == ["a"] && b == ["a", "b"] then [Hunk(1, 0, 1, 1)]
    else if a == ["b"] && b == ["a", "b"] then [Hunk(0, 0, 0, 1)]
    else [Hunk(0, |a|, 0, |b|)]
  }

  ghost function Bad(g: History, first: bool, oldest: nat): History {
    History(g.parents, g.height, (o: Origin) => BadText(g, first, oldest, o),
            (o: Origin, i: nat) => BadFind(g, first, oldest, o, i),
            (a: Origin, b: Origin) => BadDiff(BadText(g, first, oldest, a), BadText(g, first, oldest, b)))
  }

  lemma BadDiffValid(a: seq<string>, b: seq<string>)
    ensures ValidHunks(a, b, BadDiff(a, b), 0, 0)
  {
    if a != b {
      var k := BadDiff(a, b)[0];
      OneHunkValid(a, b, k, if a == ["a"] && b == ["a", "b"] then 1 else 0);
    }
  }

  lemma OneHunkValid(a: seq<string>, b: seq<string>, k: Hunk, same: nat)
    requires same <= |a| && same <= |b| && a[..same] == b[..same] && k.startA == k.startB == same
    requires same + k.countA <= |a| && same + k.countB <= |b| && a[same + k.countA..] == b[same + k.countB..]
    ensures ValidHunks(a, b, [k], 0, 0)
  {
    assert a[0..same] == a[..same] && b[0..same] == b[..same];
    assert [k][1..] == [];
    assert ValidHunks(a, b, [], k.startA + k.countA, k.startB + k.countB);
  }

  lemma BadIsHistory(g: History, first: bool, oldest: nat)
    requires Acyclic(g)
    ensures var h := Bad(g, first, oldest); SameGraph(h, g) && Acyclic(h) && ValidDiffs(h)
  {
    var h := Bad(g, first, oldest);
    forall a, b ensures ValidHunks(h.text(a), h.text(b), h.diff(a, b), 0, 0) {
      BadDiffValid(h.text(a), h.text(b));
    }
  }

  // ------------------------------------------------------- how blame goes back in it

  lemma {:induction false} DecideSkips(h: History, o: Origin, n: nat, i: nat, j: nat, found: seq<Origin>)
    requires i <= j <= n <= |h.parents(o.commit)| && forall k :: i <= k < j ==> h.find(o, k) == None
    ensures Decide(h, o, n, i, found) == Decide(h, o, n, j, found)
    decreases j - i
  {
    if i < j { DecideSkips(h, o, n, i + 1, j, found); }
  }

  /** With the same text at the only parent that has the file, all is passed there. */
  lemma DecideWhole(h: History, o: Origin, n: nat, i: nat, path: string)
    requires i < n <= |h.parents(o.commit)| && h.find(o, i) == Some(path)
    requires forall k :: 0 <= k < i ==> h.find(o, k) == None
    requires h.text(Origin(h.parents(o.commit)[i], path)) == h.text(o)
    ensures Decide(h, o, n, 0, []) == Whole(Origin(h.parents(o.commit)[i], path))
  {
    DecideSkips(h, o, n, 0, i, []);
  }

  /** With two parents that have different parts of the file, they are the candidates. */
  lemma DecideTwo(h: History, o: Origin, n: nat, i: nat, j: nat, path: string)
    requires i < j < n <= |h.parents(o.commit)| && h.find(o, i) == Some(path) && h.find(o, j) == Some(path)
    requires forall k :: 0 <= k < n && k != i && k != j ==> h.find(o, k) == None
    requires var (a, b) := (h.text(Origin(h.parents(o.commit)[i], path)), h.text(Origin(h.parents(o.commit)[j], path)));
             a != h.text(o) && b != h.text(o) && a != b
    ensures Decide(h, o, n, 0, []) == Standard([Origin(h.parents(o.commit)[i], path), Origin(h.parents(o.commit)[j], path)])
  {
    var a, b := Origin(h.parents(o.commit)[i], path), Origin(h.parents(o.commit)[j], path);
    DecideSkips(h, o, n, 0, i, []);
    assert !SameBlob(h, [], a) && !SameBlob(h, [a], b) && [a] + [b] == [a, b] && [] + [a] == [a];
    assert Decide(h, o, n, i, []) == Decide(h, o, n, i + 1, [a]);
    DecideSkips(h, o, n, i + 1, j, [a]);
    assert Decide(h, o, n, j, [a]) == Decide(h, o, n, j + 1, [a, b]);
    DecideSkips(h, o, n, j + 1, n, [a, b]);
  }

  lemma {:induction false} DecideNothing(h: History, o: Origin, n: nat)
    requires n <= |h.parents(o.commit)| && forall k :: 0 <= k < n ==> h.find(o, k) == None
    ensures Decide(h, o, n, 0, []) == Standard([])
  {
    DecideSkips(h, o, n, 0, n, []);
  }

  /** From a commit on one side only, the file is passed to a parent on that side. */
  lemma OneWay(g: History, first: bool, oldest: nat, c: nat, side: Side)
    requires Acyclic(g) && c != oldest && SideOf(g, first, oldest, c) == side
    requires side == On || (side == Off && g.parents(c) != []) || (side == Both && Way(g, first, oldest, c, 0, Both).Some?)
    ensures var i := Way(g, first, oldest, c, 0, side);
            && i.Some? && i.value < |g.parents(c)| && SideOf(g, first, oldest, g.parents(c)[i.value]) == side
            && Decide(Bad(g, first, oldest), Origin(c, "f"), ParentCount(g, c, first, Some(oldest)), 0, [])
               == Whole(Origin(g.parents(c)[i.value], "f"))
  {
    var h, o, n := Bad(g, first, oldest), Origin(c, "f"), ParentCount(g, c, first, Some(oldest));
    SideHasWay(g, first, oldest, c, side);
    var i := Way(g, first, oldest, c, 0, side);
    hide SideOf, Way;
    assert forall k: nat :: h.find(o, k) == if i == Some(k) then Some("f") else None;
    DecideWhole(h, o, n, i.value, "f");
  }

  lemma SideHasWay(g: History, first: bool, oldest: nat, c: nat, side: Side)
    requires Acyclic(g) && c != oldest && SideOf(g, first, oldest, c) == side
    requires side == On || (side == Off && g.parents(c) != []) || (side == Both && Way(g, first, oldest, c, 0, Both).Some?)
    ensures Way(g, first, oldest, c, 0, side).Some?
  {
    var n := ParentCount(g, c, first, Some(oldest));
    if side == On {
      var j :| 0 <= j < n && Reaches(g, first, oldest, g.parents(c)[j]);
      assert SideOf(g, first, oldest, g.parents(c)[j]) == On;
    } else if side == Off {
      var j :| 0 <= j < n && !EndsOnlyAt(g, first, oldest, g.parents(c)[j]);
      assert SideOf(g, first, oldest, g.parents(c)[j]) == Off;
    }
  }

  /** Where the ways part, there is one parent for each line. */
  lemma TwoWays(g: History, first: bool, oldest: nat, c: nat)
    requires Acyclic(g) && c != oldest && SideOf(g, first, oldest, c) == Both && Way(g, first, oldest, c, 0, Both) == None
    ensures Way(g, first, oldest, c, 0, Off).Some? && Way(g, first, oldest, c, 0, On).Some?
    ensures var (i, j) := (Way(g, first, oldest, c, 0, Off).value, Way(g, first, oldest, c, 0, On).value);
            var (a, b) := (Origin(g.parents(c)[i], "f"), Origin(g.parents(c)[j], "f"));
            && i < |g.parents(c)| && j < |g.parents(c)| && SideOf(g, first, oldest, a.commit) == Off && SideOf(g, first, oldest, b.commit) == On
            && Decide(Bad(g, first, oldest), Origin(c, "f"), ParentCount(g, c, first, Some(oldest)), 0, [])
               == Standard(if i < j then [a, b] else [b, a])
  {
    var h, o, n := Bad(g, first, oldest), Origin(c, "f"), ParentCount(g, c, first, Some(oldest));
    BothHasWays(g, first, oldest, c);
    var i, j := Way(g, first, oldest, c, 0, Off), Way(g, first, oldest, c, 0, On);
    TwoWaysFind(g, first, oldest, c);
    hide SideOf, Way, BadFind, BadDiff, Decide;
    var a, b := Origin(g.parents(c)[i.value], "f"), Origin(g.parents(c)[j.value], "f");
    BadTexts(g, first, oldest, a.commit, b.commit, c);
    DecideEither(h, o, n, i.value, j.value, "f");
  }

  lemma BadTexts(g: History, first: bool, oldest: nat, a: nat, b: nat, c: nat)
    requires SideOf(g, first, oldest, a) == Off && SideOf(g, first, oldest, b) == On && SideOf(g, first, oldest, c) == Both
    ensures var text := Bad(g, first, oldest).text;
            a != b && text(Origin(a, "f")) == ["a"] && text(Origin(b, "f")) == ["b"] && text(Origin(c, "f")) == ["a", "b"]
  {
    hide SideOf;
  }

  lemma DecideEither(h: History, o: Origin, n: nat, i: nat, j: nat, path: string)
    requires i != j && i < n && j < n && n <= |h.parents(o.commit)|
    requires forall k: nat :: h.find(o, k) == if i == k || j == k then Some(path) else None
    requires var (a, b) := (h.text(Origin(h.parents(o.commit)[i], path)), h.text(Origin(h.parents(o.commit)[j], path)));
             a != h.text(o) && b != h.text(o) && a != b
    ensures var (a, b) := (Origin(h.parents(o.commit)[i], path), Origin(h.parents(o.commit)[j], path));
            Decide(h, o, n, 0, []) == Standard(if i < j then [a, b] else [b, a])
  {
    if i < j { DecideTwo(h, o, n, i, j, path); } else { DecideTwo(h, o, n, j, i, path); }
  }

  lemma TwoWaysFind(g: History, first: bool, oldest: nat, c: nat)
    requires c != oldest && SideOf(g, first, oldest, c) == Both && Way(g, first, oldest, c, 0, Both) == None
    ensures forall k: nat :: Bad(g, first, oldest).find(Origin(c, "f"), k) ==
              if Way(g, first, oldest, c, 0, Off) == Some(k) || Way(g, first, oldest, c, 0, On) == Some(k) then Some("f") else None
  {
    hide SideOf, Way;
  }

  lemma BothHasWays(g: History, first: bool, oldest: nat, c: nat)
    requires Acyclic(g) && c != oldest && SideOf(g, first, oldest, c) == Both && Way(g, first, oldest, c, 0, Both) == None
    ensures Way(g, first, oldest, c, 0, Off).Some? && Way(g, first, oldest, c, 0, On).Some?
  {
    var n := ParentCount(g, c, first, Some(oldest));
    var j :| 0 <= j < n && Reaches(g, first, oldest, g.parents(c)[j]);
    assert SideOf(g, first, oldest, g.parents(c)[j]) == On;
    var i :| 0 <= i < n && !EndsOnlyAt(g, first, oldest, g.parents(c)[i]);
    assert SideOf(g, first, oldest, g.parents(c)[i]) == Off;
  }

  // --------------------------------------------------------------- the run over it

  /** The entries stand for two lines. */
  ghost predicate TwoLines(es: seq<Ent>, w0: Who, w1: Who) {
    Tiles(es, 0, 2) && Solid(es) && Lines(es) == [w0, w1]
  }

  lemma NoneLeft(es: seq<Ent>, lo: nat)
    requires Tiles(es, lo, lo) && Solid(es)
    ensures es == []
  {
    if es != [] { TilesLength(es[1..], lo + es[0].numLines, lo); }
  }

  lemma TwoLinesShape(es: seq<Ent>, w0: Who, w1: Who)
    requires TwoLines(es, w0, w1)
    ensures 1 <= |es| <= 2 && es[0].suspect == w0.suspect && es[0].guilty == w0.guilty
    ensures |es| == 1 ==> w1.suspect == w0.suspect && w1.guilty == w0.guilty
    ensures |es| == 2 ==> es[1].suspect == w1.suspect && es[1].guilty == w1.guilty
  {
    var rest := es[1..];
    TilesLength(rest, es[0].numLines, 2);
    assert Lines(es) == LinesOf(es[0]) + Lines(rest);
    assert LinesOf(es[0])[0] == Lines(es)[0];
    if es[0].numLines == 2 {
      assert LinesOf(es[0])[1] == Lines(es)[1];
      NoneLeft(rest, 2);
    } else {
      assert Lines(es)[1..] == Lines(rest) == [w1];
      assert rest[0] == es[1];
      TilesLength(rest[1..], es[0].numLines + rest[0].numLines, 2);
      assert LinesOf(rest[0])[0] == Lines(rest)[0];
      NoneLeft(rest[1..], 2);
    }
  }

  /** The next suspect is that of the first open line. */
  lemma FirstOpenLine(es: seq<Ent>, w0: Who, w1: Who)
    requires TwoLines(es, w0, w1)
    ensures FirstOpen(es).None? <==> w0.guilty && w1.guilty
    ensures FirstOpen(es).Some? ==> es[FirstOpen(es).value].suspect == if w0.guilty then w1.suspect else w0.suspect
  {
    TwoLinesShape(es, w0, w1);
    hide TwoLines;
    var k := FirstOpen(es);
  }

  /** One round of the run, as both lines see it. */
  lemma RunTwoLines(h: History, first: bool, oldest: Option<nat>, es: seq<Ent>, w0: Who, w1: Who) returns (es': seq<Ent>)
    requires Acyclic(h) && TwoLines(es, w0, w1) && !(w0.guilty && w1.guilty)
    ensures var o := if w0.guilty then w1.suspect else w0.suspect;
            && TwoLines(es', RoundWho(w0, h, o, PassingOf(h, first, oldest, o)), RoundWho(w1, h, o, PassingOf(h, first, oldest, o)))
            && Run(h, first, oldest, es) == Run(h, first, NextOldest(h, first, oldest, o.commit), es')
  {
    hide Tiles, Lines, Round, Decide, FirstOpen, RoundWho, Run, Solid;
    FirstOpenLine(es, w0, w1);
    var k := FirstOpen(es).value;
    var o := es[k].suspect;
    RunStep(h, first, oldest, es, k);
    es' := RoundFor(h, first, oldest, es, o);
    DecideFromParents(h, o, ParentCount(h, o.commit, first, oldest), 0, []);
    var boundary := NextOldest(h, first, oldest, o.commit) == Some(o.commit);
    RoundLines(es, h, o, PassingOf(h, first, oldest, o), boundary);
    RoundTiles(es, h, o, PassingOf(h, first, oldest, o), boundary, 0, 2);
  }

  lemma RunTwoDone(h: History, first: bool, oldest: Option<nat>, es: seq<Ent>, w0: Who, w1: Who)
    requires Acyclic(h) && TwoLines(es, w0, w1) && w0.guilty && w1.guilty
    ensures Run(h, first, oldest, es) == es
  {
    FirstOpenLine(es, w0, w1);
    RunEnds(h, first, oldest, es);
  }

  /** The second line is blamed on something behind the oldest commit. */
  ghost predicate Behind(es: seq<Ent>) { |Lines(es)| == 2 && Lines(es)[1].suspect.path == "g" }

  /** A root that is reached first makes blame forget the oldest commit, and go on behind
      it. */
  lemma OldestForgotten(g: History, first: bool, oldest: nat, root: nat)
    requires g.parents(root) == [] && g.parents(oldest) != []
    ensures ParentCount(g, oldest, first, Some(root)) > 0
    ensures forall c: nat :: c != oldest ==> ParentCount(g, c, first, Some(root)) == ParentCount(g, c, first, Some(oldest))
  {
  }

  /** Last part: the first line is done and the root is the new oldest commit, so that the
      second line passes the given one. */
  lemma {:induction false} SecondLine(g: History, first: bool, oldest: nat, root: nat, es: seq<Ent>, w0: Who, w1: Who)
    requires Acyclic(g) && g.parents(root) == [] && g.parents(oldest) != []
    requires TwoLines(es, w0, w1) && w0.guilty && w0.suspect == Origin(root, "f")
    requires !w1.guilty && w1.suspect.path == "f" && SideOf(g, first, oldest, w1.suspect.commit) == On
    ensures Acyclic(Bad(g, first, oldest)) && Behind(Run(Bad(g, first, oldest), first, Some(root), es))
    decreases g.height(w1.suspect.commit)
  {
    var h, o := Bad(g, first, oldest), w1.suspect;
    BadIsHistory(g, first, oldest);
    OldestForgotten(g, first, oldest, root);
    var es' := RunTwoLines(h, first, Some(root), es, w0, w1);
    hide Run, Tiles, Lines, Solid;
    if o.commit == oldest {
      DecideWhole(h, o, ParentCount(h, oldest, first, Some(root)), 0, "g");
      var p := Origin(g.parents(oldest)[0], "g");
      assert TwoLines(es', w0, w1.(suspect := p));
      BehindIt(g, first, oldest, Some(root), es', w0, w1.(suspect := p));
    } else {
      OneWay(g, first, oldest, o.commit, On);
      var p := Origin(g.parents(o.commit)[Way(g, first, oldest, o.commit, 0, On).value], "f");
      assert g.height(p.commit) < g.height(o.commit);
      assert TwoLines(es', w0, w1.(suspect := p));
      SecondLine(g, first, oldest, root, es', w0, w1.(suspect := p));
    }
  }

  lemma BehindIt(g: History, first: bool, oldest: nat, now: Option<nat>, es: seq<Ent>, w0: Who, w1: Who)
    requires Acyclic(g) && TwoLines(es, w0, w1) && w0.guilty && w0.suspect.path == "f" && !w1.guilty && w1.suspect.path == "g"
    ensures Acyclic(Bad(g, first, oldest)) && Behind(Run(Bad(g, first, oldest), first, now, es))
  {
    var h, o := Bad(g, first, oldest), w1.suspect;
    BadIsHistory(g, first, oldest);
    var es' := RunTwoLines(h, first, now, es, w0, w1);
    DecideNothing(h, o, ParentCount(h, o.commit, first, now));
    hide Run, Tiles, Solid;
    RunTwoDone(h, first, NextOldest(h, first, now, o.commit), es', w0, w1.(guilty := true));
  }

  /** Middle part: the first line goes back to a root. */
  lemma {:induction false} FirstLine(g: History, first: bool, oldest: nat, es: seq<Ent>, w0: Who, w1: Who)
    requires Acyclic(g) && g.parents(oldest) != [] && TwoLines(es, w0, w1)
    requires !w0.guilty && w0.suspect.path == "f" && SideOf(g, first, oldest, w0.suspect.commit) == Off
    requires !w1.guilty && w1.suspect.path == "f" && SideOf(g, first, oldest, w1.suspect.commit) == On
    ensures Acyclic(Bad(g, first, oldest)) && Behind(Run(Bad(g, first, oldest), first, Some(oldest), es))
    decreases g.height(w0.suspect.commit)
  {
    var h, o := Bad(g, first, oldest), w0.suspect;
    BadIsHistory(g, first, oldest);
    assert o.commit != oldest;
    var es' := RunTwoLines(h, first, Some(oldest), es, w0, w1);
    hide Run, Tiles, Lines, Solid;
    if g.parents(o.commit) == [] {
      DecideNothing(h, o, 0);
      SecondLine(g, first, oldest, o.commit, es', w0.(guilty := true), w1);
    } else {
      OneWay(g, first, oldest, o.commit, Off);
      var p := Origin(g.parents(o.commit)[Way(g, first, oldest, o.commit, 0, Off).value], "f");
      assert g.height(p.commit) < g.height(o.commit);
      FirstLine(g, first, oldest, es', w0.(suspect := p), w1);
    }
  }

  /** First part: both lines go back together to where the ways part. */
  lemma {:induction false} BothLines(g: History, first: bool, oldest: nat, es: seq<Ent>, c: nat)
    requires Acyclic(g) && g.parents(oldest) != [] && SideOf(g, first, oldest, c) == Both
    requires TwoLines(es, Who(Origin(c, "f"), 0, false), Who(Origin(c, "f"), 1, false))
    ensures Acyclic(Bad(g, first, oldest)) && Behind(Run(Bad(g, first, oldest), first, Some(oldest), es))
    decreases g.height(c)
  {
    var h, o := Bad(g, first, oldest), Origin(c, "f");
    var w0, w1 := Who(o, 0, false), Who(o, 1, false);
    BadIsHistory(g, first, oldest);
    assert c != oldest;
    var es' := RunTwoLines(h, first, Some(oldest), es, w0, w1);
    hide Run, Tiles, Lines, Solid;
    if Way(g, first, oldest, c, 0, Both).Some? {
      OneWay(g, first, oldest, c, Both);
      var p := g.parents(c)[Way(g, first, oldest, c, 0, Both).value];
      assert g.height(p) < g.height(c);
      BothLines(g, first, oldest, es', p);
    } else {
      TwoWays(g, first, oldest, c);
      var i, j := Way(g, first, oldest, c, 0, Off).value, Way(g, first, oldest, c, 0, On).value;
      var a, b := Origin(g.parents(c)[i], "f"), Origin(g.parents(c)[j], "f");
      PartedLines(g, first, oldest, c, a, b, i < j);
      FirstLine(g, first, oldest, es', Who(a, 0, false), Who(b, 0, false));
    }
  }

  lemma PartedLines(g: History, first: bool, oldest: nat, c: nat, a: Origin, b: Origin, inOrder: bool)
    requires SideOf(g, first, oldest, c) == Both && SideOf(g, first, oldest, a.commit) == Off && SideOf(g, first, oldest, b.commit) == On
    requires a.path == b.path == "f"
    ensures var (h, o) := (Bad(g, first, oldest), Origin(c, "f"));
            var how := Standard(if inOrder then [a, b] else [b, a]);
            && RoundWho(Who(o, 0, false), h, o, how) == Who(a, 0, false)
            && RoundWho(Who(o, 1, false), h, o, how) == Who(b, 0, false)
  {
    var h, o := Bad(g, first, oldest), Origin(c, "f");
    assert a != o && b != o;
    assert h.diff(a, o) == [Hunk(1, 0, 1, 1)] && h.diff(b, o) == [Hunk(0, 0, 0, 1)];
    assert h.diff(a, o)[1..] == [] && h.diff(b, o)[1..] == [];
    hide SideOf, BadText, BadFind, BadDiff;
    assert MapLine(h.diff(a, o), 0, 0, 0) == Some(0) && MapLine(h.diff(a, o), 0, 0, 1) == None;
    assert MapLine(h.diff(b, o), 0, 0, 0) == None && MapLine(h.diff(b, o), 0, 0, 1) == Some(0);
    assert [a, b][1..] == [b] && [b, a][1..] == [a] && [a][1..] == [] && [b][1..] == [];
    assert FirstKept(h, o, [a], 1) == None && FirstKept(h, o, [b], 0) == None;
    assert FirstKept(h, o, [a], 0) == Some((a, 0)) && FirstKept(h, o, [b], 1) == Some((b, 0));
    assert FirstKept(h, o, [a, b], 0) == FirstKept(h, o, [b, a], 0) == Some((a, 0));
    assert FirstKept(h, o, [a, b], 1) == FirstKept(h, o, [b, a], 1) == Some((b, 0));
  }

  /** With the oldest commit as the end, a line never gets behind it. */
  lemma {:induction false} TraceInFront(g: History, first: bool, oldest: nat, o: Origin, s: nat)
    requires Acyclic(g) && o.path == "f"
    ensures Acyclic(Bad(g, first, oldest)) && Trace(Bad(g, first, oldest), first, Some(oldest), o, s).0.path == "f"
    decreases g.height(o.commit)
  {
    var h := Bad(g, first, oldest);
    BadIsHistory(g, first, oldest);
    var n := ParentCount(h, o.commit, first, Some(oldest));
    NamesStay(h, o, n, 0, []);
    var next := NextOf(h, first, Some(oldest), o, s);
    if next.Some? {
      NextIsOlder(h, first, Some(oldest), o, s);
      match PassingOf(h, first, Some(oldest), o) {
        case Whole(p) =>
        case Standard(ps) => FirstKeptFrom(h, o, ps, s);
      }
      TraceInFront(g, first, oldest, next.value.0, next.value.1);
    }
  }

  ghost predicate AllNamed(how: Passing) {
    match how
    case Whole(p) => p.path == "f"
    case Standard(ps) => forall j :: 0 <= j < |ps| ==> ps[j].path == "f"
  }

  lemma {:induction false} NamesStay(h: History, o: Origin, n: nat, i: nat, found: seq<Origin>)
    requires i <= n <= |h.parents(o.commit)| && AllNamed(Standard(found))
    requires forall k :: 0 <= k < n ==> h.find(o, k) == None || h.find(o, k) == Some("f")
    ensures AllNamed(Decide(h, o, n, i, found))
    decreases n - i
  {
    hide SameBlob;
    if i < n && h.find(o, i) == Some("f") {
      var p := Origin(h.parents(o.commit)[i], "f");
      if h.text(p) != h.text(o) {
        if SameBlob(h, found, p) { NamesStay(h, o, n, i + 1, found); } else { NamesStay(h, o, n, i + 1, found + [p]); }
      }
    } else if i < n {
      NamesStay(h, o, n, i + 1, found);
    }
  }

  /** A history over the graph, of answers that find_origin and the diffs may give, in
      which a line is blamed behind the oldest commit. */
  lemma DisrespectedWrong(g: History, first: bool, oldest: nat, c: nat)
    requires Acyclic(g) && !Respected(g, first, Some(oldest), c)
    ensures var h := Bad(g, first, oldest);
            && SameGraph(h, g) && ValidDiffs(h) && !RightFor(h, first, Some(oldest), Origin(c, "f"))
            && Acyclic(h) && Behind(Run(h, first, Some(oldest), Start(h, Origin(c, "f"))))
  {
    var h, o := Bad(g, first, oldest), Origin(c, "f");
    BadIsHistory(g, first, oldest);
    assert SideOf(g, first, oldest, c) == Both && h.text(o) == ["a", "b"];
    var es := Start(h, o);
    assert es[1..] == [] && es == [Ent(0, 2, 0, o, false, false)];
    assert Lines(es) == [Who(o, 0, false), Who(o, 1, false)];
    assert Tiles(es[1..], 2, 2) && Tiles(es, 0, 2);
    BothLines(g, first, oldest, es, c);
    TraceInFront(g, first, oldest, o, 1);
    hide Run, Lines, Trace;
  }

  /** A merge 4 of 1, a root, and 3, which goes back to 0. */
  const FORK: History := History(
    c => if c == 4 then [1, 3] else if c == 3 then [0] else [],
    c => c, _ => [], (_, _) => None, (_, _) => [])

  lemma ForkSides()
    ensures Acyclic(FORK) && SideOf(FORK, false, 3, 1) == Off && SideOf(FORK, false, 3, 3) == On
    ensures SideOf(FORK, false, 3, 4) == Both && !Respected(FORK, false, Some(3), 4)
  {
    assert FORK.parents(4)[0] == 1 && FORK.parents(4)[1] == 3 && FORK.parents(1) == [] && FORK.parents(3) == [0];
    assert ParentCount(FORK, 4, false, Some(3)) == 2 && ParentCount(FORK, 1, false, Some(3)) == 0 && ParentCount(FORK, 3, false, Some(3)) == 0;
    assert !EndsOnlyAt(FORK, false, 3, 1) && !Reaches(FORK, false, 3, 1);
    assert EndsOnlyAt(FORK, false, 3, 3) && Reaches(FORK, false, 3, 3);
    assert !EndsOnlyAt(FORK, false, 3, 4) && Reaches(FORK, false, 3, 4);
  }

  lemma ForkWays()
    ensures Way(FORK, false, 3, 4, 0, Both) == None
    ensures Way(FORK, false, 3, 4, 0, Off) == Some(0) && Way(FORK, false, 3, 4, 0, On) == Some(1)
  {
    ForkSides();
    assert FORK.parents(4) == [1, 3] && ParentCount(FORK, 4, false, Some(3)) == 2;
    hide SideOf, Acyclic, Respected;
    assert SideOf(FORK, false, 3, FORK.parents(4)[0]) == Off && SideOf(FORK, false, 3, FORK.parents(4)[1]) == On;
  }

  lemma ForkFinds()
    ensures BadFind(FORK, false, 3, Origin(4, "f"), 0) == BadFind(FORK, false, 3, Origin(4, "f"), 1) == Some("f")
    ensures BadFind(FORK, false, 3, Origin(3, "f"), 0) == Some("g")
  {
    ForkSides();
    ForkWays();
    hide SideOf, Acyclic, Respected, Way;
  }

  lemma ForkTexts()
    ensures BadText(FORK, false, 3, Origin(4, "f")) == ["a", "b"] && BadText(FORK, false, 3, Origin(1, "f")) == ["a"]
    ensures BadText(FORK, false, 3, Origin(3, "f")) == BadText(FORK, false, 3, Origin(0, "g")) == ["b"]
  {
    ForkSides();
    hide SideOf, Acyclic, Respected;
  }

  /** The condition fails on a graph of four commits, and there the history is one of
      trees: 1 and 3 hold the file f, which 4 merges, and 3 has it from the file g of 0.
      With the oldest commit 3, a line is blamed on g all the same. */
  lemma ForkWrong()
    ensures Acyclic(FORK) && !Respected(FORK, false, Some(3), 4)
    ensures var (h, four, three) := (Bad(FORK, false, 3), Origin(4, "f"), Origin(3, "f"));
            && Acyclic(h) && Behind(Run(h, false, Some(3), Start(h, four)))
            && h.text(four) == ["a", "b"] && h.text(Origin(1, "f")) == ["a"] && h.text(three) == h.text(Origin(0, "g")) == ["b"]
            && h.find(four, 0) == h.find(four, 1) == Some("f") && h.find(three, 0) == Some("g")
  {
    ForkSides();
    DisrespectedWrong(FORK, false, 3, 4);
    ForkFinds();
    ForkTexts();
    hide RightFor, SideOf, Acyclic, Respected, BadFind, BadText, Behind, Run, Start;
  }

  /** For every commit graph: blame is right in all histories over it if and only if the
      oldest commit is respected. */
  lemma OldestExact(g: History, first: bool, oldest: Option<nat>, c: nat)
    requires Acyclic(g)
    ensures AlwaysRight(g, first, oldest, c) <==> Respected(g, first, oldest, c)
  {
    if Respected(g, first, oldest, c) {
      RespectedRight(g, first, oldest, c);
    } else {
      DisrespectedWrong(g, first, oldest.value, c);
      hide RightFor, Bad, ValidDiffs;
    }
  }
}
