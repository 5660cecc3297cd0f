/** Text patches (apply.c): hunks are spliced into a vector of lines, with running
    offsets when a callback skips some of them. */
module PatchApply {
  import opened Common
  import opened Buffer
  import opened TextLines

  datatype Origin = Context | Deletion | Addition | ContextEofnl | AddEofnl | DelEofnl | OtherOrigin

  datatype DiffLine = DiffLine(origin: Origin, content: Line)

  /** git_patch_hunk: the header of the hunk and its range of lines in the patch. */
  datatype Hunk = Hunk(newStart: int, newLines: nat, oldLines: nat, lineStart: nat, lineCount: nat)

  // --------------------------------------------------------------------- the hunks

  predicate IsEofnl(o: Origin) { o == ContextEofnl || o == AddEofnl || o == DelEofnl }

  /** Line i of a hunk; a marker after it says that it has no line feed. */
  function SettledLine(ls: seq<DiffLine>, i: nat): DiffLine
    requires i < |ls|
  {
    if i + 1 < |ls| && IsEofnl(ls[i + 1].origin) then ls[i].(content := Chopped(ls[i].content)) else ls[i]
  }

  function Settled(ls: seq<DiffLine>): (r: seq<DiffLine>)
    ensures |r| == |ls|
  {
    seq(|ls|, i requires 0 <= i < |ls| => SettledLine(ls, i))
  }

  /** The lines of one side of a hunk: the context, and the deletions or the additions. */
  function Image(ls: seq<DiffLine>, side: Origin): seq<Line> {
    if ls == [] then [] else
      var d := ls[|ls| - 1];
      Image(ls[..|ls| - 1], side) + if d.origin == Context || d.origin == side then [d.content] else []
  }

  /** What a hunk does: the lines it expects, and the lines it puts there. */
  datatype Edit = Edit(pre: seq<Line>, post: seq<Line>)

  predicate InRange(lines: seq<DiffLine>, h: Hunk) { h.lineCount == 0 || h.lineStart + h.lineCount <= |lines| }

  function HunkLines(lines: seq<DiffLine>, h: Hunk): seq<DiffLine>
    requires InRange(lines, h)
  {
    if h.lineCount == 0 then [] else lines[h.lineStart..h.lineStart + h.lineCount]
  }

  function EditOf(lines: seq<DiffLine>, h: Hunk): Option<Edit> {
    if !InRange(lines, h) then None
    else
      var ls := Settled(HunkLines(lines, h));
      Some(Edit(Image(ls, Deletion), Image(ls, Addition)))
  }

  // ------------------------------------------------------------------- application

  /** A size_t that falls below zero is very large. */
  function Size(n: int): nat { if n >= 0 then n else (n % 0x1_0000_0000_0000_0000) }

  /** The line at which the hunk is looked for, before it is limited to the image. */
  function LineNumber(newStart: int, skippedNew: nat, skippedOld: nat): nat {
    if newStart != 0 then Size(newStart - skippedNew + skippedOld - 1) else 0
  }

  function MatchesAt(image: seq<Line>, pre: seq<Line>, at: nat): bool {
    |pre| + at <= |image| && image[at..at + |pre|] == pre
  }

  function Splice(image: seq<Line>, at: nat, pre: nat, post: seq<Line>): seq<Line>
    requires at + pre <= |image|
  {
    image[..at] + post + image[at + pre..]
  }

  datatype Progress = Progress(image: seq<Line>, skippedNew: nat, skippedOld: nat)

  /** One hunk; `verdict` is the answer of the callback. */
  function Step(p: Progress, e: Option<Edit>, h: Hunk, verdict: int): Option<Progress> {
    if verdict < 0 then None
    else if verdict > 0 then Some(p.(skippedNew := p.skippedNew + h.newLines, skippedOld := p.skippedOld + h.oldLines))
    else if e.None? then None
    else
      var at := Min(LineNumber(h.newStart, p.skippedNew, p.skippedOld), |p.image|);
      if MatchesAt(p.image, e.value.pre, at) then Some(p.(image := Splice(p.image, at, |e.value.pre|, e.value.post)))
      else None
  }

  /** The first n hunks. */
  function Run(p: Progress, edits: seq<Option<Edit>>, hunks: seq<Hunk>, verdicts: seq<int>, n: nat): Option<Progress>
    requires n <= |hunks| == |verdicts| == |edits|
  {
    if n == 0 then Some(p)
    else
      match Run(p, edits, hunks, verdicts, n - 1)
      case None => None
      case Some(p') => Step(p', edits[n - 1], hunks[n - 1], verdicts[n - 1])
  }

  // --------------------------------------------------------------- the edit script

  /** An edit of an original text, and where in it. */
  datatype Change = Change(at: nat, pre: seq<Line>, post: seq<Line>)

  /** How far the first n changes move what is behind them. */
  function Shift(cs: seq<Change>, n: nat): int
    requires n <= |cs|
  {
    if n == 0 then 0 else Shift(cs, n - 1) + |cs[n - 1].post| - |cs[n - 1].pre|
  }

  /** How far those that are not skipped do. */
  function Net(cs: seq<Change>, verdicts: seq<int>, n: nat): int
    requires n <= |cs| == |verdicts|
  {
    if n == 0 then 0
    else Net(cs, verdicts, n - 1) + if verdicts[n - 1] == 0 then |cs[n - 1].post| - |cs[n - 1].pre| else 0
  }

  function End(cs: seq<Change>, n: nat): nat
    requires n <= |cs|
  {
    if n == 0 then 0 else cs[n - 1].at + |cs[n - 1].pre|
  }

  /** Hunk i has the length of change i, and is looked for where change i is in the new
      text. */
  predicate Points(h: Hunk, cs: seq<Change>, i: nat)
    requires i < |cs|
  {
    && h.oldLines == |cs[i].pre| && h.newLines == |cs[i].post|
    && (h.newStart == cs[i].at + Shift(cs, i) + 1 || (h.newStart == 0 && i == 0 && cs[i].at == 0))
  }

  /** The hunks are looked for at the changes, which are in order and do not overlap. */
  ghost predicate Placed(hunks: seq<Hunk>, edits: seq<Option<Edit>>, cs: seq<Change>) {
    && |hunks| == |edits| == |cs|
    && (forall i :: 0 <= i < |cs| ==> End(cs, i) <= cs[i].at && Points(hunks[i], cs, i))
    && (forall i :: 0 <= i < |cs| ==> edits[i] == Some(Edit(cs[i].pre, cs[i].post)))
  }

  function Upto(src: seq<Line>, n: nat): (m: nat)
    ensures m <= |src|
  {
    if n <= |src| then n else |src|
  }

  /** The original up to the end of change n, with the changes made that are not skipped. */
  function Edited(src: seq<Line>, cs: seq<Change>, verdicts: seq<int>, n: nat): seq<Line>
    requires n <= |cs| == |verdicts|
  {
    if n == 0 then []
    else
      var c := cs[n - 1];
      var (from, at, end) := (Upto(src, End(cs, n - 1)), Upto(src, c.at), Upto(src, End(cs, n)));
      Edited(src, cs, verdicts, n - 1) + (if from <= at then src[from..at] else [])
      + (if verdicts[n - 1] == 0 then c.post else if at <= end then src[at..end] else [])
  }

  function Result(src: seq<Line>, cs: seq<Change>, verdicts: seq<int>, n: nat): seq<Line>
    requires n <= |cs| == |verdicts|
  {
    Edited(src, cs, verdicts, n) + src[Upto(src, End(cs, n))..]
  }

  /** The change finds the lines it expects; past the end only an insertion does. */
  predicate Finds(src: seq<Line>, c: Change) { MatchesAt(src, c.pre, Upto(src, c.at)) }

  ghost predicate AllFind(src: seq<Line>, cs: seq<Change>, verdicts: seq<int>, n: nat)
    requires n <= |cs| == |verdicts|
  {
    forall i :: 0 <= i < n && verdicts[i] == 0 ==> Finds(src, cs[i])
  }

  /** The state after n hunks. */
  ghost predicate Reached(p: Progress, src: seq<Line>, cs: seq<Change>, verdicts: seq<int>, n: nat)
    requires n <= |cs| == |verdicts|
  {
    && p.image == Result(src, cs, verdicts, n)
    && |Edited(src, cs, verdicts, n)| == Upto(src, End(cs, n)) + Net(cs, verdicts, n)
    && Shift(cs, n) - p.skippedNew + p.skippedOld == Net(cs, verdicts, n)
  }

  lemma ImageFrom(a: seq<Line>, src: seq<Line>, e: nat, at: nat, pre: seq<Line>)
    requires e <= at <= |src|
    ensures var image := a + src[e..];
            && MatchesAt(image, pre, |a| + at - e) == MatchesAt(src, pre, at)
            && image[..|a| + at - e] == a + src[e..at]
            && (at + |pre| <= |src| ==> image[|a| + at - e + |pre|..] == src[at + |pre|..])
  {
    var image := a + src[e..];
    if at + |pre| <= |src| {
      assert image[|a| + at - e..|a| + at - e + |pre|] == src[at..at + |pre|];
    }
  }

  lemma PlacedAt(hunks: seq<Hunk>, edits: seq<Option<Edit>>, cs: seq<Change>, n: nat)
    requires Placed(hunks, edits, cs) && n < |cs|
    ensures |hunks| == |edits| == |cs| && edits[n] == Some(Edit(cs[n].pre, cs[n].post))
    ensures End(cs, n) <= cs[n].at && Points(hunks[n], cs, n)
  {
    hide Points, End;
  }

  lemma {:induction false} ShiftBound(hunks: seq<Hunk>, edits: seq<Option<Edit>>, cs: seq<Change>, n: nat)
    requires Placed(hunks, edits, cs) && n <= |cs|
    ensures Shift(cs, n) + End(cs, n) >= 0
  {
    hide Placed, Points;
    if n > 0 {
      PlacedAt(hunks, edits, cs, n - 1);
      ShiftBound(hunks, edits, cs, n - 1);
    }
  }

  /** The next hunk is looked for where the changes made so far have moved it. */
  lemma StepLine(p: Progress, src: seq<Line>, hunks: seq<Hunk>, edits: seq<Option<Edit>>, cs: seq<Change>, verdicts: seq<int>, n: nat)
    requires Placed(hunks, edits, cs) && |cs| == |verdicts| && n < |cs| && Reached(p, src, cs, verdicts, n)
    ensures var (e, at, a) := (Upto(src, End(cs, n)), Upto(src, cs[n].at), |Edited(src, cs, verdicts, n)|);
            e <= at && Min(LineNumber(hunks[n].newStart, p.skippedNew, p.skippedOld), |p.image|) == a + at - e
  {
    hide Placed;
    var c := cs[n];
    PlacedAt(hunks, edits, cs, n);
    ShiftBound(hunks, edits, cs, n);
    hide Edited;
    assert LineNumber(hunks[n].newStart, p.skippedNew, p.skippedOld) == c.at + Net(cs, verdicts, n);
  }

  lemma StepSkipped(p: Progress, src: seq<Line>, hunks: seq<Hunk>, edits: seq<Option<Edit>>, cs: seq<Change>, verdicts: seq<int>, n: nat)
    requires Placed(hunks, edits, cs) && |cs| == |verdicts| && n < |cs| && verdicts[n] > 0 && Reached(p, src, cs, verdicts, n)
    ensures Reached(p.(skippedNew := p.skippedNew + hunks[n].newLines, skippedOld := p.skippedOld + hunks[n].oldLines), src, cs, verdicts, n + 1)
  {
    hide Placed, Shift, Net;
    PlacedAt(hunks, edits, cs, n);
    var e, at, end := Upto(src, End(cs, n)), Upto(src, cs[n].at), Upto(src, End(cs, n + 1));
    var a := Edited(src, cs, verdicts, n);
    assert Edited(src, cs, verdicts, n + 1) == a + src[e..at] + src[at..end];
    hide Edited, Points, Upto;
    Unchanged(a, src, e, at, end);
    NetStep(cs, verdicts, n);
  }

  lemma Unchanged(a: seq<Line>, src: seq<Line>, e: nat, at: nat, end: nat)
    requires e <= at <= end <= |src|
    ensures a + src[e..] == a + src[e..at] + src[at..end] + src[end..]
    ensures |a + src[e..at] + src[at..end]| == |a| + end - e
  {
  }

  lemma StepApplied(p: Progress, src: seq<Line>, hunks: seq<Hunk>, edits: seq<Option<Edit>>, cs: seq<Change>, verdicts: seq<int>, n: nat)
    requires Placed(hunks, edits, cs) && |cs| == |verdicts| && n < |cs| && verdicts[n] == 0 && Reached(p, src, cs, verdicts, n)
    requires Finds(src, cs[n])
    ensures var (e, at, a) := (Upto(src, End(cs, n)), Upto(src, cs[n].at), |Edited(src, cs, verdicts, n)|);
            && e <= at && a + at - e + |cs[n].pre| <= |p.image|
            && Reached(p.(image := Splice(p.image, a + at - e, |cs[n].pre|, cs[n].post)), src, cs, verdicts, n + 1)
  {
    hide Placed, Points, Shift, Net;
    PlacedAt(hunks, edits, cs, n);
    var c, e, at := cs[n], Upto(src, End(cs, n)), Upto(src, cs[n].at);
    var a := Edited(src, cs, verdicts, n);
    assert Edited(src, cs, verdicts, n + 1) == a + src[e..at] + c.post;
    assert Upto(src, End(cs, n + 1)) == at + |c.pre|;
    hide Edited, Points;
    ImageFrom(a, src, e, at, c.pre);
    var p' := p.(image := Splice(p.image, |a| + at - e, |c.pre|, c.post));
    assert p'.image == a + src[e..at] + c.post + src[at + |c.pre|..] == Result(src, cs, verdicts, n + 1);
    NetStep(cs, verdicts, n);
    hide Splice, MatchesAt, Result;
  }

  lemma NetStep(cs: seq<Change>, verdicts: seq<int>, n: nat)
    requires n < |cs| == |verdicts|
    ensures Shift(cs, n + 1) == Shift(cs, n) + |cs[n].post| - |cs[n].pre|
    ensures Net(cs, verdicts, n + 1) == Net(cs, verdicts, n) + if verdicts[n] == 0 then |cs[n].post| - |cs[n].pre| else 0
  {
  }

  lemma StepReached(p: Progress, src: seq<Line>, hunks: seq<Hunk>, edits: seq<Option<Edit>>, cs: seq<Change>, verdicts: seq<int>, n: nat)
    requires Placed(hunks, edits, cs) && |cs| == |verdicts| && n < |cs| && verdicts[n] >= 0
    requires Reached(p, src, cs, verdicts, n)
    ensures |edits| == |hunks| == |cs|
    ensures var r := Step(p, edits[n], hunks[n], verdicts[n]);
            if verdicts[n] > 0 || Finds(src, cs[n]) then r.Some? && Reached(r.value, src, cs, verdicts, n + 1) else r == None
  {
    hide Reached, Placed, Points, LineNumber, MatchesAt, Splice, Edited, Upto, End, Finds;
    PlacedAt(hunks, edits, cs, n);
    if verdicts[n] > 0 {
      StepSkipped(p, src, hunks, edits, cs, verdicts, n);
    } else {
      StepLine(p, src, hunks, edits, cs, verdicts, n);
      StepFinds(p, src, cs, verdicts, n);
      if Finds(src, cs[n]) { StepApplied(p, src, hunks, edits, cs, verdicts, n); }
    }
  }

  lemma StepFinds(p: Progress, src: seq<Line>, cs: seq<Change>, verdicts: seq<int>, n: nat)
    requires |cs| == |verdicts| && n < |cs| && Reached(p, src, cs, verdicts, n)
    requires Upto(src, End(cs, n)) <= Upto(src, cs[n].at)
    ensures var (e, at, a) := (Upto(src, End(cs, n)), Upto(src, cs[n].at), |Edited(src, cs, verdicts, n)|);
            MatchesAt(p.image, cs[n].pre, a + at - e) == Finds(src, cs[n])
  {
    hide Edited, MatchesAt;
    ImageFrom(Edited(src, cs, verdicts, n), src, Upto(src, End(cs, n)), Upto(src, cs[n].at), cs[n].pre);
  }

  /** No callback wants to stop. */
  predicate NoneStops(verdicts: seq<int>, n: nat)
    requires n <= |verdicts|
  {
    forall i :: 0 <= i < n ==> verdicts[i] >= 0
  }

  /** Applying follows the places: it succeeds exactly if no callback stops it and every
      hunk that is not skipped finds there the lines it expects, and then the outcome is
      the original with exactly those changes made. */
  lemma {:induction false} RunFollowsPlaces(src: seq<Line>, hunks: seq<Hunk>, edits: seq<Option<Edit>>, cs: seq<Change>, verdicts: seq<int>, n: nat)
    requires Placed(hunks, edits, cs) && |cs| == |verdicts| && n <= |cs|
    ensures var r := Run(Progress(src, 0, 0), edits, hunks, verdicts, n);
            if NoneStops(verdicts, n) && AllFind(src, cs, verdicts, n) then r.Some? && Reached(r.value, src, cs, verdicts, n) else r == None
  {
    hide Reached, Placed, Finds;
    if n == 0 {
      StartReached(src, cs, verdicts);
    } else {
      PlacedSize(hunks, edits, cs);
      RunFollowsPlaces(src, hunks, edits, cs, verdicts, n - 1);
      var r := Run(Progress(src, 0, 0), edits, hunks, verdicts, n - 1);
      if r.Some? && verdicts[n - 1] >= 0 {
        StepReached(r.value, src, hunks, edits, cs, verdicts, n - 1);
        hide Step;
      }
    }
  }

  lemma PlacedSize(hunks: seq<Hunk>, edits: seq<Option<Edit>>, cs: seq<Change>)
    requires Placed(hunks, edits, cs)
    ensures |hunks| == |edits| == |cs|
  {
  }

  lemma StartReached(src: seq<Line>, cs: seq<Change>, verdicts: seq<int>)
    requires |cs| == |verdicts|
    ensures Reached(Progress(src, 0, 0), src, cs, verdicts, 0)
  {
    assert [] + src[0..] == src;
  }

  // --------------------------------------------------------------- the edit script

  /** The header of hunk i says where change i is in the new text and how long it is; for
      a hunk that leaves no line it names the line before. */
  predicate Describes(h: Hunk, cs: seq<Change>, i: nat)
    requires i < |cs|
  {
    && h.oldLines == |cs[i].pre| && h.newLines == |cs[i].post|
    && h.newStart == cs[i].at + Shift(cs, i) + if cs[i].post == [] then 0 else 1
  }

  /** A hunk that leaves no line is at the top of the text or has an unchanged line before
      it. */
  predicate Separate(cs: seq<Change>, i: nat)
    requires i < |cs|
  {
    cs[i].post == [] ==> (i == 0 && cs[i].at == 0) || End(cs, i) < cs[i].at
  }

  /** The hunks are the changes, in order and without overlap. */
  ghost predicate Script(hunks: seq<Hunk>, edits: seq<Option<Edit>>, cs: seq<Change>) {
    && |hunks| == |edits| == |cs|
    && (forall i :: 0 <= i < |cs| ==> End(cs, i) <= cs[i].at && Describes(hunks[i], cs, i) && Separate(cs, i))
    && (forall i :: 0 <= i < |cs| ==> edits[i] == Some(Edit(cs[i].pre, cs[i].post)))
  }

  /** Where a change is looked for: one that leaves no line a line too high. */
  function Looked(cs: seq<Change>): (r: seq<Change>)
    ensures |r| == |cs|
  {
    seq(|cs|, i requires 0 <= i < |cs| =>
      if cs[i].post == [] && cs[i].at > 0 then cs[i].(at := cs[i].at - 1) else cs[i])
  }

  lemma {:induction false} LookedShift(cs: seq<Change>, n: nat)
    requires n <= |cs|
    ensures Shift(Looked(cs), n) == Shift(cs, n)
  {
    if n > 0 { LookedShift(cs, n - 1); }
  }

  lemma LookedEnd(cs: seq<Change>, i: nat)
    requires i <= |cs|
    ensures End(Looked(cs), i) <= End(cs, i)
  {
  }

  lemma ScriptIs(hunks: seq<Hunk>, edits: seq<Option<Edit>>, cs: seq<Change>, i: nat)
    requires Script(hunks, edits, cs) && i < |cs|
    ensures |hunks| == |edits| == |cs| && edits[i] == Some(Edit(cs[i].pre, cs[i].post))
    ensures End(cs, i) <= cs[i].at && Describes(hunks[i], cs, i) && Separate(cs, i)
  {
    hide End, Describes, Separate;
  }

  lemma LookedPoints(hunks: seq<Hunk>, cs: seq<Change>, i: nat)
    requires i < |cs| == |hunks| && End(cs, i) <= cs[i].at && Describes(hunks[i], cs, i) && Separate(cs, i)
    ensures End(Looked(cs), i) <= Looked(cs)[i].at && Points(hunks[i], Looked(cs), i)
  {
    LookedShift(cs, i);
    LookedEnd(cs, i);
    hide End;
  }

  /** A script says where its hunks are looked for. */
  lemma ScriptPlaced(hunks: seq<Hunk>, edits: seq<Option<Edit>>, cs: seq<Change>)
    requires Script(hunks, edits, cs)
    ensures Placed(hunks, edits, Looked(cs))
  {
    hide Script, End, Points, Describes, Separate;
    var ls := Looked(cs);
    ScriptLengths(hunks, edits, cs);
    forall i | 0 <= i < |cs|
      ensures End(ls, i) <= ls[i].at && Points(hunks[i], ls, i) && edits[i] == Some(Edit(ls[i].pre, ls[i].post))
    {
      ScriptIs(hunks, edits, cs, i);
      LookedPoints(hunks, cs, i);
    }
  }

  lemma ScriptLengths(hunks: seq<Hunk>, edits: seq<Option<Edit>>, cs: seq<Change>)
    requires Script(hunks, edits, cs)
    ensures |hunks| == |edits| == |cs|
  {
  }

  lemma {:induction false} SameLines(src: seq<Line>, p: nat, pre: seq<Line>, j: nat)
    requires p >= 1 && j <= |pre| && MatchesAt(src, pre, p) && MatchesAt(src, pre, p - 1)
    ensures src[p - 1] == src[p - 1 + j]
    requires pre != []
  {
    if j > 0 {
      SameLines(src, p, pre, j - 1);
      assert src[p..p + |pre|][j - 1] == src[p - 1..p - 1 + |pre|][j - 1];
    }
  }

  /** A hunk without context that only deletes says, in its header, the line before its
      place.  It is looked for one line too high, and so it applies only where the line
      before repeats what is deleted.  Then the outcome is as intended. */
  lemma DeletionOnly(src: seq<Line>, p: nat, pre: seq<Line>, h: Hunk)
    requires p >= 1 && pre != [] && MatchesAt(src, pre, p) && h.newStart == p
    ensures var r := Step(Progress(src, 0, 0), Some(Edit(pre, [])), h, 0);
            if MatchesAt(src, pre, p - 1) then r == Some(Progress(Splice(src, p, |pre|, []), 0, 0)) else r == None
  {
    if MatchesAt(src, pre, p - 1) {
      SameLines(src, p, pre, |pre|);
      var n := |pre|;
      assert src[p - 1..] == [src[p - 1]] + src[p..] && src[p - 1 + n..] == [src[p - 1 + n]] + src[p + n..];
      assert src[..p] == src[..p - 1] + [src[p - 1]];
      assert Splice(src, p - 1, n, []) == src[..p - 1] + src[p - 1 + n..] == Splice(src, p, n, []);
    }
  }

  /** What was made so far, with the changes looked for and with the changes meant: the
      latter may be one line behind. */
  ghost predicate InStep(src: seq<Line>, cs: seq<Change>, verdicts: seq<int>, n: nat)
    requires n <= |cs| == |verdicts|
  {
    && Upto(src, End(Looked(cs), n)) <= Upto(src, End(cs, n))
    && Edited(src, cs, verdicts, n) == Edited(src, Looked(cs), verdicts, n) + src[Upto(src, End(Looked(cs), n))..Upto(src, End(cs, n))]
  }

  lemma {:induction false} LookedAsMeant(src: seq<Line>, hunks: seq<Hunk>, edits: seq<Option<Edit>>, cs: seq<Change>, verdicts: seq<int>, n: nat)
    requires Script(hunks, edits, cs) && n <= |cs| == |verdicts|
    requires AllFind(src, cs, verdicts, n) && AllFind(src, Looked(cs), verdicts, n)
    ensures InStep(src, cs, verdicts, n)
  {
    hide Script, Describes, AllFind, Finds, InStep, Separate, End, Looked;
    if n == 0 {
      InStepNone(src, cs, verdicts);
    } else {
      AllFindLast(src, cs, verdicts, n);
      AllFindLast(src, Looked(cs), verdicts, n);
      LookedAsMeant(src, hunks, edits, cs, verdicts, n - 1);
      ScriptIs(hunks, edits, cs, n - 1);
      MeantNext(src, cs, verdicts, n - 1);
    }
  }

  lemma InStepNone(src: seq<Line>, cs: seq<Change>, verdicts: seq<int>)
    requires |cs| == |verdicts|
    ensures InStep(src, cs, verdicts, 0)
  {
  }

  lemma AllFindLast(src: seq<Line>, cs: seq<Change>, verdicts: seq<int>, n: nat)
    requires 0 < n <= |cs| == |verdicts| && AllFind(src, cs, verdicts, n)
    ensures AllFind(src, cs, verdicts, n - 1) && (verdicts[n - 1] == 0 ==> Finds(src, cs[n - 1]))
  {
    hide Finds;
  }

  /** The places of a change, as it is meant and as it is looked for. */
  lemma PlacesMeant(src: seq<Line>, cs: seq<Change>, n: nat)
    requires n < |cs| && End(cs, n) <= cs[n].at && Separate(cs, n)
    ensures var (c, l) := (cs[n], Looked(cs)[n]);
            && Upto(src, End(Looked(cs), n)) <= Upto(src, l.at) <= Upto(src, c.at) && Upto(src, End(cs, n)) <= Upto(src, c.at)
            && Upto(src, l.at) <= Upto(src, End(Looked(cs), n + 1)) <= Upto(src, End(cs, n + 1))
            && Upto(src, c.at) <= Upto(src, End(cs, n + 1))
  {
    LookedEnd(cs, n);
  }

  lemma EditedNext(src: seq<Line>, cs: seq<Change>, verdicts: seq<int>, n: nat)
    requires n < |cs| == |verdicts|
    requires Upto(src, End(cs, n)) <= Upto(src, cs[n].at) <= Upto(src, End(cs, n + 1))
    ensures Edited(src, cs, verdicts, n + 1)
            == Edited(src, cs, verdicts, n) + src[Upto(src, End(cs, n))..Upto(src, cs[n].at)]
               + if verdicts[n] == 0 then cs[n].post else src[Upto(src, cs[n].at)..Upto(src, End(cs, n + 1))]
  {
    hide Upto, End;
  }

  /** A change that is made is found where it is meant, or it deletes the same lines one
      line higher. */
  lemma MadeAsMeant(src: seq<Line>, cs: seq<Change>, n: nat)
    requires n < |cs| && Finds(src, cs[n]) && Finds(src, Looked(cs)[n])
    ensures var (at', at, end', end) := (Upto(src, Looked(cs)[n].at), Upto(src, cs[n].at), Upto(src, End(Looked(cs), n + 1)), Upto(src, End(cs, n + 1)));
            (at' == at && end' == end)
            || (cs[n].post == [] && at' + 1 == at && end' + 1 == end && at' < |src| && end' < |src| && src[at'] == src[end'])
  {
    var c, l := cs[n], Looked(cs)[n];
    if Upto(src, l.at) < Upto(src, c.at) { ShiftedDeletion(src, c, Upto(src, c.at)); }
  }

  lemma MeantNext(src: seq<Line>, cs: seq<Change>, verdicts: seq<int>, n: nat)
    requires n < |cs| == |verdicts| && InStep(src, cs, verdicts, n) && End(cs, n) <= cs[n].at && Separate(cs, n)
    requires verdicts[n] == 0 ==> Finds(src, cs[n]) && Finds(src, Looked(cs)[n])
    ensures InStep(src, cs, verdicts, n + 1)
  {
    var ls := Looked(cs);
    PlacesMeant(src, cs, n);
    EditedNext(src, cs, verdicts, n);
    EditedNext(src, ls, verdicts, n);
    if verdicts[n] == 0 { MadeAsMeant(src, cs, n); }
    assert ls[n].post == cs[n].post;
    hide Edited, Finds, Separate, MatchesAt, Upto, Looked, End;
    MeantParts(src, Edited(src, ls, verdicts, n), Upto(src, End(ls, n)), Upto(src, End(cs, n)), Upto(src, ls[n].at), Upto(src, cs[n].at),
               Upto(src, End(ls, n + 1)), Upto(src, End(cs, n + 1)), if verdicts[n] == 0 then Some(cs[n].post) else None);
  }

  lemma MeantParts(src: seq<Line>, a: seq<Line>, e': nat, e: nat, at': nat, at: nat, end': nat, end: nat, post: Option<seq<Line>>)
    requires e' <= e <= at <= end <= |src| && e' <= at' <= at && at' <= end' <= end
    requires (at' == at && end' == end) || post == None || (post == Some([]) && at' + 1 == at && end' + 1 == end && src[at'] == src[end'])
    ensures a + src[e'..e] + src[e..at] + (if post.Some? then post.value else src[at..end])
            == a + src[e'..at'] + (if post.Some? then post.value else src[at'..end']) + src[end'..end]
  {
    assert src[e'..e] + src[e..at] == src[e'..at];
    if post == None {
      assert src[e'..at] + src[at..end] == src[e'..end] == src[e'..at'] + src[at'..end'] + src[end'..end];
      assert a + src[e'..e] + src[e..at] + src[at..end] == a + (src[e'..e] + src[e..at]) + src[at..end] == a + (src[e'..at] + src[at..end]);
      assert a + src[e'..at'] + src[at'..end'] + src[end'..end] == a + (src[e'..at'] + src[at'..end'] + src[end'..end]);
    } else if at' != at {
      assert src[e'..at] == src[e'..at'] + [src[at']] && src[end'..end] == [src[end']];
      assert a + src[e'..e] + src[e..at] + [] == a + src[e'..at];
      assert a + src[e'..at'] + [] + src[end'..end] == a + src[e'..at];
    } else {
      assert src[end'..end] == [];
      assert a + src[e'..e] + src[e..at] == a + src[e'..at];
    }
  }

  /** A deletion that is found a line too high as well takes the same lines. */
  lemma ShiftedDeletion(src: seq<Line>, c: Change, at: nat)
    requires c.post == [] && c.at > 0 && at == Upto(src, c.at) && Upto(src, c.at - 1) < at
    requires Finds(src, c) && Finds(src, c.(at := c.at - 1))
    ensures at == c.at && at + |c.pre| <= |src| && src[at - 1] == src[at - 1 + |c.pre|]
  {
    if c.pre != [] { SameLines(src, at, c.pre, |c.pre|); }
  }

  /** Where the lines are also found at the places that were meant, the outcome is the one
      that was meant. */
  lemma ResultAsMeant(src: seq<Line>, hunks: seq<Hunk>, edits: seq<Option<Edit>>, cs: seq<Change>, verdicts: seq<int>)
    requires Script(hunks, edits, cs) && |cs| == |verdicts|
    requires AllFind(src, cs, verdicts, |cs|) && AllFind(src, Looked(cs), verdicts, |cs|)
    ensures Result(src, Looked(cs), verdicts, |cs|) == Result(src, cs, verdicts, |cs|)
  {
    LookedAsMeant(src, hunks, edits, cs, verdicts, |cs|);
    hide Script, AllFind, Edited, Looked, End, Upto;
    RestJoined(src, Edited(src, Looked(cs), verdicts, |cs|), Upto(src, End(Looked(cs), |cs|)), Upto(src, End(cs, |cs|)));
  }

  lemma RestJoined(src: seq<Line>, a: seq<Line>, l: nat, e: nat)
    requires l <= e <= |src|
    ensures a + src[l..e] + src[e..] == a + src[l..]
  {
    assert src[l..] == src[l..e] + src[e..];
  }

  // ------------------------------------------------------------------------ the code

  lemma LinesOfNothing()
    ensures Lines([]) == []
  {
  }

  /** patch_image: a vector of lines that hunks are spliced into. */
  class PatchImage {
    var lines: seq<Line>

    constructor ()
      ensures lines == []
    {
      lines := [];
    }

    /** patch_image_init_fromstr */
    method InitFromStr(s: seq<byte>)
      modifies this
      ensures lines == Lines(s)
    {
      hide Lines;
      lines := [];
      var start: nat := 0;
      assert s[0..] == s;
      while start < |s|
        invariant start <= |s| && lines + Lines(s[start..]) == Lines(s)
        decreases |s| - start
      {
        var next := FindByte(s, start, LF);
        var end := if next.Some? then next.value + 1 else |s|;
        LineEnds(s, start, end);
        assert lines + ([s[start..end]] + Lines(s[end..])) == lines + [s[start..end]] + Lines(s[end..]);
        lines := lines + [s[start..end]];
        start := end;
      }
      assert s[start..] == [];
      LinesOfNothing();
    }

    /** match_hunk */
    method MatchHunk(preimage: seq<Line>, linenum: nat) returns (match_: bool)
      ensures match_ == MatchesAt(lines, preimage, linenum)
    {
      if |preimage| + linenum > |lines| { return false; }
      for i := 0 to |preimage|
        invariant lines[linenum..linenum + i] == preimage[..i]
      {
        if preimage[i] != lines[linenum + i] {
          assert lines[linenum..linenum + |preimage|][i] == lines[linenum + i];
          return false;
        }
        assert lines[linenum..linenum + i + 1] == lines[linenum..linenum + i] + [lines[linenum + i]];
      }
      assert preimage[..|preimage|] == preimage;
      return true;
    }

    /** find_hunk_linenum: a line number past the end is taken for the end. */
    method FindHunkLinenum(preimage: seq<Line>, linenum0: nat) returns (found: bool, linenum: nat)
      ensures linenum == Min(linenum0, |lines|) && found == MatchesAt(lines, preimage, linenum)
    {
      var max := |lines|;
      linenum := linenum0;
      if linenum > max { linenum := max; }
      found := MatchHunk(preimage, linenum);
    }

    /** git_vector_insert_null */
    method InsertNull(idx: nat, n: nat)
      requires idx <= |lines|
      modifies this
      ensures lines == old(lines[..idx]) + seq(n, _ => []) + old(lines[idx..])
    {
      lines := lines[..idx] + seq(n, _ => []) + lines[idx..];
    }

    /** git_vector_remove_range */
    method RemoveRange(idx: nat, n: nat)
      requires idx + n <= |lines|
      modifies this
      ensures lines == old(lines[..idx]) + old(lines[idx + n..])
    {
      lines := lines[..idx] + lines[idx + n..];
    }

    /** update_hunk: makes room or takes it away, then overwrites. */
    method UpdateHunk(linenum: nat, preLength: nat, postimage: seq<Line>)
      requires linenum + preLength <= |lines|
      modifies this
      ensures lines == Splice(old(lines), linenum, preLength, postimage)
    {
      ghost var before := lines;
      if |postimage| > preLength {
        InsertNull(linenum, |postimage| - preLength);
      } else if preLength > |postimage| {
        RemoveRange(linenum, preLength - |postimage|);
      }
      assert linenum + |postimage| <= |lines|;
      assert lines[..linenum] == before[..linenum];
      assert lines[linenum + |postimage|..] == before[linenum + preLength..];
      Overwrite(linenum, postimage);
      assert lines == before[..linenum] + postimage + before[linenum + preLength..];
    }

    /** The loop that writes the postimage over the lines from linenum on. */
    method Overwrite(linenum: nat, postimage: seq<Line>)
      requires linenum + |postimage| <= |lines|
      modifies this
      ensures lines == old(lines[..linenum]) + postimage + old(lines[linenum + |postimage|..])
    {
      ghost var before := lines;
      for i := 0 to |postimage|
        invariant linenum + |postimage| <= |before| == |lines|
        invariant lines == before[..linenum] + postimage[..i] + before[linenum + i..]
      {
        lines := lines[linenum + i := postimage[i]];
      }
      assert postimage[..|postimage|] == postimage;
    }
  }

  /** apply_hunks_ctx */
  class ApplyHunksCtx {
    var skippedNewLines: nat
    var skippedOldLines: nat

    constructor ()
      ensures skippedNewLines == 0 && skippedOldLines == 0
    {
      skippedNewLines, skippedOldLines := 0, 0;
    }
  }

  /** Where the lines of the preimage, or of the postimage, of a hunk are in the patch. */
  function Indices(ls: seq<DiffLine>, start: nat, side: Origin): (at: seq<nat>)
    ensures forall k :: 0 <= k < |at| ==> start <= at[k] < start + |ls|
  {
    if ls == [] then [] else
      var n := |ls| - 1;
      Indices(ls[..n], start, side) + if ls[n].origin == Context || ls[n].origin == side then [start + n] else []
  }

  function Contents(lines: seq<DiffLine>, at: seq<nat>): seq<Line>
    requires forall k :: 0 <= k < |at| ==> at[k] < |lines|
  {
    seq(|at|, k requires 0 <= k < |at| => lines[at[k]].content)
  }

  lemma ContentsConcat(lines: seq<DiffLine>, a: seq<nat>, b: seq<nat>)
    requires (forall k :: 0 <= k < |a| ==> a[k] < |lines|) && forall k :: 0 <= k < |b| ==> b[k] < |lines|
    ensures Contents(lines, a + b) == Contents(lines, a) + Contents(lines, b)
  {
  }

  lemma ContentsOne(lines: seq<DiffLine>, k: nat)
    requires k < |lines|
    ensures Contents(lines, [k]) == [lines[k].content] && Contents(lines, []) == []
  {
  }

  lemma {:induction false} ContentsOfIndices(lines: seq<DiffLine>, start: nat, n: nat, side: Origin)
    requires start + n <= |lines|
    ensures Contents(lines, Indices(lines[start..start + n], start, side)) == Image(lines[start..start + n], side)
  {
    hide Contents;
    if n > 0 {
      var ls, k := lines[start..start + n], start + n - 1;
      ContentsOfIndices(lines, start, n - 1, side);
      SliceLast(lines, start, n);
      ContentsOne(lines, k);
      if ls[n - 1].origin == Context || ls[n - 1].origin == side {
        ContentsConcat(lines, Indices(ls[..n - 1], start, side), [k]);
      } else {
        ContentsConcat(lines, Indices(ls[..n - 1], start, side), []);
      }
    } else {
      ContentsNone(lines);
    }
  }

  lemma SliceLast(lines: seq<DiffLine>, start: nat, n: nat)
    requires 0 < n && start + n <= |lines|
    ensures var ls := lines[start..start + n]; ls[..n - 1] == lines[start..start + n - 1] && ls[n - 1] == lines[start + n - 1]
  {
  }

  lemma ContentsNone(lines: seq<DiffLine>)
    ensures Contents(lines, []) == []
  {
  }

  lemma {:induction false} IndicesSettled(ls: seq<DiffLine>, r: seq<DiffLine>, start: nat, side: Origin)
    requires |r| == |ls| && forall k :: 0 <= k < |ls| ==> r[k].origin == ls[k].origin
    ensures Indices(r, start, side) == Indices(ls, start, side)
  {
    if ls != [] { IndicesSettled(ls[..|ls| - 1], r[..|r| - 1], start, side); }
  }

  lemma SettledNext(ls: seq<DiffLine>, i: nat)
    requires i < |ls|
    ensures var (a, b) := (Settled(ls[..i]), Settled(ls[..i + 1]));
            && b[i] == ls[i] && (forall k :: 0 <= k < i - 1 ==> b[k] == a[k])
            && (i > 0 ==> a[i - 1] == ls[i - 1]
                          && b[i - 1] == if IsEofnl(ls[i].origin) then ls[i - 1].(content := Chopped(ls[i - 1].content)) else ls[i - 1])
  {
  }

  function Chop(lines: seq<DiffLine>, k: nat): seq<DiffLine>
    requires k < |lines|
  {
    lines[k := lines[k].(content := Chopped(lines[k].content))]
  }

  /** The switch over the origin of a line. */
  method CollectLine(lines: array<DiffLine>, linenum: nat, hasPrev: bool, pre0: seq<nat>, post0: seq<nat>)
    returns (pre: seq<nat>, post: seq<nat>)
    requires linenum < lines.Length && (hasPrev ==> linenum > 0)
    modifies lines
    ensures var origin := old(lines[linenum].origin);
            && pre == pre0 + (if origin == Context || origin == Deletion then [linenum] else [])
            && post == post0 + (if origin == Context || origin == Addition then [linenum] else [])
            && lines[..] == if IsEofnl(origin) && hasPrev then Chop(old(lines[..]), linenum - 1) else old(lines[..])
  {
    pre, post := pre0, post0;
    match lines[linenum].origin {
      case Context => pre, post := pre + [linenum], post + [linenum];
      case Deletion => pre := pre + [linenum];
      case Addition => post := post + [linenum];
      case OtherOrigin =>
      case _ =>
        if hasPrev {
          lines[linenum - 1] := lines[linenum - 1].(content := Chopped(lines[linenum - 1].content));
        }
    }
  }

  /** The first i lines of the hunk at start have been looked at. */
  ghost predicate Collected(now: seq<DiffLine>, all: seq<DiffLine>, start: nat, i: nat, pre: seq<nat>, post: seq<nat>) {
    if i == 0 then now == all && pre == [] && post == []
    else
      && start + i <= |all| == |now| && now[start..start + i] == Settled(all[start..start + i])
      && (forall k :: 0 <= k < |all| && !(start <= k < start + i) ==> now[k] == all[k])
      && pre == Indices(all[start..start + i], start, Deletion) && post == Indices(all[start..start + i], start, Addition)
  }

  lemma CollectedNext(was: seq<DiffLine>, now: seq<DiffLine>, all: seq<DiffLine>, start: nat, i: nat,
                      pre0: seq<nat>, post0: seq<nat>, pre: seq<nat>, post: seq<nat>)
    requires Collected(was, all, start, i, pre0, post0) && start + i < |all| == |was|
    requires was[start + i] == all[start + i]
    requires var origin := all[start + i].origin;
             && pre == pre0 + (if origin == Context || origin == Deletion then [start + i] else [])
             && post == post0 + (if origin == Context || origin == Addition then [start + i] else [])
             && now == if IsEofnl(origin) && i > 0 then Chop(was, start + i - 1) else was
    ensures Collected(now, all, start, i + 1, pre, post)
  {
    hide Settled, Indices, IsEofnl, Chopped;
    var room := all[start..];
    assert room[..i] == all[start..start + i] && room[..i + 1] == all[start..start + i + 1];
    if i == 0 {
      SettledNothing();
      IndicesNone(start);
      assert was[start..start + i] == Settled(room[..i]);
    }
    SettledGrown(was, now, start, i, room);
    IndicesNext(room, i, start, Deletion);
    IndicesNext(room, i, start, Addition);
  }

  lemma CollectedAt(now: seq<DiffLine>, all: seq<DiffLine>, start: nat, i: nat, pre: seq<nat>, post: seq<nat>)
    requires Collected(now, all, start, i, pre, post)
    ensures |now| == |all| && (start + i < |all| ==> now[start + i] == all[start + i])
    ensures i > 0 ==> start + i <= |all|
  {
  }

  lemma CollectedAll(now: seq<DiffLine>, all: seq<DiffLine>, h: Hunk, pre: seq<nat>, post: seq<nat>)
    requires Collected(now, all, h.lineStart, h.lineCount, pre, post)
    ensures |now| == |all| && InRange(all, h) && forall k :: 0 <= k < |all| && !InHunk(h, k) ==> now[k] == all[k]
    ensures (forall k :: 0 <= k < |pre| ==> pre[k] < |now|) && (forall k :: 0 <= k < |post| ==> post[k] < |now|)
    ensures EditOf(all, h) == Some(Edit(Contents(now, pre), Contents(now, post)))
  {
    if h.lineCount == 0 {
      NothingEdited(all, h);
      ContentsNone(now);
    } else {
      hide Settled, Contents, EditOf;
      HunkSettled(all, now, h);
    }
  }

  lemma CollectedSome(now: seq<DiffLine>, all: seq<DiffLine>, h: Hunk, i: nat, pre: seq<nat>, post: seq<nat>)
    requires Collected(now, all, h.lineStart, i, pre, post) && i <= h.lineCount
    ensures |now| == |all| && forall k :: 0 <= k < |all| && !InHunk(h, k) ==> now[k] == all[k]
  {
  }

  /** The loop over the lines of a hunk: a marker shortens the line before it, in the patch. */
  method CollectLines(lines: array<DiffLine>, h: Hunk) returns (ok: bool, pre: seq<nat>, post: seq<nat>)
    modifies lines
    ensures ok == InRange(old(lines[..]), h)
    ensures forall k :: 0 <= k < lines.Length && !InHunk(h, k) ==> lines[k] == old(lines[k])
    ensures ok ==> (forall k :: 0 <= k < |pre| ==> pre[k] < lines.Length) && (forall k :: 0 <= k < |post| ==> post[k] < lines.Length)
    ensures ok ==> EditOf(old(lines[..]), h) == Some(Edit(Contents(lines[..], pre), Contents(lines[..], post)))
  {
    hide EditOf, Contents, IsEofnl, Chop;
    pre, post := [], [];
    ghost var all := lines[..];
    assert Collected(lines[..], all, h.lineStart, 0, pre, post);
    hide Collected;
    for i := 0 to h.lineCount
      invariant Collected(lines[..], all, h.lineStart, i, pre, post)
    {
      var linenum := h.lineStart + i;
      CollectedAt(lines[..], all, h.lineStart, i, pre, post);
      if linenum >= lines.Length {
        CollectedSome(lines[..], all, h, i, pre, post);
        return false, pre, post;
      }
      ghost var was, pre0, post0 := lines[..], pre, post;
      pre, post := CollectLine(lines, linenum, i > 0, pre, post);
      CollectedNext(was, lines[..], all, h.lineStart, i, pre0, post0, pre, post);
    }
    ok := true;
    CollectedAll(lines[..], all, h, pre, post);
  }

  lemma IndicesNone(start: nat)
    ensures Indices([], start, Deletion) == Indices([], start, Addition) == []
  {
  }

  lemma IndicesNext(ls: seq<DiffLine>, i: nat, start: nat, side: Origin)
    requires i < |ls|
    ensures Indices(ls[..i + 1], start, side)
            == Indices(ls[..i], start, side) + if ls[i].origin == Context || ls[i].origin == side then [start + i] else []
  {
    assert ls[..i + 1][..i] == ls[..i];
  }

  lemma SettledNothing()
    ensures Settled([]) == [] && forall ls: seq<DiffLine> :: ls[..0] == []
  {
  }

  lemma SettledGrown(was: seq<DiffLine>, now: seq<DiffLine>, start: nat, i: nat, room: seq<DiffLine>)
    requires i < |room| && start + |room| == |was| == |now| && was[start + i] == room[i]
    requires was[start..start + i] == Settled(room[..i])
    requires now == if IsEofnl(room[i].origin) && i > 0 then Chop(was, start + i - 1) else was
    ensures now[start..start + i + 1] == Settled(room[..i + 1])
  {
    SettledNext(room, i);
    hide Settled, Chopped;
    var (a, b) := (Settled(room[..i]), Settled(room[..i + 1]));
    assert forall k :: 0 <= k < i ==> was[start + k] == a[k];
    assert forall k :: 0 <= k <= i ==> now[start + k] == b[k];
  }

  lemma HunkSettled(all: seq<DiffLine>, now: seq<DiffLine>, h: Hunk)
    requires 0 < h.lineCount && h.lineStart + h.lineCount <= |all| == |now|
    requires now[h.lineStart..h.lineStart + h.lineCount] == Settled(HunkLines(all, h))
    ensures var ls := HunkLines(all, h);
            EditOf(all, h) == Some(Edit(Contents(now, Indices(ls, h.lineStart, Deletion)), Contents(now, Indices(ls, h.lineStart, Addition))))
  {
    var ls, r := HunkLines(all, h), Settled(HunkLines(all, h));
    ContentsOfIndices(now, h.lineStart, h.lineCount, Deletion);
    ContentsOfIndices(now, h.lineStart, h.lineCount, Addition);
    IndicesSettled(ls, r, h.lineStart, Deletion);
    IndicesSettled(ls, r, h.lineStart, Addition);
  }

  lemma NothingEdited(all: seq<DiffLine>, h: Hunk)
    requires h.lineCount == 0
    ensures EditOf(all, h) == Some(Edit([], []))
  {
  }

  /** apply_hunk; `verdict` is the answer of the hunk callback, 0 without one. */
  method ApplyHunk(image: PatchImage, lines: array<DiffLine>, h: Hunk, ctx: ApplyHunksCtx, verdict: int) returns (ok: bool)
    modifies image, lines, ctx
    ensures forall k :: 0 <= k < lines.Length && !InHunk(h, k) ==> lines[k] == old(lines[k])
    ensures var r := Step(Progress(old(image.lines), old(ctx.skippedNewLines), old(ctx.skippedOldLines)), EditOf(old(lines[..]), h), h, verdict);
            ok == r.Some? && (ok ==> r.value == Progress(image.lines, ctx.skippedNewLines, ctx.skippedOldLines))
  {
    hide EditOf, Contents, MatchesAt, Splice;
    if verdict != 0 {
      if verdict > 0 {
        ctx.skippedNewLines := ctx.skippedNewLines + h.newLines;
        ctx.skippedOldLines := ctx.skippedOldLines + h.oldLines;
        return true;
      }
      return false;
    }
    var pre, post;
    ok, pre, post := CollectLines(lines, h);
    if !ok {
      NoEdit(old(lines[..]), h);
      return;
    }
    var preimage, postimage := Contents(lines[..], pre), Contents(lines[..], post);
    var lineNum := 0;
    if h.newStart != 0 {
      lineNum := Size(h.newStart - ctx.skippedNewLines + ctx.skippedOldLines - 1);
    }
    var found;
    found, lineNum := image.FindHunkLinenum(preimage, lineNum);
    if !found { return false; }
    MatchFits(image.lines, preimage, lineNum);
    image.UpdateHunk(lineNum, |preimage|, postimage);
  }

  lemma NoEdit(all: seq<DiffLine>, h: Hunk)
    requires !InRange(all, h)
    ensures EditOf(all, h) == None
  {
  }

  lemma MatchFits(image: seq<Line>, pre: seq<Line>, at: nat)
    requires MatchesAt(image, pre, at)
    ensures at + |pre| <= |image|
  {
  }

  predicate InHunk(h: Hunk, k: nat) { h.lineStart <= k < h.lineStart + h.lineCount }

  /** The hunks of a patch share no line of it. */
  ghost predicate Apart(hunks: seq<Hunk>) {
    forall i, j :: 0 <= i < j < |hunks| ==>
      hunks[i].lineStart + hunks[i].lineCount <= hunks[j].lineStart || hunks[i].lineCount == 0 || hunks[j].lineCount == 0
  }

  function Edits(lines: seq<DiffLine>, hunks: seq<Hunk>): (es: seq<Option<Edit>>)
    ensures |es| == |hunks|
  {
    seq(|hunks|, i requires 0 <= i < |hunks| => EditOf(lines, hunks[i]))
  }

  lemma EditUnchanged(a: seq<DiffLine>, b: seq<DiffLine>, h: Hunk)
    requires |a| == |b| && forall k :: 0 <= k < |a| && InHunk(h, k) ==> a[k] == b[k]
    ensures EditOf(a, h) == EditOf(b, h)
  {
    if InRange(a, h) { assert HunkLines(a, h) == HunkLines(b, h); }
  }

  /** apply_hunks: the patched text is added to `out` if all goes well. */
  method ApplyHunks(out: Buf, source: seq<byte>, lines: array<DiffLine>, hunks: seq<Hunk>, verdicts: seq<int>) returns (ok: bool)
    requires out.Valid() && Apart(hunks) && |verdicts| == |hunks|
    modifies out, out.ptr, lines
    ensures var r := Run(Progress(Lines(source), 0, 0), Edits(old(lines[..]), hunks), hunks, verdicts, |hunks|);
            && ok == r.Some? && out.Valid()
            && out.Text() == old(out.Text()) + if ok then Join(r.value.image) else []
  {
    hide Step, EditOf, Apart, Lines, Join;
    ghost var edits, all, before := Edits(lines[..], hunks), lines[..], out.Text();
    var image := new PatchImage();
    var ctx := new ApplyHunksCtx();
    image.InitFromStr(source);
    ghost var p0 := Progress(Lines(source), 0, 0);
    for i := 0 to |hunks|
      invariant out.Valid() && out.Text() == before && out.ptr == old(out.ptr)
      invariant Run(p0, edits, hunks, verdicts, i) == Some(Progress(image.lines, ctx.skippedNewLines, ctx.skippedOldLines))
      invariant forall j :: i <= j < |hunks| ==> EditOf(lines[..], hunks[j]) == edits[j]
    {
      ghost var was := lines[..];
      ok := ApplyHunk(image, lines, hunks[i], ctx, verdicts[i]);
      if !ok {
        RunStops(p0, edits, hunks, verdicts, i + 1, |hunks|);
        return;
      }
      forall j | i < j < |hunks| ensures EditOf(lines[..], hunks[j]) == edits[j] {
        HunksApart(hunks, i, j);
        assert forall k :: 0 <= k < lines.Length && InHunk(hunks[j], k) ==> lines[k] == was[k];
        EditUnchanged(was, lines[..], hunks[j]);
      }
    }
    JoinNothing();
    var result := image.lines;
    for k := 0 to |result|
      invariant out.Valid() && (out.ptr == old(out.ptr) || fresh(out.ptr)) && out.Text() == before + Join(result[..k])
    {
      JoinConcat(result[..k], [result[k]]);
      JoinOne(result[k]);
      assert result[..k + 1] == result[..k] + [result[k]];
      out.Put(result[k], 0, |result[k]|);
      assert result[k][0..|result[k]|] == result[k];
    }
    assert result[..|result|] == result;
    ok := true;
  }

  lemma HunksApart(hunks: seq<Hunk>, i: nat, j: nat)
    requires Apart(hunks) && i < j < |hunks|
    ensures forall k :: InHunk(hunks[j], k) ==> !InHunk(hunks[i], k)
  {
  }

  lemma {:induction false} RunStops(p: Progress, edits: seq<Option<Edit>>, hunks: seq<Hunk>, verdicts: seq<int>, i: nat, n: nat)
    requires i <= n <= |hunks| == |verdicts| == |edits| && Run(p, edits, hunks, verdicts, i) == None
    ensures Run(p, edits, hunks, verdicts, n) == None
    decreases n
  {
    hide Step;
    if i < n { RunStops(p, edits, hunks, verdicts, i, n - 1); }
  }

  /** What git_apply__patch makes of a text: nothing if a callback stops it or a hunk that
      is not skipped does not find its lines where it looks for them; otherwise the text
      with exactly those changes, which are the ones that were meant if the lines are found
      at the meant places as well. */
  lemma RunFollowsScript(src: seq<Line>, hunks: seq<Hunk>, edits: seq<Option<Edit>>, cs: seq<Change>, verdicts: seq<int>)
    requires Script(hunks, edits, cs) && |cs| == |verdicts|
    ensures |edits| == |hunks| == |cs|
    ensures var (r, n) := (Run(Progress(src, 0, 0), edits, hunks, verdicts, |hunks|), |cs|);
            && (r.Some? <==> NoneStops(verdicts, n) && AllFind(src, Looked(cs), verdicts, n))
            && (r.Some? ==> r.value.image == Result(src, Looked(cs), verdicts, n))
            && (r.Some? && AllFind(src, cs, verdicts, n) ==> r.value.image == Result(src, cs, verdicts, n))
  {
    hide Script, AllFind, Run, Result, Reached, NoneStops, Looked;
    ScriptLengths(hunks, edits, cs);
    ScriptPlaced(hunks, edits, cs);
    RunFollowsPlaces(src, hunks, edits, Looked(cs), verdicts, |cs|);
    var r := Run(Progress(src, 0, 0), edits, hunks, verdicts, |hunks|);
    if r.Some? {
      ReachedImage(r.value, src, Looked(cs), verdicts);
      if AllFind(src, cs, verdicts, |cs|) { ResultAsMeant(src, hunks, edits, cs, verdicts); }
    }
  }

  lemma ReachedImage(p: Progress, src: seq<Line>, cs: seq<Change>, verdicts: seq<int>)
    requires |cs| == |verdicts| && Reached(p, src, cs, verdicts, |cs|)
    ensures p.image == Result(src, cs, verdicts, |cs|)
  {
    hide Result;
  }

  /** No change deletes lines without leaving context, other than at the very front. */
  ghost predicate Grounded(cs: seq<Change>) {
    forall i :: 0 <= i < |cs| && cs[i].post == [] ==> cs[i].at == 0
  }

  lemma LookedWhereMeant(cs: seq<Change>)
    requires Grounded(cs)
    ensures Looked(cs) == cs
  {
  }

  /** The plain patch theorem: without deletions that have no context, a patch applies if
      and only if nothing stops it and its lines stand where they are meant, and what comes
      out is what was meant. */
  lemma PlainPatchFollowsScript(src: seq<Line>, hunks: seq<Hunk>, edits: seq<Option<Edit>>, cs: seq<Change>, verdicts: seq<int>)
    requires Script(hunks, edits, cs) && |cs| == |verdicts| && Grounded(cs)
    ensures |edits| == |hunks| == |cs|
    ensures var (r, n) := (Run(Progress(src, 0, 0), edits, hunks, verdicts, |hunks|), |cs|);
            && (r.Some? <==> NoneStops(verdicts, n) && AllFind(src, cs, verdicts, n))
            && (r.Some? ==> r.value.image == Result(src, cs, verdicts, n))
  {
    hide Script, AllFind, Run, Result, NoneStops, Looked;
    RunFollowsScript(src, hunks, edits, cs, verdicts);
    LookedWhereMeant(cs);
  }
}
