/** Blame entries as a list of values: what splitting an entry, applying a chunk
    and coalescing do to the list and to the individual lines it stands for. */
module BlameEntries {
  import opened Common
  import opened BlameLines

  /** A group of lines: final lines [lno, lno + numLines) are suspected to be lines
      sLno, sLno + 1, ... of the suspect. */
  datatype Ent = Ent(lno: nat, numLines: nat, sLno: nat, suspect: Origin, guilty: bool, isBoundary: bool)

  /** The suspicion about a single line. */
  datatype Who = Who(suspect: Origin, line: nat, guilty: bool)

  function LinesOf(e: Ent): (w: seq<Who>) {
    seq(e.numLines, i requires 0 <= i < e.numLines => Who(e.suspect, e.sLno + i, e.guilty))
  }

  /** The suspicions of a list of entries, line after line. */
  function Lines(es: seq<Ent>): seq<Who> {
    if es == [] then [] else LinesOf(es[0]) + Lines(es[1..])
  }

  /** The entries tile [lo, hi): each begins where the one before ends. */
  ghost predicate Tiles(es: seq<Ent>, lo: nat, hi: nat) {
    if es == [] then lo == hi
    else es[0].lno == lo && Tiles(es[1..], lo + es[0].numLines, hi)
  }

  /** No entry is empty. */
  ghost predicate Solid(es: seq<Ent>) {
    forall i :: 0 <= i < |es| ==> es[i].numLines >= 1
  }

  lemma {:induction false} LinesConcat(a: seq<Ent>, b: seq<Ent>)
    ensures Lines(a + b) == Lines(a) + Lines(b)
  {
    if a == [] {
      assert a + b == b;
    } else {
      assert (a + b)[1..] == a[1..] + b;
      LinesConcat(a[1..], b);
    }
  }

  lemma {:induction false} TilesConcat(a: seq<Ent>, b: seq<Ent>, lo: nat, mid: nat, hi: nat)
    requires Tiles(a, lo, mid) && Tiles(b, mid, hi)
    ensures Tiles(a + b, lo, hi)
    decreases |a|
  {
    if a == [] {
      assert a + b == b;
    } else {
      assert (a + b)[1..] == a[1..] + b;
      TilesConcat(a[1..], b, lo + a[0].numLines, mid, hi);
    }
  }

  lemma {:induction false} TilesLength(es: seq<Ent>, lo: nat, hi: nat)
    requires Tiles(es, lo, hi)
    ensures lo <= hi && |Lines(es)| == hi - lo
    decreases |es|
  {
    if es != [] {
      TilesLength(es[1..], lo + es[0].numLines, hi);
    }
  }

  // ---------------------------------------------------------------- one chunk

  /** A hunk of agreement: lines [tlno, same) of target are lines from plno on of
      parent. */
  datatype Chunk = Chunk(tlno: nat, plno: nat, same: nat, target: Origin, parent: Origin)

  /** The guard of blame_chunk: e is still open, suspects target, and overlaps. */
  predicate Overlaps(e: Ent, c: Chunk) {
    !e.guilty && e.suspect == c.target && e.sLno < c.same && c.tlno < e.sLno + e.numLines
  }

  /** The on-stack array split[3]; an entry without suspect is None. */
  datatype Split = Split(pre: Option<Ent>, mid: Option<Ent>, post: Option<Ent>)

  /** split_overlap: the part before the chunk, the parent's part, the part behind. */
  function SplitOverlap(e: Ent, c: Chunk): Split
    requires Overlaps(e, c) && c.tlno <= c.same
  {
    var before := e.sLno < c.tlno;
    var pre := if before then Some(Ent(e.lno, c.tlno - e.sLno, e.sLno, e.suspect, false, false)) else None;
    var midLno := if before then e.lno + c.tlno - e.sLno else e.lno;
    var midS := if before then c.plno else c.plno + (e.sLno - c.tlno);
    var post := if c.same < e.sLno + e.numLines
                then Some(Ent(e.lno + (c.same - e.sLno), e.sLno + e.numLines - c.same, c.same, e.suspect, false, false))
                else None;
    var chunkEnd := if post.Some? then post.value.lno else e.lno + e.numLines;
    var num := chunkEnd - midLno;
    Split(pre, if num < 1 then None else Some(Ent(midLno, num, midS, c.parent, false, false)), post)
  }

  function One(e: Option<Ent>): seq<Ent> { if e.Some? then [e.value] else [] }

  /** What becomes of an entry: without a parent's part it stays, otherwise the
      parts take its place. */
  function Parts(e: Ent, s: Split): seq<Ent> {
    if s.mid.None? then [e] else One(s.pre) + One(s.mid) + One(s.post)
  }

  function Apply(e: Ent, c: Chunk): seq<Ent> {
    if Overlaps(e, c) && c.tlno <= c.same then Parts(e, SplitOverlap(e, c)) else [e]
  }

  /** split_overlap subtracts unsigned numbers, so that a chunk whose bounds are out
      of order must not overlap any entry. */
  ghost predicate Applicable(es: seq<Ent>, c: Chunk) {
    c.tlno <= c.same || forall i :: 0 <= i < |es| ==> !Overlaps(es[i], c)
  }

  /** blame_chunk on the whole list. */
  function ApplyAll(es: seq<Ent>, c: Chunk): seq<Ent> {
    if es == [] then [] else Apply(es[0], c) + ApplyAll(es[1..], c)
  }

  /** What a chunk means for a single line. */
  function Move(w: Who, c: Chunk): Who {
    if !w.guilty && w.suspect == c.target && c.tlno <= w.line < c.same
    then Who(c.parent, c.plno + (w.line - c.tlno), false)
    else w
  }

  function MoveAll(ws: seq<Who>, c: Chunk): seq<Who> {
    seq(|ws|, i requires 0 <= i < |ws| => Move(ws[i], c))
  }

  /** Splitting an entry moves exactly the lines of the chunk. */
  lemma ApplyMoves(e: Ent, c: Chunk)
    ensures Lines(Apply(e, c)) == MoveAll(LinesOf(e), c)
  {
    if !Overlaps(e, c) || c.tlno > c.same || SplitOverlap(e, c).mid.None? {
      assert Lines([e]) == LinesOf(e) + [];
      assert LinesOf(e) == MoveAll(LinesOf(e), c);
    } else {
      var s := SplitOverlap(e, c);
      LinesOfOne(s.pre);
      LinesOfOne(s.mid);
      LinesOfOne(s.post);
      LinesConcat(One(s.pre), One(s.mid));
      LinesConcat(One(s.pre) + One(s.mid), One(s.post));
      SplitLines(e, c);
    }
  }

  lemma LinesOfOne(e: Option<Ent>)
    ensures Lines(One(e)) == if e.Some? then LinesOf(e.value) else []
  {
  }

  lemma SplitLines(e: Ent, c: Chunk)
    requires Overlaps(e, c) && c.tlno <= c.same && SplitOverlap(e, c).mid.Some?
    ensures var s := SplitOverlap(e, c);
            (if s.pre.Some? then LinesOf(s.pre.value) else []) + LinesOf(s.mid.value)
            + (if s.post.Some? then LinesOf(s.post.value) else []) == MoveAll(LinesOf(e), c)
  {
  }

  lemma MoveAllConcat(a: seq<Who>, b: seq<Who>, c: Chunk)
    ensures MoveAll(a + b, c) == MoveAll(a, c) + MoveAll(b, c)
  {
  }

  /** blame_chunk moves exactly the lines of the chunk, and keeps the tiling. */
  lemma {:induction false} ApplyAllMoves(es: seq<Ent>, c: Chunk)
    ensures Lines(ApplyAll(es, c)) == MoveAll(Lines(es), c)
    decreases |es|
  {
    if es != [] {
      ApplyMoves(es[0], c);
      ApplyAllMoves(es[1..], c);
      LinesConcat(Apply(es[0], c), ApplyAll(es[1..], c));
      MoveAllConcat(LinesOf(es[0]), Lines(es[1..]), c);
    }
  }

  lemma ApplyTiles(e: Ent, c: Chunk)
    ensures Tiles(Apply(e, c), e.lno, e.lno + e.numLines)
    ensures e.numLines >= 1 ==> Solid(Apply(e, c))
    ensures |Apply(e, c)| >= 1 && Apply(e, c)[0].lno == e.lno
  {
    if Overlaps(e, c) && c.tlno <= c.same && SplitOverlap(e, c).mid.Some? {
      var s := SplitOverlap(e, c);
      var a, b := One(s.pre), One(s.mid);
      assert Tiles(One(s.post), s.mid.value.lno + s.mid.value.numLines, e.lno + e.numLines);
      TilesConcat(b, One(s.post), s.mid.value.lno, s.mid.value.lno + s.mid.value.numLines, e.lno + e.numLines);
      assert Tiles(a, e.lno, s.mid.value.lno);
      TilesConcat(a, b + One(s.post), e.lno, s.mid.value.lno, e.lno + e.numLines);
      assert a + b + One(s.post) == a + (b + One(s.post));
    }
  }

  lemma {:induction false} ApplyAllTiles(es: seq<Ent>, c: Chunk, lo: nat, hi: nat)
    requires Tiles(es, lo, hi)
    ensures Tiles(ApplyAll(es, c), lo, hi)
    ensures Solid(es) ==> Solid(ApplyAll(es, c))
    decreases |es|
  {
    if es != [] {
      ApplyTiles(es[0], c);
      ApplyAllTiles(es[1..], c, lo + es[0].numLines, hi);
      TilesConcat(Apply(es[0], c), ApplyAll(es[1..], c), lo, lo + es[0].numLines, hi);
      assert Solid(es) ==> Solid(es[1..]);
    }
  }

  // ----------------------------------------------------- one parent, one commit

  /** find_last_in_target: one past the last line that target is suspected for. */
  function LastInTarget(es: seq<Ent>, target: Origin): nat {
    if es == [] then 0
    else
      var rest := LastInTarget(es[1..], target);
      if es[0].guilty || es[0].suspect != target then rest else Max(es[0].sLno + es[0].numLines, rest)
  }

  /** my_emit for every hunk, and then the tail up to `last`. */
  function PassHunks(es: seq<Ent>, hs: seq<Hunk>, p: nat, t: nat, last: nat, target: Origin, parent: Origin): seq<Ent>
    decreases |hs|
  {
    if hs == [] then ApplyAll(es, Chunk(t, p, last, target, parent))
    else PassHunks(ApplyAll(es, Chunk(t, p, hs[0].startB, target, parent)), hs[1..],
                   hs[0].startA + hs[0].countA, hs[0].startB + hs[0].countB, last, target, parent)
  }

  /** pass_blame_to_parent. */
  function PassToParent(es: seq<Ent>, h: History, target: Origin, parent: Origin): seq<Ent> {
    PassHunks(es, h.diff(parent, target), 0, 0, LastInTarget(es, target), target, parent)
  }

  /** The lines for which `target` is an open suspect all lie below `last`. */
  ghost predicate Below(ws: seq<Who>, target: Origin, last: nat) {
    forall i :: 0 <= i < |ws| && !ws[i].guilty && ws[i].suspect == target ==> ws[i].line < last
  }

  lemma {:induction false} LastIsBound(es: seq<Ent>, target: Origin)
    ensures Below(Lines(es), target, LastInTarget(es, target))
  {
    if es != [] {
      LastIsBound(es[1..], target);
    }
  }

  /** An open entry that suspects the target reaches no further than its lines. */
  lemma {:induction false} BelowEntries(es: seq<Ent>, target: Origin, last: nat, i: nat)
    requires Below(Lines(es), target, last) && i < |es|
    requires !es[i].guilty && es[i].suspect == target && es[i].numLines >= 1
    ensures es[i].sLno + es[i].numLines <= last
    decreases |es|
  {
    var n := es[0].numLines;
    assert Lines(es)[..n] == LinesOf(es[0]) && Lines(es)[n..] == Lines(es[1..]);
    if i == 0 {
      assert LinesOf(es[0])[n - 1] == Lines(es)[n - 1];
    } else {
      forall k | 0 <= k < |Lines(es[1..])| ensures Lines(es[1..])[k] == Lines(es)[n + k] {
      }
      BelowEntries(es[1..], target, last, i - 1);
    }
  }

  /** A whole diff moves a line of the target to the line it maps to. */
  function PassWho(w: Who, hs: seq<Hunk>, p: nat, t: nat, target: Origin, parent: Origin): Who {
    if w.guilty || w.suspect != target then w
    else
      match MapLine(hs, p, t, w.line)
      case Some(q) => Who(parent, q, false)
      case None => w
  }

  function PassWhos(ws: seq<Who>, hs: seq<Hunk>, p: nat, t: nat, target: Origin, parent: Origin): seq<Who> {
    seq(|ws|, i requires 0 <= i < |ws| => PassWho(ws[i], hs, p, t, target, parent))
  }

  lemma PassWhoStep(w: Who, hs: seq<Hunk>, p: nat, t: nat, target: Origin, parent: Origin)
    requires target != parent && hs != []
    ensures PassWho(Move(w, Chunk(t, p, hs[0].startB, target, parent)), hs[1..],
                    hs[0].startA + hs[0].countA, hs[0].startB + hs[0].countB, target, parent)
            == PassWho(w, hs, p, t, target, parent)
  {
  }

  lemma PassWhoTail(w: Who, p: nat, t: nat, last: nat, target: Origin, parent: Origin)
    requires !w.guilty && w.suspect == target ==> w.line < last
    ensures Move(w, Chunk(t, p, last, target, parent)) == PassWho(w, [], p, t, target, parent)
  {
  }

  lemma BelowMoves(ws: seq<Who>, c: Chunk, last: nat)
    requires Below(ws, c.target, last) && c.parent != c.target
    ensures Below(MoveAll(ws, c), c.target, last)
  {
  }

  /** my_emit and the tail, over all hunks, agree with MapLine on every line. */
  lemma {:induction false} PassHunksLines(es: seq<Ent>, hs: seq<Hunk>, p: nat, t: nat, last: nat, target: Origin, parent: Origin)
    requires target != parent && Below(Lines(es), target, last)
    ensures Lines(PassHunks(es, hs, p, t, last, target, parent)) == PassWhos(Lines(es), hs, p, t, target, parent)
    decreases |hs|
  {
    hide Lines, ApplyAll, MapLine, Below, PassWho, Move;
    var ws := Lines(es);
    if hs == [] {
      ApplyAllMoves(es, Chunk(t, p, last, target, parent));
      forall i | 0 <= i < |ws|
        ensures Move(ws[i], Chunk(t, p, last, target, parent)) == PassWho(ws[i], hs, p, t, target, parent)
      {
        BelowAt(ws, target, last, i);
        PassWhoTail(ws[i], p, t, last, target, parent);
      }
    } else {
      var c := Chunk(t, p, hs[0].startB, target, parent);
      ApplyAllMoves(es, c);
      BelowMoves(ws, c, last);
      var p', t' := hs[0].startA + hs[0].countA, hs[0].startB + hs[0].countB;
      PassHunksLines(ApplyAll(es, c), hs[1..], p', t', last, target, parent);
      forall i | 0 <= i < |ws|
        ensures PassWho(Move(ws[i], c), hs[1..], p', t', target, parent) == PassWho(ws[i], hs, p, t, target, parent)
      {
        PassWhoStep(ws[i], hs, p, t, target, parent);
      }
    }
  }

  lemma BelowAt(ws: seq<Who>, target: Origin, last: nat, i: nat)
    requires Below(ws, target, last) && i < |ws|
    ensures !ws[i].guilty && ws[i].suspect == target ==> ws[i].line < last
  {
  }
}
