/** Which parent takes a line, said without the loops of pass_blame: in terms of the files
    of the parents, their texts and their diffs. */
module BlameNext {
  import opened Common
  import opened BlameLines

  /** Blame looks at parent i: not from the oldest commit on, and only at the first parent
      if that is asked for. */
  predicate Looks(h: History, first: bool, oldest: Option<nat>, c: nat, i: nat) {
    i < |h.parents(c)| && oldest != Some(c) && (first ==> i == 0)
  }

  lemma LooksCount(h: History, first: bool, oldest: Option<nat>, c: nat, i: nat)
    ensures i < ParentCount(h, c, first, oldest) <==> Looks(h, first, oldest, c, i)
  {
  }

  /** Parent i has the file, as p. */
  predicate FileIn(h: History, o: Origin, i: nat, p: Origin) {
    i < |h.parents(o.commit)| && h.find(o, i) == Some(p.path) && p.commit == h.parents(o.commit)[i]
  }

  /** Parent i has the file with a text that no parent before it has. */
  ghost predicate NewText(h: History, o: Origin, i: nat, p: Origin) {
    FileIn(h, o, i, p) && forall j: nat, q :: j < i && FileIn(h, o, j, q) ==> h.text(q) != h.text(p)
  }

  /** Parent i is the first one looked at that has the file unchanged. */
  ghost predicate TakesAll(h: History, first: bool, oldest: Option<nat>, o: Origin, i: nat, p: Origin) {
    && Looks(h, first, oldest, o.commit, i) && FileIn(h, o, i, p) && h.text(p) == h.text(o)
    && forall j: nat, q :: j < i && FileIn(h, o, j, q) ==> h.text(q) != h.text(o)
  }

  /** No parent looked at has the file unchanged, and parent i is the first one with a text
      of its own in which the line is in no hunk. */
  ghost predicate TakesLine(h: History, first: bool, oldest: Option<nat>, o: Origin, s: nat, i: nat, p: Origin) {
    && Looks(h, first, oldest, o.commit, i) && NewText(h, o, i, p) && MapLine(h.diff(p, o), 0, 0, s).Some?
    && (forall j: nat, q :: Looks(h, first, oldest, o.commit, j) && FileIn(h, o, j, q) ==> h.text(q) != h.text(o))
    && forall j: nat, q :: j < i && NewText(h, o, j, q) ==> MapLine(h.diff(q, o), 0, 0, s).None?
  }

  // ------------------------------------------------------------------ the candidates

  /** The files of the first i parents, each text once. */
  ghost function NewTexts(h: History, o: Origin, i: nat): seq<Origin>
    requires i <= |h.parents(o.commit)|
  {
    if i == 0 then []
    else
      var before := NewTexts(h, o, i - 1);
      match h.find(o, i - 1)
      case None => before
      case Some(path) =>
        var p := Origin(h.parents(o.commit)[i - 1], path);
        if NewText(h, o, i - 1, p) then before + [p] else before
  }

  lemma {:induction false} NewTextsAre(h: History, o: Origin, i: nat)
    requires i <= |h.parents(o.commit)|
    ensures forall p :: p in NewTexts(h, o, i) ==> exists j: nat :: j < i && NewText(h, o, j, p)
    ensures forall j: nat, q :: j < i && FileIn(h, o, j, q) ==> exists p :: p in NewTexts(h, o, i) && h.text(p) == h.text(q)
    decreases i
  {
    if i > 0 {
      NewTextsAre(h, o, i - 1);
      var before := NewTexts(h, o, i - 1);
      forall j: nat, q | j < i && FileIn(h, o, j, q) ensures exists p :: p in NewTexts(h, o, i) && h.text(p) == h.text(q) {
        if j < i - 1 {
          var p :| p in before && h.text(p) == h.text(q);
          assert p in NewTexts(h, o, i);
        } else if NewText(h, o, i - 1, q) {
          assert q in NewTexts(h, o, i);
        } else {
          var j': nat, q' :| j' < i - 1 && FileIn(h, o, j', q') && h.text(q') == h.text(q);
          var p :| p in before && h.text(p) == h.text(q');
          assert p in NewTexts(h, o, i);
        }
      }
    }
  }

  lemma SameBlobMeans(h: History, o: Origin, i: nat, p: Origin)
    requires i < |h.parents(o.commit)| && FileIn(h, o, i, p)
    ensures SameBlob(h, NewTexts(h, o, i), p) <==> !NewText(h, o, i, p)
  {
    NewTextsAre(h, o, i);
    var found := NewTexts(h, o, i);
    if SameBlob(h, found, p) {
      var k :| 0 <= k < |found| && h.text(found[k]) == h.text(p);
      assert found[k] in found;
    }
    if !NewText(h, o, i, p) {
      var j: nat, q :| j < i && FileIn(h, o, j, q) && h.text(q) == h.text(p);
      var x :| x in found && h.text(x) == h.text(q);
      var k :| 0 <= k < |found| && found[k] == x;
    }
  }

  /** The first loop of pass_blame ends with the first unchanged file, or with the new texts. */
  lemma {:induction false} DecideExact(h: History, o: Origin, n: nat, i: nat)
    requires i <= n <= |h.parents(o.commit)|
    requires forall j: nat, q :: j < i && FileIn(h, o, j, q) ==> h.text(q) != h.text(o)
    ensures var d := Decide(h, o, n, i, NewTexts(h, o, i));
            if d.Whole? then
              exists k: nat :: k < n && FileIn(h, o, k, d.to) && h.text(d.to) == h.text(o)
                               && forall j: nat, q :: j < k && FileIn(h, o, j, q) ==> h.text(q) != h.text(o)
            else d == Standard(NewTexts(h, o, n)) && forall j: nat, q :: j < n && FileIn(h, o, j, q) ==> h.text(q) != h.text(o)
    decreases n - i
  {
    hide SameBlob, NewText;
    if i < n {
      match h.find(o, i) {
        case None => DecideExact(h, o, n, i + 1);
        case Some(path) =>
          var p := Origin(h.parents(o.commit)[i], path);
          assert FileIn(h, o, i, p);
          if h.text(p) != h.text(o) {
            SameBlobMeans(h, o, i, p);
            DecideExact(h, o, n, i + 1);
          }
      }
    }
  }

  // --------------------------------------------------------------- the next place

  /** The first of the new texts that keeps the line. */
  lemma {:induction false} FirstKeptExact(h: History, o: Origin, i: nat, s: nat)
    requires i <= |h.parents(o.commit)|
    ensures var k := FirstKept(h, o, NewTexts(h, o, i), s);
            if k.Some? then
              exists j: nat :: j < i && NewText(h, o, j, k.value.0) && MapLine(h.diff(k.value.0, o), 0, 0, s) == Some(k.value.1)
                               && forall j': nat, q :: j' < j && NewText(h, o, j', q) ==> MapLine(h.diff(q, o), 0, 0, s).None?
            else forall j: nat, q :: j < i && NewText(h, o, j, q) ==> MapLine(h.diff(q, o), 0, 0, s).None?
    decreases i
  {
    hide NewText, MapLine;
    if i > 0 {
      FirstKeptExact(h, o, i - 1, s);
      NewTextFile(h, o, i - 1);
      var before := NewTexts(h, o, i - 1);
      match h.find(o, i - 1) {
        case None =>
        case Some(path) =>
          var p := Origin(h.parents(o.commit)[i - 1], path);
          FirstKeptAppend(h, o, before, p, s);
      }
    }
  }

  lemma NewTextFile(h: History, o: Origin, i: nat)
    requires i < |h.parents(o.commit)|
    ensures forall q :: NewText(h, o, i, q) ==> h.find(o, i) == Some(q.path) && q == Origin(h.parents(o.commit)[i], q.path)
  {
  }

  lemma {:induction false} FirstKeptAppend(h: History, o: Origin, ps: seq<Origin>, p: Origin, s: nat)
    ensures FirstKept(h, o, ps + [p], s)
            == if FirstKept(h, o, ps, s).Some? then FirstKept(h, o, ps, s)
               else match MapLine(h.diff(p, o), 0, 0, s) case Some(q) => Some((p, q)) case None => None
    decreases |ps|
  {
    hide MapLine;
    if ps == [] {
      assert [] + [p] == [p] && [p][1..] == [];
    } else {
      FirstKeptAppend(h, o, ps[1..], p, s);
      assert (ps + [p])[1..] == ps[1..] + [p];
    }
  }

  /** Where blame for a line goes next, exactly. */
  lemma NextExact(h: History, first: bool, oldest: Option<nat>, o: Origin, s: nat)
    ensures forall i: nat, p :: TakesAll(h, first, oldest, o, i, p) ==> NextOf(h, first, oldest, o, s) == Some((p, s))
    ensures forall i: nat, p :: TakesLine(h, first, oldest, o, s, i, p) ==>
              NextOf(h, first, oldest, o, s) == Some((p, MapLine(h.diff(p, o), 0, 0, s).value))
    ensures (forall i: nat, p :: !TakesAll(h, first, oldest, o, i, p) && !TakesLine(h, first, oldest, o, s, i, p)) ==>
              NextOf(h, first, oldest, o, s) == None
  {
    var n := ParentCount(h, o.commit, first, oldest);
    forall i: nat ensures i < n <==> Looks(h, first, oldest, o.commit, i) { LooksCount(h, first, oldest, o.commit, i); }
    assert NewTexts(h, o, 0) == [];
    DecideExact(h, o, n, 0);
    FirstKeptExact(h, o, n, s);
    hide ParentCount, NewTexts, Decide, FirstKept, MapLine, Looks;
    match PassingOf(h, first, oldest, o) {
      case Whole(to) =>
        var k: nat :| k < n && FileIn(h, o, k, to) && h.text(to) == h.text(o)
                      && forall j: nat, q :: j < k && FileIn(h, o, j, q) ==> h.text(q) != h.text(o);
        assert TakesAll(h, first, oldest, o, k, to);
      case Standard(ps) =>
        var kept := FirstKept(h, o, NewTexts(h, o, n), s);
        if kept.Some? {
          var j: nat :| j < n && NewText(h, o, j, kept.value.0) && MapLine(h.diff(kept.value.0, o), 0, 0, s) == Some(kept.value.1)
                        && forall j': nat, q :: j' < j && NewText(h, o, j', q) ==> MapLine(h.diff(q, o), 0, 0, s).None?;
          assert TakesLine(h, first, oldest, o, s, j, kept.value.0);
        }
    }
    forall i: nat, p | TakesAll(h, first, oldest, o, i, p) ensures NextOf(h, first, oldest, o, s) == Some((p, s)) {
    }
  }

  /** Which line of the parent it is: it has moved by what the hunks before it took out and
      put in. */
  lemma {:induction false} MapLineMoves(a: seq<string>, b: seq<string>, hs: seq<Hunk>, p: nat, t: nat, s: nat, i: nat)
    requires ValidHunks(a, b, hs, p, t) && t <= s && i <= |hs|
    requires i > 0 ==> hs[i - 1].startB + hs[i - 1].countB <= s
    requires i < |hs| ==> s < hs[i].startB
    ensures MapLine(hs, p, t, s)
            == Some(if i == 0 then p + (s - t) else hs[i - 1].startA + hs[i - 1].countA + (s - (hs[i - 1].startB + hs[i - 1].countB)))
    decreases |hs|
  {
    if i > 0 {
      var k := hs[0];
      if i > 1 { StartsRise(a, b, hs[1..], k.startA + k.countA, k.startB + k.countB, i - 2); }
      MapLineMoves(a, b, hs[1..], k.startA + k.countA, k.startB + k.countB, s, i - 1);
    }
  }
}
