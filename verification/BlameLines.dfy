/** Blame, line by line: what the oracles of blame_git.c answer, how a diff maps a
    line to the parent, and who is to blame when every line is traced on its own. */
module BlameLines {
  import opened Common

  // ------------------------------------------------------------------- history

  /** A file in a commit: what git_blame__origin identifies. */
  datatype Origin = Origin(commit: nat, path: string)

  /** A hunk as xdiff reports it: the lines [startA, startA + countA) of the parent
      were replaced by the lines [startB, startB + countB) of the child. */
  datatype Hunk = Hunk(startA: nat, countA: nat, startB: nat, countB: nat)

  /** The repository as blame sees it.  `find` is find_origin for the i-th parent,
      `diff` the hunks between a parent file and a child file, `height` a number
      that falls from child to parent. */
  datatype History = History(
    parents: nat -> seq<nat>,
    height: nat -> nat,
    text: Origin -> seq<string>,
    find: (Origin, nat) -> Option<string>,
    diff: (Origin, Origin) -> seq<Hunk>)

  ghost predicate Acyclic(h: History) {
    forall c, i :: 0 <= i < |h.parents(c)| ==> h.height(h.parents(c)[i]) < h.height(c)
  }

  /** The hunks are ordered and in bounds, and all lines outside them agree. */
  ghost predicate ValidHunks(a: seq<string>, b: seq<string>, hs: seq<Hunk>, p: nat, t: nat)
    decreases |hs|
  {
    p <= |a| && t <= |b| &&
    if hs == [] then a[p..] == b[t..]
    else
      var k := hs[0];
      && p <= k.startA && t <= k.startB && k.startA - p == k.startB - t
      && k.startA + k.countA <= |a| && k.startB + k.countB <= |b|
      && a[p..k.startA] == b[t..k.startB]
      && ValidHunks(a, b, hs[1..], k.startA + k.countA, k.startB + k.countB)
  }

  ghost predicate ValidDiffs(h: History) {
    forall a, b {:trigger h.diff(a, b)} :: ValidHunks(h.text(a), h.text(b), h.diff(a, b), 0, 0)
  }

  // --------------------------------------------------------- mapping one line

  /** The parent's line that line `s` of the child was kept from, if any, when the
      files are in step at lines p and t. */
  function MapLine(hs: seq<Hunk>, p: nat, t: nat, s: nat): Option<nat>
    decreases |hs|
  {
    if hs == [] then (if t <= s then Some(p + (s - t)) else None)
    else if t <= s < hs[0].startB then Some(p + (s - t))
    else MapLine(hs[1..], hs[0].startA + hs[0].countA, hs[0].startB + hs[0].countB, s)
  }

  /** Line `s` of the child lies in the changed part of some hunk. */
  ghost predicate InHunk(hs: seq<Hunk>, s: nat) {
    exists i :: 0 <= i < |hs| && hs[i].startB <= s < hs[i].startB + hs[i].countB
  }

  /** A line maps exactly if it lies in no hunk, and then to a line with its text. */
  lemma {:induction false} MapLineExact(a: seq<string>, b: seq<string>, hs: seq<Hunk>, p: nat, t: nat, s: nat)
    requires ValidHunks(a, b, hs, p, t) && t <= s < |b|
    ensures MapLine(hs, p, t, s).None? <==> InHunk(hs, s)
    ensures var m := MapLine(hs, p, t, s); m.Some? ==> p <= m.value < |a| && a[m.value] == b[s]
    decreases |hs|
  {
    if hs == [] {
      assert a[p..][s - t] == b[t..][s - t];
    } else {
      var k := hs[0];
      var p', t' := k.startA + k.countA, k.startB + k.countB;
      if s < k.startB {
        assert a[p..k.startA][s - t] == b[t..k.startB][s - t];
        HunksBehind(a, b, hs, p, t, s);
      } else if s < t' {
        assert InHunk(hs, s);
        MapLineBefore(a, b, hs[1..], p', t', s);
      } else {
        MapLineExact(a, b, hs[1..], p', t', s);
        if InHunk(hs[1..], s) {
          var i :| 0 <= i < |hs[1..]| && hs[1..][i].startB <= s < hs[1..][i].startB + hs[1..][i].countB;
          assert hs[i + 1] == hs[1..][i];
        }
      }
    }
  }

  lemma {:induction false} HunksBehind(a: seq<string>, b: seq<string>, hs: seq<Hunk>, p: nat, t: nat, s: nat)
    requires ValidHunks(a, b, hs, p, t) && hs != [] && s < hs[0].startB
    ensures !InHunk(hs, s)
    decreases |hs|
  {
    if |hs| > 1 {
      var k := hs[0];
      HunksBehind(a, b, hs[1..], k.startA + k.countA, k.startB + k.countB, s);
      forall i | 0 <= i < |hs| ensures s < hs[i].startB {
        if i > 0 {
          assert hs[i] == hs[1..][i - 1];
          StartsRise(a, b, hs[1..], k.startA + k.countA, k.startB + k.countB, i - 1);
        }
      }
    }
  }

  lemma {:induction false} StartsRise(a: seq<string>, b: seq<string>, hs: seq<Hunk>, p: nat, t: nat, i: nat)
    requires ValidHunks(a, b, hs, p, t) && i < |hs|
    ensures t <= hs[i].startB
    decreases |hs|
  {
    if i > 0 {
      StartsRise(a, b, hs[1..], hs[0].startA + hs[0].countA, hs[0].startB + hs[0].countB, i - 1);
    }
  }

  lemma {:induction false} MapLineBefore(a: seq<string>, b: seq<string>, hs: seq<Hunk>, p: nat, t: nat, s: nat)
    requires ValidHunks(a, b, hs, p, t) && s < t
    ensures MapLine(hs, p, t, s).None?
    decreases |hs|
  {
    if hs != [] {
      MapLineBefore(a, b, hs[1..], hs[0].startA + hs[0].countA, hs[0].startB + hs[0].countB, s);
    }
  }

  // --------------------------------------------------------------- one commit

  /** How blame is passed on from one origin: everything to a parent file with the
      same blob, or line by line to the parent files in turn. */
  datatype Passing = Whole(to: Origin) | Standard(candidates: seq<Origin>)

  /** The first loop of pass_blame, from parent i on. */
  function Decide(h: History, o: Origin, n: nat, i: nat, found: seq<Origin>): Passing
    requires i <= n <= |h.parents(o.commit)|
    decreases n - i
  {
    if i == n then Standard(found)
    else
      match h.find(o, i)
      case None => Decide(h, o, n, i + 1, found)
      case Some(path) =>
        var p := Origin(h.parents(o.commit)[i], path);
        if h.text(p) == h.text(o) then Whole(p)
        else if SameBlob(h, found, p) then Decide(h, o, n, i + 1, found)
        else Decide(h, o, n, i + 1, found + [p])
  }

  /** One of the candidates has the blob of `p`. */
  predicate SameBlob(h: History, found: seq<Origin>, p: Origin) {
    exists j :: 0 <= j < |found| && h.text(found[j]) == h.text(p)
  }

  /** The number of parents that pass_blame looks at. */
  function ParentCount(h: History, c: nat, firstParent: bool, oldest: Option<nat>): (n: nat)
    ensures n <= |h.parents(c)|
  {
    if oldest == Some(c) then 0
    else if firstParent && |h.parents(c)| > 1 then 1
    else |h.parents(c)|
  }

  /** The first candidate that line `s` of `o` maps to. */
  function FirstKept(h: History, o: Origin, ps: seq<Origin>, s: nat): Option<(Origin, nat)>
    decreases |ps|
  {
    if ps == [] then None
    else
      match MapLine(h.diff(ps[0], o), 0, 0, s)
      case Some(q) => Some((ps[0], q))
      case None => FirstKept(h, o, ps[1..], s)
  }

  /** Where blame for line `s` of `o` goes next, if o is not to blame itself. */
  function PassLine(h: History, o: Origin, s: nat, how: Passing): Option<(Origin, nat)> {
    match how
    case Whole(p) => Some((p, s))
    case Standard(ps) => FirstKept(h, o, ps, s)
  }

  /** Every file that `how` names belongs to a parent of c. */
  ghost predicate FromParents(h: History, c: nat, how: Passing) {
    match how
    case Whole(p) => p.commit in h.parents(c)
    case Standard(ps) => forall j :: 0 <= j < |ps| ==> ps[j].commit in h.parents(c)
  }

  lemma {:induction false} DecideFromParents(h: History, o: Origin, n: nat, i: nat, found: seq<Origin>)
    requires i <= n <= |h.parents(o.commit)| && FromParents(h, o.commit, Standard(found))
    ensures FromParents(h, o.commit, Decide(h, o, n, i, found))
    ensures var d := Decide(h, o, n, i, found); d.Whole? ==> h.text(d.to) == h.text(o)
    decreases n - i
  {
    if i < n {
      match h.find(o, i)
      case None => DecideFromParents(h, o, n, i + 1, found);
      case Some(path) =>
        var p := Origin(h.parents(o.commit)[i], path);
        assert p.commit in h.parents(o.commit);
        if h.text(p) != h.text(o) {
          if SameBlob(h, found, p) {
            DecideFromParents(h, o, n, i + 1, found);
          } else {
            DecideFromParents(h, o, n, i + 1, found + [p]);
          }
        }
    }
  }

  lemma {:induction false} FirstKeptFrom(h: History, o: Origin, ps: seq<Origin>, s: nat)
    ensures var k := FirstKept(h, o, ps, s); k.Some? ==> k.value.0 in ps
    decreases |ps|
  {
    if ps != [] && MapLine(h.diff(ps[0], o), 0, 0, s).None? {
      FirstKeptFrom(h, o, ps[1..], s);
    }
  }

  lemma {:induction false} FirstKeptText(h: History, o: Origin, ps: seq<Origin>, s: nat)
    requires ValidDiffs(h) && s < |h.text(o)|
    ensures var k := FirstKept(h, o, ps, s);
            k.Some? ==> k.value.1 < |h.text(k.value.0)| && h.text(k.value.0)[k.value.1] == h.text(o)[s]
    decreases |ps|
  {
    if ps != [] {
      MapLineExact(h.text(ps[0]), h.text(o), h.diff(ps[0], o), 0, 0, s);
      FirstKeptText(h, o, ps[1..], s);
    }
  }

  // ------------------------------------------------------------ a line's trace

  /** How pass_blame treats `o` when the history ends at `oldest` and at roots. */
  function PassingOf(h: History, first: bool, oldest: Option<nat>, o: Origin): Passing {
    Decide(h, o, ParentCount(h, o.commit, first, oldest), 0, [])
  }

  function NextOf(h: History, first: bool, oldest: Option<nat>, o: Origin, s: nat): Option<(Origin, nat)> {
    PassLine(h, o, s, PassingOf(h, first, oldest, o))
  }

  /** Who is to blame for line `s` of `o`, with this line followed on its own. */
  ghost function Trace(h: History, first: bool, oldest: Option<nat>, o: Origin, s: nat): (Origin, nat)
    requires Acyclic(h)
    decreases h.height(o.commit)
  {
    match NextOf(h, first, oldest, o, s)
    case None => (o, s)
    case Some(next) =>
      NextIsOlder(h, first, oldest, o, s);
      Trace(h, first, oldest, next.0, next.1)
  }

  lemma NextIsOlder(h: History, first: bool, oldest: Option<nat>, o: Origin, s: nat)
    requires Acyclic(h)
    ensures var n := NextOf(h, first, oldest, o, s); n.Some? ==> h.height(n.value.0.commit) < h.height(o.commit)
  {
    DecideFromParents(h, o, ParentCount(h, o.commit, first, oldest), 0, []);
    match PassingOf(h, first, oldest, o)
    case Whole(p) =>
    case Standard(ps) => FirstKeptFrom(h, o, ps, s);
  }

  /** The line that is blamed in the end has the text of the line asked about. */
  lemma {:induction false} TraceKeepsText(h: History, first: bool, oldest: Option<nat>, o: Origin, s: nat)
    requires Acyclic(h) && ValidDiffs(h) && s < |h.text(o)|
    ensures var (o', s') := Trace(h, first, oldest, o, s); s' < |h.text(o')| && h.text(o')[s'] == h.text(o)[s]
    decreases h.height(o.commit)
  {
    DecideFromParents(h, o, ParentCount(h, o.commit, first, oldest), 0, []);
    match PassingOf(h, first, oldest, o) {
      case Whole(p) =>
      case Standard(ps) => FirstKeptText(h, o, ps, s);
    }
    var n := NextOf(h, first, oldest, o, s);
    if n.Some? {
      NextIsOlder(h, first, oldest, o, s);
      TraceKeepsText(h, first, oldest, n.value.0, n.value.1);
    }
  }

  /** Nobody else can be blamed for the line a trace ends at: the origin has no
      parent file with its blob, and the line is in a hunk of every candidate. */
  lemma {:induction false} TraceEndsAtCulprit(h: History, first: bool, oldest: Option<nat>, o: Origin, s: nat)
    requires Acyclic(h)
    ensures var (o', s') := Trace(h, first, oldest, o, s); NextOf(h, first, oldest, o', s').None?
    decreases h.height(o.commit)
  {
    var n := NextOf(h, first, oldest, o, s);
    if n.Some? {
      NextIsOlder(h, first, oldest, o, s);
      TraceEndsAtCulprit(h, first, oldest, n.value.0, n.value.1);
    }
  }
}
