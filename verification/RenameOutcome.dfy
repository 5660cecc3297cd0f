/** Rename detection as a whole: what the rewrite loop keeps and ends with, and
    git_diff_find_similar. */
module RenameOutcome {
  import opened Common
  import opened RenameMatch
  import opened RenameRewrite
  import opened RenameCarried
  import opened RenameFates

  /** Everything the rewrite loop keeps. */
  ghost predicate Kept(r: Rewriting, ds0: seq<Delta>, match0: seq<Match>, src2tgt: seq<Match>, o: Options, t: nat) {
    && t <= |r.ds| && Sound(r, ds0, match0, src2tgt, t) && Credited(r, ds0, match0, o)
    && Linked(match0, src2tgt) && Exact(r, ds0, match0, o, t) && Counted(r, t) && Leaves(r, ds0, match0, o, t)
    && OldFiles(r.ds) == OldFiles(ds0) && NewFiles(r.ds) == NewFiles(ds0)
  }

  lemma StepKept(r: Rewriting, ds0: seq<Delta>, match0: seq<Match>, src2tgt: seq<Match>, o: Options, t: nat)
    requires t < |r.ds| && Kept(r, ds0, match0, src2tgt, o, t)
    requires forall u :: 0 <= u < |ds0| ==> Sensible(ds0[u])
    requires forall u :: 0 <= u < |ds0| && match0[u].similarity > 0 ==> ds0[u].isTarget
    ensures Ranges(r, src2tgt) && Kept(Step(r, src2tgt, o, t), ds0, match0, src2tgt, o, t + 1)
  {
    SoundParts(r, ds0, match0, src2tgt, t);
    hide OldFiles, NewFiles, Step, Credited, Exact, Counted, InShape, Distinct, Faithful, Moved, Linked, Ranges, Sensible, Sound, Leaves;
    StepSound(r, ds0, match0, src2tgt, o, t);
    StepCredited(r, ds0, match0, src2tgt, o, t);
    StepExact(r, ds0, match0, src2tgt, o, t);
    StepLeaves(r, ds0, match0, src2tgt, o, t);
    StepConserves(r, src2tgt, o, t);
    StepCounted(r, src2tgt, o, t);
  }

  /** So does the whole rewrite loop. */
  lemma {:induction false} StepsKept(r: Rewriting, ds0: seq<Delta>, match0: seq<Match>, src2tgt: seq<Match>, o: Options, n: nat)
    requires n <= |r.ds| && Ranges(r, src2tgt) && Kept(r, ds0, match0, src2tgt, o, 0)
    requires forall u :: 0 <= u < |ds0| ==> Sensible(ds0[u])
    requires |ds0| == |match0| && forall u :: 0 <= u < |ds0| && match0[u].similarity > 0 ==> ds0[u].isTarget
    ensures Kept(Steps(r, src2tgt, o, n), ds0, match0, src2tgt, o, n)
  {
    hide Kept, Sensible, Step, Steps, Ranges;
    if n == 0 {
      StepsNone(r, src2tgt, o);
    } else {
      StepsKept(r, ds0, match0, src2tgt, o, n - 1);
      StepsNext(r, src2tgt, o, n - 1);
      StepKept(Steps(r, src2tgt, o, n - 1), ds0, match0, src2tgt, o, n - 1);
    }
  }

  /** The labelled diff and the matching are where the rewrite loop may start. */
  lemma StartKept(ds: seq<Delta>, match0: seq<Match>, src2tgt: seq<Match>, o: Options, rewrites: nat)
    requires |ds| == |match0| == |src2tgt| < 0x1_0000_0000 && rewrites <= |ds|
    requires rewrites == 0 ==> forall u :: 0 <= u < |ds| ==> !ds[u].toSplit
    requires Linked(match0, src2tgt) && Linked(src2tgt, match0)
    requires forall u :: 0 <= u < |ds| ==> Sensible(ds[u])
    requires forall u :: 0 <= u < |ds| && match0[u].similarity > 0 ==>
               ds[u].isTarget && match0[u].idx < |ds| && ds[match0[u].idx].isSource
    ensures Kept(Rewriting(ds, match0, rewrites, 0), ds, match0, src2tgt, o, 0)
  {
    hide OldFiles, NewFiles;
    StartExact(ds, match0, o, rewrites);
    StartSound(ds, match0, src2tgt, o, rewrites);
    hide Exact, Sound, Credited, Sensible, Linked;
  }

  lemma StartSound(ds: seq<Delta>, match0: seq<Match>, src2tgt: seq<Match>, o: Options, rewrites: nat)
    requires |ds| == |match0| == |src2tgt| < 0x1_0000_0000 && rewrites <= |ds|
    requires rewrites == 0 ==> forall u :: 0 <= u < |ds| ==> !ds[u].toSplit
    requires Linked(match0, src2tgt) && Linked(src2tgt, match0)
    requires forall u :: 0 <= u < |ds| ==> Sensible(ds[u])
    requires forall u :: 0 <= u < |ds| && match0[u].similarity > 0 ==>
               ds[u].isTarget && match0[u].idx < |ds| && ds[match0[u].idx].isSource
    ensures var r := Rewriting(ds, match0, rewrites, 0);
            Sound(r, ds, match0, src2tgt, 0) && Credited(r, ds, match0, o) && Counted(r, 0)
  {
  }

  /** The labels of a diff. */
  function LabelsOf(ds: seq<Delta>, limit: nat): (l: Labels)
    ensures |l.isSource| == |l.isTarget| == |ds|
  {
    Labels(seq(|ds|, i requires 0 <= i < |ds| => ds[i].isSource), seq(|ds|, i requires 0 <= i < |ds| => ds[i].isTarget), limit)
  }

  /** The diff with all its deltas labelled. */
  ghost function AllLabelled(ds: seq<Delta>, o: Options, measured: nat -> Option<nat>): (ds': seq<Delta>)
    ensures |ds'| == |ds|
  {
    seq(|ds|, i requires 0 <= i < |ds| => Label(ds[i], o, measured(i)))
  }

  /** A one-to-one matching of labelled, scored pairs in which every examined pair has an
      end that is matched at least as well. */
  ghost predicate Stable(ds: seq<Delta>, matched: seq<Match>, back: seq<Match>, score: (nat, nat) -> int, limit: nat) {
    && |matched| == |ds| && Matching(matched, back, score) && Labelled(matched, LabelsOf(ds, limit))
    && forall s: nat, t: nat :: Pair(score, LabelsOf(ds, limit), s, t) ==> Content(matched, back, score, s, t)
  }

  /** Two rewritten files, a deleted one and a new one. */
  function PassedOn(a: File, b: File, c: File, n: File): seq<Delta> {
    var rewritten := Delta(Modified, 0, 2, a, n, false, false, false, false, false);
    [rewritten, rewritten.(oldFile := b),
     Delta(Deleted, 0, 1, c, NoFile(c.path), false, false, false, false, false),
     Delta(Added, 0, 1, NoFile(n.path), n, false, false, false, false, false)]
  }

  /** They pass their content on, 2 to 1 to 0 to 3. */
  ghost predicate ScoresPassedOn(score: (nat, nat) -> int) {
    forall s, t :: score(s, t) == if (s, t) in {(2, 1), (1, 0), (0, 3)} then 90 else 0
  }

  /** The four deltas with their labels: all but the new file are sources, all but the
      deleted one targets. */
  ghost predicate PassedOnLabelled(ds: seq<Delta>, a: File, b: File, c: File, n: File) {
    && |ds| == 4
    && ds[0] == Delta(Modified, 0, 2, a, n, false, true, true, true, true) && ds[1] == ds[0].(oldFile := b)
    && ds[2] == Delta(Deleted, 0, 1, c, NoFile(c.path), false, false, true, false, false)
    && ds[3] == Delta(Added, 0, 1, NoFile(n.path), n, false, false, false, true, false)
  }

  lemma PassedOnLabels(a: File, b: File, c: File, n: File, o: Options, measured: nat -> Option<nat>)
    requires IsBlob(a.mode) && IsBlob(b.mode) && IsBlob(c.mode) && IsBlob(n.mode)
    requires o.findRewrites && o.breakRewrites && o.breakThreshold > 0 && forall i :: measured(i) == Some(0)
    ensures PassedOnLabelled(AllLabelled(PassedOn(a, b, c, n), o, measured), a, b, c, n)
  {
    var ds, l := PassedOn(a, b, c, n), AllLabelled(PassedOn(a, b, c, n), o, measured);
    assert |ds| == 4 && measured(0) == measured(1) == Some(0);
    assert l[0] == Label(ds[0], o, measured(0)) && l[1] == Label(ds[1], o, measured(1));
    assert l[2] == Label(ds[2], o, measured(2)) && l[3] == Label(ds[3], o, measured(3));
    hide IsBlob;
  }

  /** Only one matching can be the outcome. */
  lemma PassedOnMatching(ds: seq<Delta>, matched: seq<Match>, back: seq<Match>, score: (nat, nat) -> int, limit: nat)
    requires |ds| == 4 && limit >= 2 && ScoresPassedOn(score) && Stable(ds, matched, back, score, limit)
    requires forall i :: 0 <= i < 4 ==> ds[i].isSource == (i != 3) && ds[i].isTarget == (i != 2)
    ensures matched[0] == Match(1, 90) && matched[1] == Match(2, 90) && matched[2].similarity == 0 && matched[3] == Match(0, 90)
    ensures |back| == 4 && back[0] == Match(3, 90) && back[1] == Match(0, 90) && back[2] == Match(1, 90) && back[3].similarity == 0
  {
    PassedOnPair(ds, matched, back, score, limit, 1, 0);
    PassedOnPair(ds, matched, back, score, limit, 2, 1);
    PassedOnPair(ds, matched, back, score, limit, 0, 3);
  }

  lemma PassedOnContent(ds: seq<Delta>, matched: seq<Match>, back: seq<Match>, score: (nat, nat) -> int, limit: nat, s: nat, t: nat)
    requires |ds| == 4 && limit >= 2 && ScoresPassedOn(score) && Stable(ds, matched, back, score, limit)
    requires forall i :: 0 <= i < 4 ==> ds[i].isSource == (i != 3) && ds[i].isTarget == (i != 2)
    requires (s, t) in {(2, 1), (1, 0), (0, 3)}
    ensures |matched| == |back| == 4 && Matching(matched, back, score) && score(s, t) == 90 && Content(matched, back, score, s, t)
  {
    hide Labelled, Content;
    assert score(s, t) == 90;
    assert Pair(score, LabelsOf(ds, limit), s, t);
  }

  lemma PassedOnPair(ds: seq<Delta>, matched: seq<Match>, back: seq<Match>, score: (nat, nat) -> int, limit: nat, s: nat, t: nat)
    requires |ds| == 4 && limit >= 2 && ScoresPassedOn(score) && Stable(ds, matched, back, score, limit)
    requires forall i :: 0 <= i < 4 ==> ds[i].isSource == (i != 3) && ds[i].isTarget == (i != 2)
    requires (s, t) in {(2, 1), (1, 0), (0, 3)}
    ensures |back| == 4 && matched[t] == Match(s, 90) && back[s] == Match(t, 90)
  {
    hide Stable;
    PassedOnContent(ds, matched, back, score, limit, s, t);
    if matched[t].similarity > 0 { assert score(matched[t].idx, t) > 0; }
    if back[s].similarity > 0 { assert score(s, back[s].idx) > 0; }
  }

  /** A match whose source is a matched target itself can be lost.  For these four deltas
      every run of FindBestMatches matches 0 to 1, 1 to 2 and 3 to 0.  The swap at 0
      re-points target 3 to 1, the swap at 1 moves the file on to 2, but only the first
      target of a source is followed, so that 3 finds 1 renamed and stays an addition. */
  lemma LostRename(a: File, b: File, c: File, n: File, o: Options, measured: nat -> Option<nat>,
                   score: (nat, nat) -> int, matched: seq<Match>, back: seq<Match>)
    requires IsBlob(a.mode) && IsBlob(b.mode) && IsBlob(c.mode) && IsBlob(n.mode)
    requires o.findRewrites && o.breakRewrites && o.breakThreshold > 0 && forall i :: measured(i) == Some(0)
    requires o.renameThreshold <= 90 && o.rewriteThreshold <= 90 && o.limit >= 2
    requires ScoresPassedOn(score) && Stable(AllLabelled(PassedOn(a, b, c, n), o, measured), matched, back, score, o.limit)
    ensures var ds := AllLabelled(PassedOn(a, b, c, n), o, measured);
            var r := Rewriting(ds, matched, 2, 0);
            && |matched| == |ds| == 4 && matched[3] == Match(0, 90) && ds[0].oldFile == a
            && Ranges(r, back)
            && Steps(r, back, o, 4).ds[3].status == Added
            && Steps(r, back, o, 4).ds[2].status == Deleted && Steps(r, back, o, 4).ds[2].oldFile == a
  {
    PassedOnLabels(a, b, c, n, o, measured);
    hide PassedOn;
    PassedOnMatching(AllLabelled(PassedOn(a, b, c, n), o, measured), matched, back, score, o.limit);
    PassedOnSteps(a, b, c, n, o, AllLabelled(PassedOn(a, b, c, n), o, measured), matched, back);
  }

  lemma {:induction false} PassedOnSteps(a: File, b: File, c: File, n: File, o: Options, ds: seq<Delta>, matched: seq<Match>, back: seq<Match>)
    requires o.renameThreshold <= 90 && o.rewriteThreshold <= 90
    requires PassedOnLabelled(ds, a, b, c, n) && |matched| == |back| == 4
    requires matched[0] == Match(1, 90) && matched[1] == Match(2, 90) && matched[2].similarity == 0 && matched[3] == Match(0, 90)
    requires back[0] == Match(3, 90) && back[1] == Match(0, 90) && back[2] == Match(1, 90) && back[3].similarity == 0
    ensures var r := Rewriting(ds, matched, 2, 0);
            && Ranges(r, back)
            && Steps(r, back, o, 4).ds[3].status == Added
            && Steps(r, back, o, 4).ds[2].status == Deleted && Steps(r, back, o, 4).ds[2].oldFile == a
  {
    var r0 := Rewriting(ds, matched, 2, 0);
    assert Ranges(r0, back);
    assert Steps(r0, back, o, 0) == r0;
    var r1 := Steps(r0, back, o, 1);
    assert CaseOf(r0, back, o, 0) == SwapOne;
    assert r1.ds == [MakeRename(ds[0], ds[1], 90), ds[0], ds[2], ds[3]];
    assert r1.tgt2src == matched[3 := Match(1, 90)];
    var r2 := Steps(r0, back, o, 2);
    assert CaseOf(r1, back, o, 1) == RenameSwapDeleted;
    assert r2.ds == [r1.ds[0], MakeRename(ds[0], ds[2], 90), ds[2].(oldFile := a, newFile := NoFile(a.path)), ds[3]];
    assert r2.tgt2src == r1.tgt2src;
    var r3 := Steps(r0, back, o, 3);
    assert CaseOf(r2, back, o, 2) == Nothing && CaseOf(r3, back, o, 3) == Nothing;
  }

  /** d is a rename that the match of target u becomes. */
  ghost predicate CarriedAs(d: Delta, ds0: seq<Delta>, matched: seq<Match>, o: Options, u: nat)
    requires Fits(ds0, matched)
  {
    u < |matched| && Carried(ds0, matched, o, u) && RenamedAs(d, ds0, matched, u)
  }

  /** What the renames in the final list are: the carried matches of the labelled diff.
      Each joins the two files of a matched pair that scores high enough. */
  ghost predicate RenamesAsMatched(out: seq<Delta>, ds0: seq<Delta>, matched: seq<Match>, o: Options) {
    && Fits(ds0, matched)
    && (forall d :: d in out && d.status == Renamed ==>
          d.similarity >= Min(o.renameThreshold, o.rewriteThreshold) && exists u: nat :: CarriedAs(d, ds0, matched, o, u))
    && (forall u: nat :: u < |matched| && Carried(ds0, matched, o, u) ==> exists d :: d in out && CarriedAs(d, ds0, matched, o, u))
  }

  lemma {:induction false} InAllFinished(ds: seq<Delta>, actuallySplit: bool, newIsWorkdir: bool, d: Delta) returns (i: nat)
    requires d in AllFinished(ds, actuallySplit, newIsWorkdir) && d.status == Renamed
    ensures i < |ds| && ds[i].status == Renamed && d == Cleared(ds[i], actuallySplit)
  {
    var n := |ds| - 1;
    if d in Finished(ds[n], actuallySplit, newIsWorkdir) {
      i := n;
    } else {
      i := InAllFinished(ds[..n], actuallySplit, newIsWorkdir, d);
    }
  }

  lemma {:induction false} RenamedFinished(ds: seq<Delta>, actuallySplit: bool, newIsWorkdir: bool, i: nat)
    requires i < |ds| && !ds[i].toDelete && !ds[i].toSplit
    ensures Cleared(ds[i], actuallySplit) in AllFinished(ds, actuallySplit, newIsWorkdir)
  {
    hide Cleared;
    if i < |ds| - 1 {
      RenamedFinished(ds[..|ds| - 1], actuallySplit, newIsWorkdir, i);
    } else {
      var f := Finished(ds[i], actuallySplit, newIsWorkdir);
      assert f == [Cleared(ds[i], actuallySplit)];
      assert f[0] in f;
    }
  }

  lemma ClearedRename(d: Delta, actuallySplit: bool, before: seq<Delta>, matched: seq<Match>, u: nat)
    requires RenamedAs(d, before, matched, u)
    ensures RenamedAs(Cleared(d, actuallySplit), before, matched, u)
    ensures Cleared(d, actuallySplit).similarity == d.similarity
  {
  }

  /** The outcome of the rewrite loop: every delta that is renamed is carried and as
      matched, and every carried target is renamed. */
  ghost predicate Renamings(ds: seq<Delta>, ds0: seq<Delta>, match0: seq<Match>, o: Options) {
    && Fits(ds0, match0) && |ds| == |ds0|
    && forall u: nat :: u < |ds| ==>
      && (ds[u].status == Renamed <==> Carried(ds0, match0, o, u))
      && (ds[u].status == Renamed ==>
            && RenamedAs(ds[u], ds0, match0, u) && !ds[u].toDelete && !ds[u].toSplit
            && ds[u].similarity >= Min(o.renameThreshold, o.rewriteThreshold))
  }

  lemma KeptRenames(r: Rewriting, ds0: seq<Delta>, match0: seq<Match>, src2tgt: seq<Match>, o: Options)
    requires Kept(r, ds0, match0, src2tgt, o, |ds0|)
    ensures Renamings(r.ds, ds0, match0, o)
  {
    ExactDone(r, ds0, match0, o);
    hide OldFiles, NewFiles, Distinct, Moved, Linked, Counted, Exact, Carried;
  }

  lemma RenamesFinished(r: Rewriting, ds0: seq<Delta>, match0: seq<Match>, src2tgt: seq<Match>, o: Options, actuallySplit: bool)
    requires Kept(r, ds0, match0, src2tgt, o, |ds0|)
    ensures RenamesAsMatched(AllFinished(r.ds, actuallySplit, o.newIsWorkdir), ds0, match0, o)
  {
    KeptRenames(r, ds0, match0, src2tgt, o);
    hide Kept, RenamesAsMatched, Renamings;
    RenamesCarried(r.ds, ds0, match0, o, actuallySplit);
  }

  lemma RenamesCarried(ds: seq<Delta>, ds0: seq<Delta>, match0: seq<Match>, o: Options, actuallySplit: bool)
    requires Renamings(ds, ds0, match0, o)
    ensures RenamesAsMatched(AllFinished(ds, actuallySplit, o.newIsWorkdir), ds0, match0, o)
  {
    hide Carried, AllFinished, Min, Cleared, RenamedAs, Finished;
    var out := AllFinished(ds, actuallySplit, o.newIsWorkdir);
    forall d | d in out && d.status == Renamed
      ensures d.similarity >= Min(o.renameThreshold, o.rewriteThreshold) && exists u: nat :: CarriedAs(d, ds0, match0, o, u)
    {
      var u := InAllFinished(ds, actuallySplit, o.newIsWorkdir, d);
      ClearedRename(ds[u], actuallySplit, ds0, match0, u);
      assert CarriedAs(d, ds0, match0, o, u);
    }
    forall u: nat | u < |match0| && Carried(ds0, match0, o, u) ensures exists d :: d in out && CarriedAs(d, ds0, match0, o, u) {
      RenamedFinished(ds, actuallySplit, o.newIsWorkdir, u);
      ClearedRename(ds[u], actuallySplit, ds0, match0, u);
      assert CarriedAs(Cleared(ds[u], actuallySplit), ds0, match0, o, u);
    }
  }

  /** The two lists differ in labels and self-similarity only. */
  ghost predicate Relabelled(a: seq<Delta>, b: seq<Delta>) {
    && |a| == |b|
    && forall i :: 0 <= i < |a| ==>
      && a[i].status == b[i].status && a[i].oldFile == b[i].oldFile && a[i].newFile == b[i].newFile && a[i].toDelete == b[i].toDelete
  }

  lemma {:induction false} RelabelledFiles(a: seq<Delta>, b: seq<Delta>)
    requires Relabelled(a, b)
    ensures OldFiles(a) == OldFiles(b) && NewFiles(a) == NewFiles(b)
  {
    if a != [] {
      RelabelledFiles(a[1..], b[1..]);
      assert OldSide(a[0]) == OldSide(b[0]) && NewSide(a[0]) == NewSide(b[0]);
      hide OldSide, NewSide;
    }
  }

  ghost function Unmatched(n: nat): (m: seq<Match>)
    ensures |m| == n
  {
    seq(n, _ => Match(0, 0))
  }

  lemma NothingMatched(out: seq<Delta>, ds0: seq<Delta>, o: Options)
    requires forall i :: 0 <= i < |out| ==> out[i].status != Renamed
    ensures RenamesAsMatched(out, ds0, Unmatched(|ds0|), o)
  {
    hide Min, RenamedAs;
    var none := Unmatched(|ds0|);
    forall u: nat | u < |none| ensures !Carried(ds0, none, o, u) {
      if Together(ds0, none, o, u, u) { TogetherMatched(ds0, none, o, u, u); }
    }
  }

  /** Without sources or targets there is nothing to match. */
  lemma NothingStable(ds0: seq<Delta>, score: (nat, nat) -> int, limit: nat)
    requires (forall i :: 0 <= i < |ds0| ==> !ds0[i].isSource) || (forall i :: 0 <= i < |ds0| ==> !ds0[i].isTarget)
    ensures Stable(ds0, Unmatched(|ds0|), Unmatched(|ds0|), score, limit)
  {
  }

  lemma LabelsKeepFiles(before: seq<Delta>, ds: seq<Delta>, o: Options, measured: nat -> Option<nat>)
    requires |ds| == |before| && forall i :: 0 <= i < |before| ==> Fresh(before[i]) && ds[i] == Label(before[i], o, measured(i))
    ensures Relabelled(before, ds) && forall i :: 0 <= i < |ds| ==> Sensible(ds[i]) && ds[i].status != Renamed && !ds[i].toDelete
  {
    hide Label, Sensible, Fresh;
    forall i | 0 <= i < |ds|
      ensures Sensible(ds[i]) && ds[i].status == before[i].status != Renamed && !ds[i].toDelete && !before[i].toDelete
      ensures ds[i].oldFile == before[i].oldFile && ds[i].newFile == before[i].newFile
    {
      LabelSensible(before[i], o, measured(i));
      SensibleFresh(before[i], ds[i]);
    }
  }

  lemma SensibleFresh(d: Delta, d': Delta)
    requires Fresh(d) && Sensible(d')
    ensures !d.toDelete && !d'.toDelete && d.status != Renamed
  {
  }

  lemma StableStarts(ds: seq<Delta>, matched: seq<Match>, src2tgt: seq<Match>, score: (nat, nat) -> int, limit: nat)
    requires Stable(ds, matched, src2tgt, score, limit)
    ensures |src2tgt| == |matched| == |ds| && Linked(matched, src2tgt) && Linked(src2tgt, matched)
    ensures forall u :: 0 <= u < |ds| && matched[u].similarity > 0 ==>
              ds[u].isTarget && matched[u].idx < |ds| && ds[matched[u].idx].isSource
  {
    hide Pair, Content;
  }

  /** The list as it is when the counters say that there is nothing to split or delete. */
  lemma RenamesUnfinished(r: Rewriting, ds0: seq<Delta>, match0: seq<Match>, src2tgt: seq<Match>, o: Options)
    requires Kept(r, ds0, match0, src2tgt, o, |ds0|) && r.rewrites == r.updates == 0
    ensures RenamesAsMatched(r.ds, ds0, match0, o) && OldFiles(r.ds) == OldFiles(ds0) && NewFiles(r.ds) == NewFiles(ds0)
    ensures forall i :: 0 <= i < |r.ds| ==> !r.ds[i].toDelete
  {
    KeptRenames(r, ds0, match0, src2tgt, o);
    KeptCount(r, ds0, match0, src2tgt, o);
    hide Kept, Renamings, RenamesAsMatched;
    RenamesListed(r.ds, ds0, match0, o);
  }

  lemma NothingFits(ds0: seq<Delta>)
    ensures Fits(ds0, Unmatched(|ds0|)) && forall u :: 0 <= u < |ds0| ==> Unmatched(|ds0|)[u].similarity == 0
  {
  }

  lemma KeptFates(r: Rewriting, ds0: seq<Delta>, match0: seq<Match>, src2tgt: seq<Match>, o: Options)
    requires Kept(r, ds0, match0, src2tgt, o, |ds0|)
    ensures Leaves(r, ds0, match0, o, |match0|) && RenamesOf(r.ds, ds0, match0, o)
    ensures r.rewrites == r.updates == 0 ==> forall i :: 0 <= i < |r.ds| ==> !r.ds[i].toDelete && !r.ds[i].toSplit && r.ds[i].status != Renamed
  {
    KeptRenames(r, ds0, match0, src2tgt, o);
    hide OldFiles, NewFiles, Sound, Credited, Exact, Linked, Carried, RenamedAs, Leaves, Min;
  }

  lemma RenamesListed(ds: seq<Delta>, ds0: seq<Delta>, match0: seq<Match>, o: Options)
    requires Renamings(ds, ds0, match0, o)
    ensures RenamesAsMatched(ds, ds0, match0, o)
  {
    hide Carried, Min, RenamedAs;
    forall d | d in ds && d.status == Renamed
      ensures d.similarity >= Min(o.renameThreshold, o.rewriteThreshold) && exists u: nat :: CarriedAs(d, ds0, match0, o, u)
    {
      var u: nat :| u < |ds| && ds[u] == d;
      assert CarriedAs(ds[u], ds0, match0, o, u);
    }
    forall u: nat | u < |match0| && Carried(ds0, match0, o, u) ensures exists d :: d in ds && CarriedAs(d, ds0, match0, o, u) {
      assert ds[u] in ds && CarriedAs(ds[u], ds0, match0, o, u);
    }
  }

  lemma KeptCount(r: Rewriting, ds0: seq<Delta>, match0: seq<Match>, src2tgt: seq<Match>, o: Options)
    requires Kept(r, ds0, match0, src2tgt, o, |ds0|) && r.rewrites == r.updates == 0
    ensures OldFiles(r.ds) == OldFiles(ds0) && NewFiles(r.ds) == NewFiles(ds0)
    ensures forall i :: 0 <= i < |r.ds| ==> !r.ds[i].toDelete
  {
    hide OldFiles, NewFiles, Sound, Credited, Exact, Linked;
  }

  lemma FilesFinished(r: Rewriting, ds0: seq<Delta>, match0: seq<Match>, src2tgt: seq<Match>, o: Options, actuallySplit: bool)
    requires Kept(r, ds0, match0, src2tgt, o, |ds0|)
    ensures var out := AllFinished(r.ds, actuallySplit, o.newIsWorkdir); OldFiles(out) == OldFiles(ds0) && NewFiles(out) == NewFiles(ds0)
  {
    KeptShape(r, ds0, match0, src2tgt, o);
    AllFinishedFiles(r.ds, actuallySplit, o.newIsWorkdir);
    hide OldFiles, NewFiles, AllFinished, Sound, Credited, Exact, Counted;
  }

  lemma KeptShape(r: Rewriting, ds0: seq<Delta>, match0: seq<Match>, src2tgt: seq<Match>, o: Options)
    requires Kept(r, ds0, match0, src2tgt, o, |ds0|)
    ensures forall i :: 0 <= i < |r.ds| ==> r.ds[i].toSplit ==> r.ds[i].status == Modified
  {
    hide OldFiles, NewFiles, Credited, Exact, Counted, Distinct, Faithful, Moved, Linked;
  }

  lemma {:induction false} FinishedUnmarked(ds: seq<Delta>, actuallySplit: bool, newIsWorkdir: bool)
    ensures forall d :: d in AllFinished(ds, actuallySplit, newIsWorkdir) ==> !d.toDelete
  {
    if ds != [] {
      FinishedUnmarked(ds[..|ds| - 1], actuallySplit, newIsWorkdir);
      LastUnmarked(ds[|ds| - 1], actuallySplit, newIsWorkdir);
      hide Finished;
    }
  }

  lemma LastUnmarked(d: Delta, actuallySplit: bool, newIsWorkdir: bool)
    ensures forall f :: f in Finished(d, actuallySplit, newIsWorkdir) ==> !f.toDelete
  {
  }

  class Diff {
    var deltas: array<Delta>

    constructor (deltas: array<Delta>)
      ensures this.deltas == deltas
    {
      this.deltas := deltas;
    }

    /** git_diff_find_similar without FIND_COPIES, on a diff that holds no renames yet.
        `asked` says that some GIT_DIFF_FIND flag is set, `score` and `measured` are the
        answers of similarity_measure.  If asked, the pairs are matched in a stable way;
        the renames of the outcome are exactly the matches that are carried, and it has
        the same old files and the same new files, each as often.  What becomes of every
        other delta is told by what went in, the options and the carried matches; once
        anything was done, no mark and no stale similarity is left (`tidied`). */
    method GitDiffFindSimilar(score: (nat, nat) -> int, measured: nat -> Option<nat>, o: Options, asked: bool)
      returns (ghost matched: seq<Match>, ghost back: seq<Match>, ghost segs: seq<seq<Delta>>, ghost tidied: bool)
      requires forall i :: 0 <= i < deltas.Length ==> Fresh(deltas[i])
      modifies this, deltas
      ensures OldFiles(deltas[..]) == old(OldFiles(deltas[..])) && NewFiles(deltas[..]) == old(NewFiles(deltas[..]))
      ensures asked && 0 < old(deltas.Length) < 0x1_0000_0000 ==>
                Stable(AllLabelled(old(deltas[..]), o, measured), matched, back, score, o.limit)
      ensures RenamesAsMatched(deltas[..], AllLabelled(old(deltas[..]), o, measured), matched, o)
      ensures forall i :: 0 <= i < deltas.Length ==> !deltas[i].toDelete
      ensures !asked || old(deltas.Length) == 0 || old(deltas.Length) >= 0x1_0000_0000 ==> deltas[..] == old(deltas[..])
      ensures asked && 0 < old(deltas.Length) < 0x1_0000_0000 ==>
                && deltas[..] == Flat(segs)
                && Fates(segs, old(deltas[..]), AllLabelled(old(deltas[..]), o, measured), matched, o, measured)
                && (tidied ==> Tidied(segs, old(deltas[..]), AllLabelled(old(deltas[..]), o, measured), matched, o, measured))
                && (!tidied ==> deltas.Length == old(deltas.Length) && forall i :: 0 <= i < deltas.Length ==> deltas[i].status != Renamed)
    {
      hide *;
      tidied, segs := false, [];
      ghost var before := deltas[..];
      ghost var ds0 := AllLabelled(before, o, measured);
      matched, back := Unmatched(|before|), Unmatched(|before|);
      FreshNotRenamed(before);
      NothingMatched(before, ds0, o);
      if deltas.Length == 0 || deltas.Length >= 0x1_0000_0000 || !asked { return; }

      var numSrcs, numTgts, rewrites := LabelAll(deltas, o, measured);
      AllLabelledIs(before, deltas[..], o, measured);
      LabelsAll(before, o, measured);
      LabelsKeepFiles(before, ds0, o, measured);
      RelabelledFiles(before, ds0);
      NothingMatched(ds0, ds0, o);
      if numSrcs == 0 || numTgts == 0 {
        NothingStable(ds0, score, o.limit);
        NothingFits(ds0);
        FatesNothing(before, ds0, matched, o, measured);
        SinglesFlat(ds0);
        segs := Singles(ds0);
        return;
      }

      var l := LabelsOf(deltas[..], o.limit);
      var tgt2src, src2tgt := FindBestMatches(score, l);
      matched, back := tgt2src[..], src2tgt[..];
      StableMatches(ds0, matched, back, score, o.limit);
      StableStarts(ds0, matched, back, score, o.limit);
      StartKept(ds0, matched, back, o, rewrites);
      var updates: nat;
      ghost var start := Rewriting(ds0, matched, rewrites, 0);
      StartParts(start, ds0, matched, back, o);
      StepsKept(start, ds0, matched, back, o, |ds0|);
      rewrites, updates := Rewrite(deltas, tgt2src, src2tgt, o, rewrites);
      ghost var r := Rewriting(deltas[..], tgt2src[..], rewrites, updates);
      if rewrites > 0 || updates > 0 {
        var actuallySplit := o.breakRewrites && !o.breakForRenamesOnly;
        var onto := ApplySplitsAndDeletes(deltas, actuallySplit, o.newIsWorkdir);
        RenamesFinished(r, ds0, matched, back, o, actuallySplit);
        FilesFinished(r, ds0, matched, back, o, actuallySplit);
        FinishedUnmarked(r.ds, actuallySplit, o.newIsWorkdir);
        KeptFates(r, ds0, matched, back, o);
        FatesFinished(r, before, ds0, matched, o, measured, actuallySplit);
        FatesTidied(r, before, ds0, matched, o, measured, actuallySplit);
        FinishedFlat(r.ds, actuallySplit, o.newIsWorkdir);
        segs, tidied := Segments(r.ds, actuallySplit, o.newIsWorkdir), true;
        deltas := new Delta[|onto|](i requires 0 <= i < |onto| => onto[i]);
        assert deltas[..] == onto;
        assert forall i :: 0 <= i < deltas.Length ==> deltas[i] in onto;
      } else {
        RenamesUnfinished(r, ds0, matched, back, o);
        KeptFates(r, ds0, matched, back, o);
        FatesUnfinished(r, before, ds0, matched, o, measured);
        SinglesFlat(r.ds);
        segs := Singles(r.ds);
      }
    }
  }

  lemma LabelsAll(before: seq<Delta>, o: Options, measured: nat -> Option<nat>)
    requires forall i :: 0 <= i < |before| ==> Fresh(before[i])
    ensures LabelsOn(AllLabelled(before, o, measured), before, o, measured)
  {
    hide Fresh, Label;
  }

  lemma AllLabelledIs(before: seq<Delta>, ds: seq<Delta>, o: Options, measured: nat -> Option<nat>)
    requires |ds| == |before| && forall i :: 0 <= i < |ds| ==> ds[i] == Label(before[i], o, measured(i))
    ensures ds == AllLabelled(before, o, measured)
  {
  }

  lemma StableMatches(ds: seq<Delta>, matched: seq<Match>, back: seq<Match>, score: (nat, nat) -> int, limit: nat)
    requires |matched| == |ds| && Matching(matched, back, score) && Labelled(matched, LabelsOf(ds, limit))
    requires |back| == |matched|
    requires forall s: nat, t: nat :: Pair(score, LabelsOf(ds, limit), s, t) ==>
               Content(matched, back, score, s, t)
    ensures Stable(ds, matched, back, score, limit)
  {
  }

  lemma StartParts(r: Rewriting, ds0: seq<Delta>, match0: seq<Match>, src2tgt: seq<Match>, o: Options)
    requires Kept(r, ds0, match0, src2tgt, o, 0)
    ensures Ranges(r, src2tgt) && InShape(r, 0)
  {
  }

  lemma FreshNotRenamed(ds: seq<Delta>)
    requires forall i :: 0 <= i < |ds| ==> Fresh(ds[i])
    ensures forall i :: 0 <= i < |ds| ==> ds[i].status != Renamed && !ds[i].toDelete
  {
  }
}
