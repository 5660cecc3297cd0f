/** Rename detection, what becomes of every single delta: from the deltas that go in, the
    options and the carried matches, without the loops. */
module RenameFates {
  import opened Common
  import opened RenameMatch
  import opened RenameRewrite
  import opened RenameCarried

  // ------------------------------------------------------------- what the labels are

  /** The self-similarity that counts: the one known, or the one measured, cut to 16 bits. */
  function SelfScore(d: Delta, measured: Option<nat>): nat {
    if d.hasSelf || measured.None? then d.similarity else measured.value % 0x1_0000
  }

  /** Modified deltas are looked at if rewrites are to be found. */
  predicate Examined(d: Delta, o: Options) { d.status == Modified && (o.findRewrites || o.renamesFromRewrites) }

  /** Too little is left of the file for it to stay one delta. */
  predicate BelowBreak(d: Delta, o: Options, measured: Option<nat>) {
    o.breakRewrites && SelfScore(d, measured) < o.breakThreshold
  }

  /** Little enough is left for renames from it, and to it. */
  predicate BelowRewrite(d: Delta, o: Options, measured: Option<nat>) {
    o.renamesFromRewrites && SelfScore(d, measured) < o.rewriteThreshold
  }

  /** A modified delta is marked for splitting. */
  predicate Broken(d: Delta, o: Options, measured: Option<nat>) {
    && Examined(d, o)
    && ((BelowBreak(d, o, measured) && (IsBlob(d.oldFile.mode) || IsBlob(d.newFile.mode)))
        || (BelowRewrite(d, o, measured) && IsBlob(d.newFile.mode)))
  }

  /** A delta that files may be renamed from. */
  predicate GivesFile(d: Delta, o: Options, measured: Option<nat>) {
    IsBlob(d.oldFile.mode)
    && (d.status == Deleted || d.status == Typechange
        || (Examined(d, o) && (BelowBreak(d, o, measured) || BelowRewrite(d, o, measured))))
  }

  /** A delta that files may be renamed to. */
  predicate TakesFile(d: Delta, o: Options, measured: Option<nat>) {
    IsBlob(d.newFile.mode)
    && (d.status == Added || d.status == Unreadable || d.status == Typechange
        || (d.status == Untracked && o.forUntracked)
        || (Examined(d, o) && (BelowBreak(d, o, measured) || BelowRewrite(d, o, measured))))
  }

  /** The self-similarity that a delta has once it was labelled. */
  function LabelledScore(d: Delta, o: Options, measured: Option<nat>): nat {
    if Examined(d, o) && (IsBlob(d.oldFile.mode) || IsBlob(d.newFile.mode)) then SelfScore(d, measured) else d.similarity
  }

  lemma SourceExact(d: Delta, o: Options, measured: Option<nat>)
    requires Fresh(d)
    ensures var s := LabelSource(d, o, measured);
            && s.isSource == GivesFile(d, o, measured) && !s.isTarget && !s.toDelete
            && s.toSplit == (Examined(d, o) && BelowBreak(d, o, measured) && IsBlob(d.oldFile.mode))
            && s.status == d.status && s.nfiles == d.nfiles && s.oldFile == d.oldFile && s.newFile == d.newFile
            && SelfScore(s, measured) == SelfScore(d, measured)
            && s.similarity == (if Examined(d, o) && IsBlob(d.oldFile.mode) then SelfScore(d, measured) else d.similarity)
  {
    hide IsBlob;
  }

  lemma TargetExact(s: Delta, o: Options, measured: Option<nat>)
    requires s.status != Renamed && s.status != Copied && !s.isTarget && !s.toDelete
    requires s.toSplit ==> Examined(s, o) && BelowBreak(s, o, measured)
    ensures var d' := LabelTarget(s, o, measured);
            && d'.isTarget == TakesFile(s, o, measured) && d'.isSource == s.isSource && !d'.toDelete
            && d'.toSplit == (s.toSplit || (Examined(s, o) && IsBlob(s.newFile.mode) && (BelowBreak(s, o, measured) || BelowRewrite(s, o, measured))))
            && d'.status == s.status && d'.nfiles == s.nfiles && d'.oldFile == s.oldFile && d'.newFile == s.newFile
            && d'.similarity == (if Examined(s, o) && IsBlob(s.newFile.mode) then SelfScore(s, measured) else s.similarity)
  {
    hide IsBlob;
  }

  /** What labelling does, exactly. */
  lemma LabelExact(d: Delta, o: Options, measured: Option<nat>)
    requires Fresh(d)
    ensures var d' := Label(d, o, measured);
            && d'.isSource == GivesFile(d, o, measured) && d'.isTarget == TakesFile(d, o, measured)
            && d'.toSplit == Broken(d, o, measured) && !d'.toDelete && d'.status == d.status && d'.nfiles == d.nfiles
            && d'.oldFile == d.oldFile && d'.newFile == d.newFile && d'.similarity == LabelledScore(d, o, measured)
  {
    SourceExact(d, o, measured);
    TargetExact(LabelSource(d, o, measured), o, measured);
    hide IsBlob, LabelSource, LabelTarget, SelfScore;
  }

  /** A blob is a regular file, whatever its permissions. */
  lemma BlobMode(mode: nat)
    requires mode < 0x1_0000
    ensures IsBlob(mode) <==> 0x8000 <= mode < 0x9000
  {
  }

  // ------------------------------------------------------------------ who is touched

  /** The file of delta u is taken by a carried match. */
  ghost predicate TakenFrom(ds0: seq<Delta>, m: seq<Match>, o: Options, u: nat)
    requires Fits(ds0, m)
  {
    exists t: nat :: t < |m| && Carried(ds0, m, o, t) && m[t].idx == u
  }

  /** Delta u takes part in a renaming before t: as the target, or as the place that the
      file is found at. */
  ghost predicate Touched(ds0: seq<Delta>, m: seq<Match>, o: Options, u: nat, t: nat)
    requires Fits(ds0, m) && t <= |m|
  {
    exists q: nat :: q < t && TouchedBy(ds0, m, o, u, q)
  }

  ghost predicate TouchedBy(ds0: seq<Delta>, m: seq<Match>, o: Options, u: nat, q: nat)
    requires Fits(ds0, m) && q < |m|
  {
    InTurn(ds0, m, o, q) && (q == u || Place(ds0, m, o, q) == u)
  }

  /** The place that a file is found at is the source of some carried match. */
  lemma {:induction false} PlaceTaken(ds0: seq<Delta>, m: seq<Match>, o: Options, q: nat)
    requires Fits(ds0, m) && q < |m| && InTurn(ds0, m, o, q)
    ensures TakenFrom(ds0, m, o, Place(ds0, m, o, q))
    decreases q
  {
    InTurnCarried(ds0, m, o, q);
    PlaceMeans(ds0, m, o, q);
    hide InTurn, Carried, Place;
    var p := m[q].idx;
    if p < q && InTurn(ds0, m, o, p) { PlaceTaken(ds0, m, o, p); }
  }

  /** The same, with a match that is not behind q. */
  lemma {:induction false} PlaceTakenBefore(ds0: seq<Delta>, m: seq<Match>, o: Options, q: nat) returns (t: nat)
    requires Fits(ds0, m) && q < |m| && InTurn(ds0, m, o, q)
    ensures t <= q && InTurn(ds0, m, o, t) && m[t].idx == Place(ds0, m, o, q)
    decreases q
  {
    PlaceMeans(ds0, m, o, q);
    hide InTurn, Place;
    var p := m[q].idx;
    if p < q && InTurn(ds0, m, o, p) { t := PlaceTakenBefore(ds0, m, o, p); } else { t := q; }
  }

  /** A match whose source is matched to nothing itself: it becomes a rename exactly if it
      scores at least the threshold, which is that for renames if the target is new, and
      that for rewrites if the target is an old file that no match takes. */
  lemma PlainCarried(ds0: seq<Delta>, m: seq<Match>, o: Options, u: nat)
    requires Fits(ds0, m) && u < |m| && m[u].similarity > 0 && Movable(ds0[m[u].idx]) && m[m[u].idx].similarity == 0
    ensures NewOnly(ds0[u]) ==> (Carried(ds0, m, o, u) <==> m[u].similarity >= o.renameThreshold)
    ensures !NewOnly(ds0[u]) && (forall t: nat :: t < |m| && m[t].similarity > 0 ==> m[t].idx != u) ==>
              (Carried(ds0, m, o, u) <==> m[u].similarity >= o.rewriteThreshold)
  {
    var p := m[u].idx;
    UnmatchedStays(ds0, m, o, p);
    PlaceMeans(ds0, m, o, u);
    NotTogether(ds0, m, o, u);
    CarriedMeans(ds0, m, o, u);
    NewMeans(ds0, m, o, u);
    hide Place, AsNew, Together, Carried;
  }

  lemma NotTogether(ds0: seq<Delta>, m: seq<Match>, o: Options, u: nat)
    requires Fits(ds0, m) && u < |m| && m[u].similarity > 0 && m[m[u].idx].similarity == 0
    ensures !Together(ds0, m, o, u, u)
  {
    UnmatchedStays(ds0, m, o, m[u].idx);
    if Together(ds0, m, o, u, u) {
      var q := SwappedWith(ds0, m, o, u);
      SwapMeans(ds0, m, o, u, q);
    }
  }

  lemma {:induction false} SwappedWith(ds0: seq<Delta>, m: seq<Match>, o: Options, u: nat) returns (q: nat)
    requires Fits(ds0, m) && u < |m| && Together(ds0, m, o, u, u)
    ensures q < u && SwappedBy(ds0, m, o, u, q)
  {
    q :| q < u && SwappedBy(ds0, m, o, u, q);
  }

  lemma SwapMeans(ds0: seq<Delta>, m: seq<Match>, o: Options, u: nat, q: nat)
    requires Fits(ds0, m) && q < u < |m| && SwappedBy(ds0, m, o, u, q)
    ensures InTurn(ds0, m, o, q) && Place(ds0, m, o, q) == u && WaitsAt(ds0, m, o, u, q) == q && m[u].similarity > o.rewriteThreshold
    ensures WaitsAt(ds0, m, o, u, q) == (var p := m[u].idx; if p < q && InTurn(ds0, m, o, p) then Place(ds0, m, o, p) else p)
  {
    hide Place, InTurn;
  }

  lemma {:induction false} GivenBy(ds0: seq<Delta>, m: seq<Match>, o: Options, u: nat) returns (q: nat)
    requires Fits(ds0, m) && u < |m| && AsNew(ds0, m, o, u, u) && !NewOnly(ds0[u])
    ensures q < u && InTurn(ds0, m, o, q) && Place(ds0, m, o, q) == u
  {
    q :| q < u && GivesTo(ds0, m, o, u, q);
  }

  lemma NewMeans(ds0: seq<Delta>, m: seq<Match>, o: Options, u: nat)
    requires Fits(ds0, m) && u < |m|
    ensures NewOnly(ds0[u]) ==> AsNew(ds0, m, o, u, u)
    ensures !NewOnly(ds0[u]) && (forall t: nat :: t < u && m[t].similarity > 0 ==> m[t].idx != u) ==> !AsNew(ds0, m, o, u, u)
  {
    if !NewOnly(ds0[u]) && AsNew(ds0, m, o, u, u) {
      var q := GivenBy(ds0, m, o, u);
      hide InTurn, Place, AsNew;
      var t := PlaceTakenBefore(ds0, m, o, q);
      InTurnMatched(ds0, m, o, t);
    }
  }

  /** Nothing but v is matched to u. */
  ghost predicate OnlyFor(m: seq<Match>, u: nat, v: nat) {
    forall t: nat :: t < |m| && m[t].similarity > 0 && m[t].idx == u ==> t == v
  }

  /** Two old files that are each other's source, and nobody else's: each becomes a rename
      exactly if it scores at least the threshold for rewrites. */
  lemma ExchangedCarried(ds0: seq<Delta>, m: seq<Match>, o: Options, u: nat, v: nat)
    requires Fits(ds0, m) && u < v < |m| && m[u].similarity > 0 && m[v].similarity > 0 && m[u].idx == v && m[v].idx == u
    requires IsSplit(ds0[u]) && IsSplit(ds0[v]) && !NewOnly(ds0[u]) && !NewOnly(ds0[v])
    requires OnlyFor(m, u, v) && OnlyFor(m, v, u)
    ensures Carried(ds0, m, o, u) <==> m[u].similarity >= o.rewriteThreshold
    ensures Carried(ds0, m, o, v) <==> m[v].similarity >= o.rewriteThreshold
  {
    FirstExchanged(ds0, m, o, u, v);
    PlaceMeans(ds0, m, o, v);
    CarriedMeans(ds0, m, o, v);
    var firstInTurn := InTurn(ds0, m, o, u);
    assert !AsNew(ds0, m, o, v, v) by {
      if AsNew(ds0, m, o, v, v) {
        var q := GivenAsNew(ds0, m, o, v);
        PlacedBy(ds0, m, o, v, u, q);
      }
    }
    assert Together(ds0, m, o, v, v) ==> m[v].similarity > o.rewriteThreshold by {
      if Together(ds0, m, o, v, v) {
        var q := SwappedWith(ds0, m, o, v);
        SwapMeans(ds0, m, o, v, q);
      }
    }
    hide Place, AsNew, Together, Carried;
  }

  lemma FirstExchanged(ds0: seq<Delta>, m: seq<Match>, o: Options, u: nat, v: nat)
    requires Fits(ds0, m) && u < v < |m| && m[u].similarity > 0 && m[u].idx == v && IsSplit(ds0[v]) && !NewOnly(ds0[u])
    requires OnlyFor(m, u, v)
    ensures Place(ds0, m, o, u) == v && !AsNew(ds0, m, o, u, u)
    ensures InTurn(ds0, m, o, u) <==> m[u].similarity >= o.rewriteThreshold
    ensures Carried(ds0, m, o, u) <==> InTurn(ds0, m, o, u)
  {
    PlaceMeans(ds0, m, o, u);
    CarriedMeans(ds0, m, o, u);
    NewMeans(ds0, m, o, u);
    if Together(ds0, m, o, u, u) {
      var q := SwappedWith(ds0, m, o, u);
      SwapMeans(ds0, m, o, u, q);
      var t := PlaceTakenBefore(ds0, m, o, q);
      InTurnMatched(ds0, m, o, t);
    }
    hide Place, AsNew, Together, Carried;
  }

  /** What is found at v was looked for by u alone. */
  lemma {:induction false} PlacedBy(ds0: seq<Delta>, m: seq<Match>, o: Options, v: nat, u: nat, q: nat)
    requires Fits(ds0, m) && u < v < |m| && q < v && InTurn(ds0, m, o, q) && Place(ds0, m, o, q) == v
    requires OnlyFor(m, v, u) && OnlyFor(m, u, v)
    ensures q == u
    decreases q
  {
    PlaceMeans(ds0, m, o, q);
    InTurnMatched(ds0, m, o, q);
    hide Place, InTurn;
    var p := m[q].idx;
    if p < q && InTurn(ds0, m, o, p) { PlacedBy(ds0, m, o, v, u, p); }
  }

  lemma {:induction false} GivenAsNew(ds0: seq<Delta>, m: seq<Match>, o: Options, u: nat) returns (q: nat)
    requires Fits(ds0, m) && u < |m| && AsNew(ds0, m, o, u, u) && !NewOnly(ds0[u])
    ensures q < u && InTurn(ds0, m, o, q) && Place(ds0, m, o, q) == u && AsNew(ds0, m, o, q, q)
  {
    q :| q < u && GivesTo(ds0, m, o, u, q);
  }

  lemma InTurnMatched(ds0: seq<Delta>, m: seq<Match>, o: Options, t: nat)
    requires Fits(ds0, m) && t < |m| && InTurn(ds0, m, o, t)
    ensures m[t].similarity > 0
  {
  }

  lemma InTurnCarried(ds0: seq<Delta>, m: seq<Match>, o: Options, q: nat)
    requires Fits(ds0, m) && q < |m| && InTurn(ds0, m, o, q)
    ensures Carried(ds0, m, o, q)
  {
  }

  lemma PlaceMeans(ds0: seq<Delta>, m: seq<Match>, o: Options, q: nat)
    requires Fits(ds0, m) && q < |m|
    ensures var p := m[q].idx; Place(ds0, m, o, q) == if p < q && InTurn(ds0, m, o, p) then Place(ds0, m, o, p) else p
  {
    hide InTurn;
  }

  lemma TouchedMeans(ds0: seq<Delta>, m: seq<Match>, o: Options, u: nat)
    requires Fits(ds0, m) && u < |m| && Touched(ds0, m, o, u, |m|)
    ensures Carried(ds0, m, o, u) || TakenFrom(ds0, m, o, u)
  {
    hide InTurn, Carried, Place, TakenFrom;
    var q: nat :| q < |m| && TouchedBy(ds0, m, o, u, q);
    InTurnCarried(ds0, m, o, q);
    PlaceTaken(ds0, m, o, q);
  }

  // ------------------------------------------------------------- what the loop leaves

  /** What is left of a delta that is not renamed itself. */
  ghost predicate Left(d0: Delta, d: Delta, o: Options) {
    || d == d0
    || (d0.status == Deleted && d == d0.(oldFile := d.oldFile, newFile := d.newFile, toDelete := d.toDelete)
        && (d.newFile == NoFile(d.oldFile.path) || (d.oldFile == d0.oldFile && d.newFile == d0.newFile)))
    || (IsSplit(d0) && d == d0.(oldFile := d.oldFile))
    || (IsSplit(d0) && d == d0.(status := if o.newIsWorkdir then Untracked else Added, nfiles := 1, oldFile := NoFile(d0.newFile.path), toSplit := false))
  }

  /** Untouched deltas are as they were, and the touched ones are renamed or left over. */
  ghost predicate Leaves(r: Rewriting, ds0: seq<Delta>, m: seq<Match>, o: Options, t: nat) {
    && Fits(ds0, m) && |r.ds| == |ds0| && t <= |m|
    && (forall u: nat :: u < |m| ==> r.ds[u] == ds0[u] || Touched(ds0, m, o, u, t))
    && (forall u: nat :: u < |m| ==> r.ds[u].status == Renamed || Left(ds0[u], r.ds[u], o))
  }

  /** One step leaves all but its target and its source alone. */
  lemma StepLeaves(r: Rewriting, ds0: seq<Delta>, m: seq<Match>, src2tgt: seq<Match>, o: Options, t: nat)
    requires t < |r.ds| && Ranges(r, src2tgt) && Exact(r, ds0, m, o, t) && InShape(r, t) && Leaves(r, ds0, m, o, t)
    requires m[t].similarity > 0 ==> r.ds[t].isTarget
    ensures Leaves(Step(r, src2tgt, o, t), ds0, m, o, t + 1)
  {
    CaseInTurn(r, ds0, m, src2tgt, o, t);
    if CaseOf(r, src2tgt, o, t) == Nothing {
      hide CaseOf, InTurn, Place, Left, InShape, Exact, Ranges;
      TouchedLater(ds0, m, o, t);
    } else {
      FoundAt(r, ds0, m, src2tgt, o, t);
      StepMovesFiles(r, src2tgt, o, t);
      forall u: nat | u < |m| ensures Step(r, src2tgt, o, t).ds[u].status == Renamed || Left(ds0[u], Step(r, src2tgt, o, t).ds[u], o) {
        StepLeft(r, ds0, src2tgt, o, t, u);
      }
      hide CaseOf, InTurn, Place, Left, InShape, Exact, Ranges, Step;
      TouchedLater(ds0, m, o, t);
      assert TouchedBy(ds0, m, o, t, t) && TouchedBy(ds0, m, o, r.tgt2src[t].idx, t);
    }
  }

  lemma TouchedLater(ds0: seq<Delta>, m: seq<Match>, o: Options, t: nat)
    requires Fits(ds0, m) && t < |m|
    ensures forall u: nat :: Touched(ds0, m, o, u, t) || TouchedBy(ds0, m, o, u, t) ==> Touched(ds0, m, o, u, t + 1)
  {
    hide TouchedBy;
  }

  /** The source at the turn of a target is the place that its file is found at. */
  lemma FoundAt(r: Rewriting, ds0: seq<Delta>, m: seq<Match>, src2tgt: seq<Match>, o: Options, t: nat)
    requires t < |r.ds| && Ranges(r, src2tgt) && Exact(r, ds0, m, o, t) && InShape(r, t) && CaseOf(r, src2tgt, o, t) != Nothing
    requires InTurn(ds0, m, o, t)
    ensures r.tgt2src[t].idx == Place(ds0, m, o, t) < |r.ds|
  {
    TargetWaits(r, src2tgt, o, t);
    hide CaseOf, InShape;
    assert ExactAt(r, ds0, m, o, t, t);
  }

  lemma StepLeft(r: Rewriting, ds0: seq<Delta>, src2tgt: seq<Match>, o: Options, t: nat, u: nat)
    requires t < |r.ds| == |ds0| && Ranges(r, src2tgt) && InShape(r, t) && CaseOf(r, src2tgt, o, t) != Nothing && u < |r.ds|
    requires r.ds[u].status == Renamed || Left(ds0[u], r.ds[u], o)
    ensures Step(r, src2tgt, o, t).ds[u].status == Renamed || Left(ds0[u], Step(r, src2tgt, o, t).ds[u], o)
  {
    TargetWaits(r, src2tgt, o, t);
    hide InShape, Repoint;
  }

  // ------------------------------------------------------------ what becomes of each

  /** d is the rename that target u was matched for. */
  ghost predicate RenamedAs(d: Delta, before: seq<Delta>, matched: seq<Match>, u: nat) {
    && u < |before| == |matched| && matched[u].similarity > 0 && matched[u].idx < |before|
    && d.status == Renamed && d.similarity == matched[u].similarity
    && d.oldFile == before[matched[u].idx].oldFile && d.newFile == before[u].newFile
  }

  /** The two stand for the same change. */
  predicate SameSides(d: Delta, b: Delta) {
    d.status == b.status && d.nfiles == b.nfiles && d.oldFile == b.oldFile && d.newFile == b.newFile
  }

  /** The deletion of the file f. */
  predicate Gone(d: Delta, f: File) { d.status == Deleted && d.nfiles == 1 && d.oldFile == f && d.newFile == NoFile(f.path) }

  /** The addition of the file f, which is an untracked file in a working directory. */
  predicate Come(d: Delta, f: File, newIsWorkdir: bool) {
    d.status == (if newIsWorkdir then Untracked else Added) && d.nfiles == 1 && d.newFile == f && d.oldFile == NoFile(f.path)
  }

  /** A delta is still one delta, or it is split in two. */
  predicate StaysAs(seg: seq<Delta>, b: Delta, splits: bool, newIsWorkdir: bool) {
    if splits then |seg| == 2 && Gone(seg[0], b.oldFile) && Come(seg[1], b.newFile, newIsWorkdir)
    else |seg| == 1 && SameSides(seg[0], b)
  }

  /** What is left of a delta that lost its file to a rename: a deletion is dropped or
      deletes another file, and a delta with a new file adds it or changes another one. */
  ghost predicate LeftOver(seg: seq<Delta>, b: Delta, splits: bool, newIsWorkdir: bool) {
    if b.status == Deleted then
      |seg| <= 1 && forall d :: d in seg ==> d.status == Deleted && (d.newFile == NoFile(d.oldFile.path) || SameSides(d, b))
    else
      (|seg| == 1 && Come(seg[0], b.newFile, newIsWorkdir)) || exists f: File :: StaysAs(seg, b.(oldFile := f), splits, newIsWorkdir)
  }

  /** What becomes of delta u: a rename if its match is carried, itself or its two halves
      if no carried match takes its file, and a rest otherwise. */
  ghost predicate Fate(seg: seq<Delta>, before: seq<Delta>, ds0: seq<Delta>, m: seq<Match>, o: Options, u: nat, splits: bool)
    requires Fits(ds0, m) && u < |m| == |before|
  {
    if Carried(ds0, m, o, u) then |seg| == 1 && RenamedAs(seg[0], ds0, m, u)
    else if !TakenFrom(ds0, m, o, u) then StaysAs(seg, before[u], splits, o.newIsWorkdir)
    else LeftOver(seg, before[u], splits, o.newIsWorkdir)
  }

  /** Splitting happens if it is asked for, and if there is something to rename at all. */
  ghost predicate Splitting(before: seq<Delta>, o: Options, measured: nat -> Option<nat>) {
    && o.breakRewrites && !o.breakForRenamesOnly
    && (exists i :: 0 <= i < |before| && GivesFile(before[i], o, measured(i)))
    && (exists i :: 0 <= i < |before| && TakesFile(before[i], o, measured(i)))
  }

  /** The outcome in segments, one for each delta that went in. */
  ghost predicate Fates(segs: seq<seq<Delta>>, before: seq<Delta>, ds0: seq<Delta>, m: seq<Match>, o: Options, measured: nat -> Option<nat>) {
    && Fits(ds0, m) && |segs| == |before| == |ds0|
    && forall u: nat :: u < |segs| ==>
         Fate(segs[u], before, ds0, m, o, u, Splitting(before, o, measured) && Broken(before[u], o, measured(u)))
  }

  function Flat(segs: seq<seq<Delta>>): seq<Delta> {
    if segs == [] then [] else Flat(segs[..|segs| - 1]) + segs[|segs| - 1]
  }

  function Segments(ds: seq<Delta>, actuallySplit: bool, newIsWorkdir: bool): (segs: seq<seq<Delta>>)
    ensures |segs| == |ds|
  {
    seq(|ds|, i requires 0 <= i < |ds| => Finished(ds[i], actuallySplit, newIsWorkdir))
  }

  lemma {:induction false} FinishedFlat(ds: seq<Delta>, actuallySplit: bool, newIsWorkdir: bool)
    ensures AllFinished(ds, actuallySplit, newIsWorkdir) == Flat(Segments(ds, actuallySplit, newIsWorkdir))
  {
    hide Finished;
    if ds != [] {
      var n := |ds| - 1;
      FinishedFlat(ds[..n], actuallySplit, newIsWorkdir);
      assert Segments(ds, actuallySplit, newIsWorkdir)[..n] == Segments(ds[..n], actuallySplit, newIsWorkdir);
    }
  }

  function Singles(ds: seq<Delta>): (segs: seq<seq<Delta>>)
    ensures |segs| == |ds|
  {
    seq(|ds|, i requires 0 <= i < |ds| => [ds[i]])
  }

  lemma {:induction false} SinglesFlat(ds: seq<Delta>)
    ensures Flat(Singles(ds)) == ds
  {
    if ds != [] {
      var n := |ds| - 1;
      SinglesFlat(ds[..n]);
      assert Singles(ds)[..n] == Singles(ds[..n]) && ds == ds[..n] + [ds[n]];
    }
  }

  lemma RenamedStays(d: Delta, ds0: seq<Delta>, m: seq<Match>, u: nat, actuallySplit: bool, newIsWorkdir: bool)
    requires RenamedAs(d, ds0, m, u) && !d.toDelete && !d.toSplit
    ensures var seg := Finished(d, actuallySplit, newIsWorkdir); |seg| == 1 && RenamedAs(seg[0], ds0, m, u)
  {
  }

  lemma UntouchedStays(b: Delta, o: Options, measured: Option<nat>, actuallySplit: bool)
    requires Fresh(b)
    ensures var seg := Finished(Label(b, o, measured), actuallySplit, o.newIsWorkdir);
            StaysAs(seg, b, actuallySplit && Broken(b, o, measured), o.newIsWorkdir)
  {
    LabelExact(b, o, measured);
    hide Label, Broken, LabelledScore, GivesFile, TakesFile;
  }

  /** A deletion is dropped, or deletes another file. */
  lemma LeftDeleted(d: Delta, b: Delta, splits: bool, actuallySplit: bool, newIsWorkdir: bool)
    requires b.status == d.status == Deleted && !d.toSplit && (d.newFile == NoFile(d.oldFile.path) || SameSides(d, b))
    ensures LeftOver(Finished(d, actuallySplit, newIsWorkdir), b, splits, newIsWorkdir)
  {
  }

  /** A delta with another old file stays, or is split. */
  lemma LeftChanged(d: Delta, b: Delta, splits: bool, actuallySplit: bool, newIsWorkdir: bool)
    requires !d.toDelete && b.status != Deleted && SameSides(d, b.(oldFile := d.oldFile)) && splits == (d.toSplit && actuallySplit)
    ensures LeftOver(Finished(d, actuallySplit, newIsWorkdir), b, splits, newIsWorkdir)
  {
    assert StaysAs(Finished(d, actuallySplit, newIsWorkdir), b.(oldFile := d.oldFile), splits, newIsWorkdir);
  }

  /** A delta whose old file went to an addition is an addition. */
  lemma LeftAdded(d: Delta, b: Delta, splits: bool, actuallySplit: bool, newIsWorkdir: bool)
    requires !d.toDelete && !d.toSplit && b.status != Deleted && Come(d, b.newFile, newIsWorkdir)
    ensures LeftOver(Finished(d, actuallySplit, newIsWorkdir), b, splits, newIsWorkdir)
  {
  }

  lemma LeftStays(b: Delta, d: Delta, o: Options, measured: Option<nat>, actuallySplit: bool)
    requires Fresh(b) && Left(Label(b, o, measured), d, o) && d.status != Renamed
    ensures var seg := Finished(d, actuallySplit, o.newIsWorkdir);
            LeftOver(seg, b, actuallySplit && Broken(b, o, measured), o.newIsWorkdir)
  {
    var d0, splits := Label(b, o, measured), actuallySplit && Broken(b, o, measured);
    LabelExact(b, o, measured);
    BrokenModified(b, o, measured);
    hide Label, LabelledScore, GivesFile, TakesFile, Broken, Finished, LeftOver, Fresh;
    if b.status == Deleted {
      LeftDeleted(d, b, splits, actuallySplit, o.newIsWorkdir);
    } else if d == d0.(oldFile := d.oldFile) {
      LeftChanged(d, b, splits, actuallySplit, o.newIsWorkdir);
    } else {
      LeftAdded(d, b, splits, actuallySplit, o.newIsWorkdir);
    }
  }

  lemma BrokenModified(b: Delta, o: Options, measured: Option<nat>)
    ensures Broken(b, o, measured) ==> b.status == Modified
  {
  }

  /** The similarity of what is not renamed is forgotten, except for modified deltas if
      rewrites are not broken up, and no mark is left. */
  ghost predicate Tidied(segs: seq<seq<Delta>>, before: seq<Delta>, ds0: seq<Delta>, m: seq<Match>, o: Options, measured: nat -> Option<nat>)
    requires Fits(ds0, m) && |segs| == |before| == |m|
  {
    && (forall u: nat, d :: u < |segs| && d in segs[u] ==> !d.toDelete && !d.toSplit && !d.isSource && !d.isTarget && !d.hasSelf)
    && forall u: nat, d :: u < |segs| && d in segs[u] && !Carried(ds0, m, o, u) ==>
         d.similarity == if d.status == Modified && !(o.breakRewrites && !o.breakForRenamesOnly) then LabelledScore(before[u], o, measured(u)) else 0
  }

  lemma LeftTidied(b: Delta, d: Delta, o: Options, measured: Option<nat>, actuallySplit: bool, x: Delta)
    requires Fresh(b) && Left(Label(b, o, measured), d, o) && d.status != Renamed && x in Finished(d, actuallySplit, o.newIsWorkdir)
    ensures x.similarity == if x.status == Modified && !actuallySplit then LabelledScore(b, o, measured) else 0
  {
    LabelExact(b, o, measured);
    hide Label, LabelledScore, GivesFile, TakesFile, Broken;
  }

  lemma FinishedTidied(d: Delta, actuallySplit: bool, newIsWorkdir: bool)
    ensures forall x :: x in Finished(d, actuallySplit, newIsWorkdir) ==> !x.toDelete && !x.toSplit && !x.isSource && !x.isTarget && !x.hasSelf
  {
  }

  /** The labelled diff. */
  ghost predicate LabelsOn(ds0: seq<Delta>, before: seq<Delta>, o: Options, measured: nat -> Option<nat>) {
    |ds0| == |before| && forall i: nat :: i < |before| ==> Fresh(before[i]) && ds0[i] == Label(before[i], o, measured(i))
  }

  /** The outcome of the rewrite loop: the renamed deltas are the carried ones. */
  ghost predicate RenamesOf(ds: seq<Delta>, ds0: seq<Delta>, m: seq<Match>, o: Options) {
    && Fits(ds0, m) && |ds| == |ds0|
    && forall u: nat :: u < |ds| ==>
      && (ds[u].status == Renamed <==> Carried(ds0, m, o, u))
      && (ds[u].status == Renamed ==> RenamedAs(ds[u], ds0, m, u) && !ds[u].toDelete && !ds[u].toSplit)
  }

  lemma FatesFinished(r: Rewriting, before: seq<Delta>, ds0: seq<Delta>, m: seq<Match>, o: Options, measured: nat -> Option<nat>, actuallySplit: bool)
    requires LabelsOn(ds0, before, o, measured) && Leaves(r, ds0, m, o, |m|) && RenamesOf(r.ds, ds0, m, o)
    requires actuallySplit == (o.breakRewrites && !o.breakForRenamesOnly)
    requires (exists i :: 0 <= i < |ds0| && ds0[i].isSource) && (exists i :: 0 <= i < |ds0| && ds0[i].isTarget)
    ensures Fates(Segments(r.ds, actuallySplit, o.newIsWorkdir), before, ds0, m, o, measured)
  {
    hide Carried, Finished, Left, Fate, Splitting, Broken, Fresh, RenamesOf, Label, GivesFile, TakesFile, Touched;
    SplittingIs(before, ds0, o, measured);
    forall u: nat | u < |m|
      ensures Fate(Finished(r.ds[u], actuallySplit, o.newIsWorkdir), before, ds0, m, o, u, actuallySplit && Broken(before[u], o, measured(u)))
    {
      OneFate(r, before, ds0, m, o, measured, actuallySplit, u);
    }
  }

  lemma FatesTidied(r: Rewriting, before: seq<Delta>, ds0: seq<Delta>, m: seq<Match>, o: Options, measured: nat -> Option<nat>, actuallySplit: bool)
    requires LabelsOn(ds0, before, o, measured) && Leaves(r, ds0, m, o, |m|) && RenamesOf(r.ds, ds0, m, o)
    requires actuallySplit == (o.breakRewrites && !o.breakForRenamesOnly)
    ensures Tidied(Segments(r.ds, actuallySplit, o.newIsWorkdir), before, ds0, m, o, measured)
  {
    hide Carried, LabelledScore, Finished, Left, Fresh, Label, Touched, RenamedAs;
    var segs := Segments(r.ds, actuallySplit, o.newIsWorkdir);
    forall u: nat, d: Delta | u < |segs| && d in segs[u]
      ensures !d.toDelete && !d.toSplit && !d.isSource && !d.isTarget && !d.hasSelf
      ensures !Carried(ds0, m, o, u) ==>
                d.similarity == if d.status == Modified && !actuallySplit then LabelledScore(before[u], o, measured(u)) else 0
    {
      FinishedTidied(r.ds[u], actuallySplit, o.newIsWorkdir);
      if !Carried(ds0, m, o, u) { LeftTidied(before[u], r.ds[u], o, measured(u), actuallySplit, d); }
    }
  }

  lemma SplittingIs(before: seq<Delta>, ds0: seq<Delta>, o: Options, measured: nat -> Option<nat>)
    requires LabelsOn(ds0, before, o, measured)
    requires (exists i :: 0 <= i < |ds0| && ds0[i].isSource) && (exists i :: 0 <= i < |ds0| && ds0[i].isTarget)
    ensures Splitting(before, o, measured) <==> o.breakRewrites && !o.breakForRenamesOnly
  {
    hide Label, GivesFile, TakesFile, Fresh;
    SomethingToDo(before, ds0, o, measured);
  }

  lemma OneFate(r: Rewriting, before: seq<Delta>, ds0: seq<Delta>, m: seq<Match>, o: Options, measured: nat -> Option<nat>, actuallySplit: bool, u: nat)
    requires LabelsOn(ds0, before, o, measured) && Leaves(r, ds0, m, o, |m|) && RenamesOf(r.ds, ds0, m, o) && u < |m|
    ensures Fate(Finished(r.ds[u], actuallySplit, o.newIsWorkdir), before, ds0, m, o, u, actuallySplit && Broken(before[u], o, measured(u)))
  {
    hide Carried, Label, Finished, Left, StaysAs, LeftOver, RenamedAs, TakenFrom, Touched, Broken, Fresh;
    if Carried(ds0, m, o, u) {
      RenamedStays(r.ds[u], ds0, m, u, actuallySplit, o.newIsWorkdir);
    } else if !TakenFrom(ds0, m, o, u) {
      if Touched(ds0, m, o, u, |m|) { TouchedMeans(ds0, m, o, u); }
      UntouchedStays(before[u], o, measured(u), actuallySplit);
    } else {
      LeftStays(before[u], r.ds[u], o, measured(u), actuallySplit);
    }
  }

  lemma SomethingToDo(before: seq<Delta>, ds0: seq<Delta>, o: Options, measured: nat -> Option<nat>)
    requires LabelsOn(ds0, before, o, measured)
    ensures (exists i :: 0 <= i < |ds0| && ds0[i].isSource) <==> exists i :: 0 <= i < |before| && GivesFile(before[i], o, measured(i))
    ensures (exists i :: 0 <= i < |ds0| && ds0[i].isTarget) <==> exists i :: 0 <= i < |before| && TakesFile(before[i], o, measured(i))
  {
    hide Label, GivesFile, TakesFile, Fresh;
    forall i | 0 <= i < |before| ensures ds0[i].isSource == GivesFile(before[i], o, measured(i)) && ds0[i].isTarget == TakesFile(before[i], o, measured(i)) {
      LabelExact(before[i], o, measured(i));
    }
  }

  /** The list as it is when there is nothing to delete and nothing to split. */
  lemma FatesUnfinished(r: Rewriting, before: seq<Delta>, ds0: seq<Delta>, m: seq<Match>, o: Options, measured: nat -> Option<nat>)
    requires LabelsOn(ds0, before, o, measured) && Leaves(r, ds0, m, o, |m|) && RenamesOf(r.ds, ds0, m, o)
    requires forall u :: 0 <= u < |r.ds| ==> !r.ds[u].toDelete && !r.ds[u].toSplit
    ensures Fates(Singles(r.ds), before, ds0, m, o, measured)
  {
    hide Carried, Label, Left, StaysAs, LeftOver, RenamedAs, TakenFrom, Touched, Splitting, Broken, Fresh;
    forall u: nat | u < |r.ds|
      ensures Fate([r.ds[u]], before, ds0, m, o, u, Splitting(before, o, measured) && Broken(before[u], o, measured(u)))
    {
      OneSingle(r, before, ds0, m, o, measured, u, Splitting(before, o, measured));
    }
  }

  lemma OneSingle(r: Rewriting, before: seq<Delta>, ds0: seq<Delta>, m: seq<Match>, o: Options, measured: nat -> Option<nat>, u: nat, splitting: bool)
    requires LabelsOn(ds0, before, o, measured) && Leaves(r, ds0, m, o, |m|) && RenamesOf(r.ds, ds0, m, o) && u < |m|
    requires !r.ds[u].toDelete && !r.ds[u].toSplit
    ensures Fate([r.ds[u]], before, ds0, m, o, u, splitting && Broken(before[u], o, measured(u)))
  {
    hide Carried, Label, Left, StaysAs, LeftOver, RenamedAs, TakenFrom, Touched, Broken, Fresh;
    if Carried(ds0, m, o, u) {
    } else if !TakenFrom(ds0, m, o, u) {
      if Touched(ds0, m, o, u, |m|) { TouchedMeans(ds0, m, o, u); }
      SingleStays(before[u], o, measured(u), splitting);
    } else {
      SingleLeft(before[u], r.ds[u], o, measured(u), splitting);
    }
  }

  lemma SingleStays(b: Delta, o: Options, measured: Option<nat>, splitting: bool)
    requires Fresh(b) && !Label(b, o, measured).toSplit
    ensures StaysAs([Label(b, o, measured)], b, splitting && Broken(b, o, measured), o.newIsWorkdir)
  {
    LabelExact(b, o, measured);
    hide Label, LabelledScore, GivesFile, TakesFile, Broken;
  }

  lemma SingleLeft(b: Delta, d: Delta, o: Options, measured: Option<nat>, splitting: bool)
    requires Fresh(b) && Left(Label(b, o, measured), d, o) && d.status != Renamed && !d.toDelete && !d.toSplit
    ensures LeftOver([d], b, splitting && Broken(b, o, measured), o.newIsWorkdir)
  {
    var d0 := Label(b, o, measured);
    LabelExact(b, o, measured);
    hide Label, LabelledScore, GivesFile, TakesFile, Broken;
    if b.status != Deleted && d == d0.(oldFile := d.oldFile) {
      assert StaysAs([d], b.(oldFile := d.oldFile), splitting && Broken(b, o, measured), o.newIsWorkdir);
    }
  }

  /** Without sources or targets all deltas stay what they are. */
  lemma FatesNothing(before: seq<Delta>, ds0: seq<Delta>, m: seq<Match>, o: Options, measured: nat -> Option<nat>)
    requires LabelsOn(ds0, before, o, measured) && Fits(ds0, m) && forall u :: 0 <= u < |m| ==> m[u].similarity == 0
    requires (forall i :: 0 <= i < |ds0| ==> !ds0[i].isSource) || (forall i :: 0 <= i < |ds0| ==> !ds0[i].isTarget)
    ensures Fates(Singles(ds0), before, ds0, m, o, measured)
  {
    SomethingToDo(before, ds0, o, measured);
    hide Carried, Label, Broken, Fresh;
    forall u: nat | u < |ds0| ensures Fate([ds0[u]], before, ds0, m, o, u, false) {
      forall t: nat | t < |m| ensures !Carried(ds0, m, o, t) { UnmatchedStays(ds0, m, o, t); }
      LabelExact(before[u], o, measured(u));
    }
    assert !Splitting(before, o, measured);
  }
}
