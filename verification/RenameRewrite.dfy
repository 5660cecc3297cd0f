/** Rename detection, second half (diff_tform.c): labelling sources and targets, the
    pass that swaps file sides between deltas, and splitting and deleting. */
module RenameRewrite {
  import opened Common
  import opened RenameMatch

  datatype Status =
    | Unmodified | Added | Deleted | Modified | Renamed | Copied
    | Ignored | Untracked | Typechange | Unreadable | Conflicted

  /** One side of a delta.  `NoFile` is what is left of a side that is cleared. */
  datatype File = File(path: string, id: string, mode: nat, size: nat)

  function NoFile(path: string): File { File(path, "", 0, 0) }

  datatype Delta = Delta(
    status: Status, similarity: nat, nfiles: nat, oldFile: File, newFile: File,
    toDelete: bool, toSplit: bool, isSource: bool, isTarget: bool, hasSelf: bool)

  /** The normalized options, with copies switched off. */
  datatype Options = Options(
    findRewrites: bool, breakRewrites: bool, renamesFromRewrites: bool, forUntracked: bool, breakForRenamesOnly: bool,
    renameThreshold: nat, rewriteThreshold: nat, breakThreshold: nat, limit: nat, newIsWorkdir: bool)

  // ------------------------------------------------------------------- labelling

  predicate IsBlob(mode: nat) { mode / 0x1000 % 16 == 8 }

  /** calc_self_similarity; `measured` is the metric's answer, None if not comparable. */
  function SelfSimilar(d: Delta, measured: Option<nat>): Delta {
    if !d.hasSelf && measured.Some? then d.(similarity := measured.value % 0x1_0000, hasSelf := true) else d
  }

  function LabelSource(d: Delta, o: Options, measured: Option<nat>): Delta {
    if !IsBlob(d.oldFile.mode) then d
    else
      match d.status
      case Added | Untracked | Unreadable | Ignored | Conflicted | Unmodified => d
      case Deleted | Typechange => d.(isSource := true)
      case Modified | Renamed | Copied =>
        if !o.findRewrites && !o.renamesFromRewrites then d
        else
          var d := SelfSimilar(d, measured);
          if o.breakRewrites && d.similarity < o.breakThreshold then d.(toSplit := true, isSource := true)
          else if o.renamesFromRewrites && d.similarity < o.rewriteThreshold then d.(isSource := true)
          else d
  }

  function LabelTarget(d: Delta, o: Options, measured: Option<nat>): Delta {
    if !IsBlob(d.newFile.mode) then d
    else
      match d.status
      case Unmodified | Deleted | Ignored | Conflicted => d
      case Modified =>
        if !o.findRewrites && !o.renamesFromRewrites then d
        else
          var d := SelfSimilar(d, measured);
          if o.breakRewrites && d.similarity < o.breakThreshold then d.(toSplit := true, isTarget := true)
          else if o.renamesFromRewrites && d.similarity < o.rewriteThreshold then d.(toSplit := true, isTarget := true)
          else d
      case Untracked => if o.forUntracked then d.(isTarget := true) else d
      case _ => d.(isTarget := true)
  }

  function Label(d: Delta, o: Options, measured: Option<nat>): Delta {
    LabelTarget(LabelSource(d, o, measured), o, measured)
  }

  predicate NewOnly(d: Delta) {
    d.status == Added || d.status == Untracked || d.status == Unreadable || d.status == Ignored
  }

  predicate IsSplit(d: Delta) { d.status == Typechange || d.toSplit }

  /** A diff as rename detection expects it: nothing detected, nothing labelled. */
  predicate Fresh(d: Delta) {
    d.status != Renamed && d.status != Copied && !d.toDelete && !d.toSplit && !d.isSource && !d.isTarget
  }

  /** What the labels mean. */
  predicate Sensible(d: Delta) {
    && !d.toDelete && d.status != Renamed && d.status != Copied
    && (d.toSplit ==> d.status == Modified)
    && (d.isTarget ==> NewOnly(d) || IsSplit(d))
    && (d.isSource ==> d.status == Deleted || d.status == Typechange || d.status == Modified)
    && (d.isSource && d.status == Modified && IsBlob(d.newFile.mode) ==> d.toSplit)
  }

  lemma LabelSensible(d: Delta, o: Options, measured: Option<nat>)
    requires Fresh(d)
    ensures var d' := Label(d, o, measured);
            Sensible(d') && d'.status == d.status && d'.oldFile == d.oldFile && d'.newFile == d.newFile
  {
  }

  // ------------------------------------------------------- the files of a diff

  predicate HasOld(d: Delta) { !d.toDelete && !NewOnly(d) }

  predicate HasNew(d: Delta) { !d.toDelete && d.status != Deleted }

  /** The old file a delta stands for, if any. */
  function OldSide(d: Delta): multiset<File> {
    if HasOld(d) then multiset{d.oldFile} else multiset{}
  }

  function NewSide(d: Delta): multiset<File> {
    if HasNew(d) then multiset{d.newFile} else multiset{}
  }

  function OldFiles(ds: seq<Delta>): multiset<File> {
    if ds == [] then multiset{} else OldSide(ds[0]) + OldFiles(ds[1..])
  }

  function NewFiles(ds: seq<Delta>): multiset<File> {
    if ds == [] then multiset{} else NewSide(ds[0]) + NewFiles(ds[1..])
  }

  lemma AddFirst(h: multiset<File>, a: multiset<File>, x: multiset<File>, b: multiset<File>, y: multiset<File>)
    requires a + x == b + y
    ensures h + a + x == h + b + y
  {
    assert h + a + x == h + (a + x) && h + b + y == h + (b + y);
  }

  lemma {:induction false} OldFilesUpdate(ds: seq<Delta>, i: nat, d: Delta)
    requires i < |ds|
    ensures OldFiles(ds[i := d]) + OldSide(ds[i]) == OldFiles(ds) + OldSide(d)
    decreases i
  {
    hide OldSide;
    if i == 0 {
      assert ds[i := d][1..] == ds[1..];
    } else {
      assert ds[i := d][1..] == ds[1..][i - 1 := d];
      OldFilesUpdate(ds[1..], i - 1, d);
      AddFirst(OldSide(ds[0]), OldFiles(ds[1..][i - 1 := d]), OldSide(ds[i]), OldFiles(ds[1..]), OldSide(d));
    }
  }

  lemma {:induction false} NewFilesUpdate(ds: seq<Delta>, i: nat, d: Delta)
    requires i < |ds|
    ensures NewFiles(ds[i := d]) + NewSide(ds[i]) == NewFiles(ds) + NewSide(d)
    decreases i
  {
    hide NewSide;
    if i == 0 {
      assert ds[i := d][1..] == ds[1..];
    } else {
      assert ds[i := d][1..] == ds[1..][i - 1 := d];
      NewFilesUpdate(ds[1..], i - 1, d);
      AddFirst(NewSide(ds[0]), NewFiles(ds[1..][i - 1 := d]), NewSide(ds[i]), NewFiles(ds[1..]), NewSide(d));
    }
  }

  /** Two deltas may exchange files: what counts is what they have together. */
  lemma FilesExchange(ds: seq<Delta>, t: nat, s: nat, dt: Delta, dsrc: Delta)
    requires t < |ds| && s < |ds| && s != t
    requires OldSide(dt) + OldSide(dsrc) == OldSide(ds[t]) + OldSide(ds[s])
    requires NewSide(dt) + NewSide(dsrc) == NewSide(ds[t]) + NewSide(ds[s])
    ensures OldFiles(ds[t := dt][s := dsrc]) == OldFiles(ds) && NewFiles(ds[t := dt][s := dsrc]) == NewFiles(ds)
  {
    hide OldSide, NewSide, OldFiles, NewFiles;
    OldFilesUpdate(ds, t, dt);
    OldFilesUpdate(ds[t := dt], s, dsrc);
    NewFilesUpdate(ds, t, dt);
    NewFilesUpdate(ds[t := dt], s, dsrc);
    SameSum(OldFiles(ds), OldFiles(ds[t := dt]), OldFiles(ds[t := dt][s := dsrc]),
            OldSide(ds[t]), OldSide(dt), OldSide(ds[s]), OldSide(dsrc));
    SameSum(NewFiles(ds), NewFiles(ds[t := dt]), NewFiles(ds[t := dt][s := dsrc]),
            NewSide(ds[t]), NewSide(dt), NewSide(ds[s]), NewSide(dsrc));
  }

  lemma SameSum(all: multiset<File>, a: multiset<File>, b: multiset<File>,
                t: multiset<File>, t': multiset<File>, s: multiset<File>, s': multiset<File>)
    requires a + t == all + t' && b + s == a + s' && t' + s' == t + s
    ensures b == all
  {
    assert b + s + t == a + t + s' == all + t' + s' == all + (t + s);
    forall f: File ensures b[f] == all[f] {
      assert (b + s + t)[f] == b[f] + s[f] + t[f];
      assert (all + (t + s))[f] == all[f] + t[f] + s[f];
    }
  }

  // ------------------------------------------------------------- the rewrite pass

  /** A size_t that is decremented wraps around below zero. */
  function Dec(n: nat): nat { if n == 0 then 0xffff_ffff_ffff_ffff else n - 1 }

  function Inc(n: nat): nat { (n + 1) % 0x1_0000_0000_0000_0000 }

  /** The deltas, the matching as seen from the targets, and the two counters. */
  datatype Rewriting = Rewriting(ds: seq<Delta>, tgt2src: seq<Match>, rewrites: nat, updates: nat)

  function MakeRename(to: Delta, from: Delta, similarity: nat): Delta {
    to.(status := Renamed, similarity := similarity, nfiles := 2, oldFile := from.oldFile, toSplit := false)
  }

  /** What used to be at source t is now at source s. */
  function Repoint(tgt2src: seq<Match>, src2tgt: seq<Match>, t: nat, s: nat): seq<Match>
    requires t < |src2tgt| && |tgt2src| == |src2tgt|
    requires src2tgt[t].similarity > 0 ==> src2tgt[t].idx < |tgt2src|
  {
    if src2tgt[t].similarity > 0 && src2tgt[t].idx > t
    then tgt2src[src2tgt[t].idx := tgt2src[src2tgt[t].idx].(idx := s)]
    else tgt2src
  }

  predicate Ranges(r: Rewriting, src2tgt: seq<Match>) {
    && |r.ds| == |r.tgt2src| == |src2tgt|
    && (forall i :: 0 <= i < |src2tgt| && src2tgt[i].similarity > 0 ==> src2tgt[i].idx < |src2tgt|)
    && (forall i :: 0 <= i < |r.tgt2src| && r.tgt2src[i].similarity > 0 ==> r.tgt2src[i].idx < |r.tgt2src|)
  }

  /** Which case of the rewrite loop applies. */
  datatype Case = Nothing | RenameDelete | RenameSwapDeleted | AddRename | SwapBoth | SwapOne

  function CaseOf(r: Rewriting, src2tgt: seq<Match>, o: Options, t: nat): Case
    requires t < |r.ds| && Ranges(r, src2tgt)
  {
    var tgt, m := r.ds[t], r.tgt2src[t];
    if !tgt.isTarget || m.similarity == 0 then Nothing
    else
      var src := r.ds[m.idx];
      if src.status == Deleted then
        if NewOnly(tgt) then (if m.similarity < o.renameThreshold then Nothing else RenameDelete)
        else if m.similarity < o.rewriteThreshold then Nothing else RenameSwapDeleted
      else if IsSplit(src) then
        if NewOnly(tgt) then (if m.similarity < o.renameThreshold then Nothing else AddRename)
        else if m.similarity < o.rewriteThreshold then Nothing
        else if r.tgt2src[m.idx].idx == t && r.tgt2src[m.idx].similarity > o.rewriteThreshold then SwapBoth else SwapOne
      else Nothing
  }

  /** The body of the rewrite loop for target t. */
  function Step(r: Rewriting, src2tgt: seq<Match>, o: Options, t: nat): Rewriting
    requires t < |r.ds| && Ranges(r, src2tgt)
  {
    var c := CaseOf(r, src2tgt, o, t);
    if c == Nothing then r
    else
      var tgt, m, s := r.ds[t], r.tgt2src[t], r.tgt2src[t].idx;
      var src := r.ds[s];
      var ds := r.ds[t := MakeRename(tgt, src, m.similarity)];
      match c
      case RenameDelete =>
        r.(ds := ds[s := ds[s].(toDelete := true)], rewrites := Inc(r.rewrites))
      case RenameSwapDeleted =>
        Rewriting(ds[s := ds[s].(oldFile := tgt.oldFile, newFile := NoFile(tgt.oldFile.path))],
                  Repoint(r.tgt2src, src2tgt, t, s), Dec(r.rewrites), r.updates + 1)
      case AddRename =>
        var status := if o.newIsWorkdir then Untracked else Added;
        r.(ds := ds[s := ds[s].(status := status, nfiles := 1, oldFile := NoFile(src.newFile.path), toSplit := false)],
           rewrites := Dec(r.rewrites), updates := r.updates + 1)
      case SwapBoth =>
        Rewriting(ds[s := ds[s].(oldFile := tgt.oldFile, status := Renamed, similarity := r.tgt2src[s].similarity, toSplit := false)],
                  Ejected(r.tgt2src, s), Dec(Dec(r.rewrites)), r.updates + 2)
      case SwapOne =>
        Rewriting(ds[s := ds[s].(oldFile := tgt.oldFile)], Repoint(r.tgt2src, src2tgt, t, s), Dec(r.rewrites), r.updates + 2)
      case Nothing => r
  }

  /** The rewrite loop over the first n targets. */
  function Steps(r: Rewriting, src2tgt: seq<Match>, o: Options, n: nat): (r': Rewriting)
    requires n <= |r.ds| && Ranges(r, src2tgt)
    ensures |r'.ds| == |r.ds| && Ranges(r', src2tgt)
  {
    if n == 0 then r else Step(Steps(r, src2tgt, o, n - 1), src2tgt, o, n - 1)
  }

  // --------------------------------------------------------------- what it keeps

  /** The target still waits for the source it is matched to. */
  predicate Pending(r: Rewriting, u: nat)
    requires u < |r.ds| == |r.tgt2src|
  {
    r.tgt2src[u].similarity > 0 && r.ds[u].status != Renamed
  }

  /** The statuses and labels stay meaningful. */
  ghost predicate InShape(r: Rewriting, t: nat) {
    && |r.ds| == |r.tgt2src|
    && (forall i :: 0 <= i < |r.ds| ==>
          && r.ds[i].status != Copied
          && (r.ds[i].toSplit ==> r.ds[i].status == Modified)
          && (r.ds[i].toDelete ==> r.ds[i].status == Deleted)
          && (r.ds[i].isTarget ==> r.ds[i].status == Renamed || NewOnly(r.ds[i]) || IsSplit(r.ds[i]))
          && (r.ds[i].status == Renamed ==> i < t || r.tgt2src[i].similarity == 0)
          && (r.tgt2src[i].similarity > 0 ==> r.ds[i].isTarget))
  }

  /** Pending targets wait for distinct sources, none of which is given away. */
  ghost predicate Distinct(r: Rewriting)
    requires |r.ds| == |r.tgt2src|
  {
    && (forall u :: 0 <= u < |r.ds| && Pending(r, u) ==> r.tgt2src[u].idx < |r.ds| && !r.ds[r.tgt2src[u].idx].toDelete)
    && (forall u, v :: 0 <= u < v < |r.ds| && Pending(r, u) && Pending(r, v) ==> r.tgt2src[u].idx != r.tgt2src[v].idx)
  }

  /** The file that target u was matched to. */
  function Wanted(ds0: seq<Delta>, match0: seq<Match>, u: nat): File
    requires u < |match0| && match0[u].idx < |ds0|
  {
    ds0[match0[u].idx].oldFile
  }

  /** A pending target points at the file it was matched to, wherever that has been
      swapped, unless its source has been renamed itself; and every renamed delta has
      got the file it was matched to. */
  ghost predicate Faithful(r: Rewriting, ds0: seq<Delta>, match0: seq<Match>)
    requires |r.ds| == |r.tgt2src| == |ds0| == |match0|
  {
    && (forall u :: 0 <= u < |r.ds| && r.tgt2src[u].similarity > 0 ==> match0[u].similarity > 0)
    && (forall u :: 0 <= u < |r.ds| && match0[u].similarity > 0 ==> match0[u].idx < |ds0|)
    && (forall u :: 0 <= u < |r.ds| && Pending(r, u) && r.tgt2src[u].idx < |r.ds| ==>
          r.ds[r.tgt2src[u].idx].status == Renamed || r.ds[r.tgt2src[u].idx].oldFile == Wanted(ds0, match0, u))
    && (forall u :: 0 <= u < |r.ds| && r.ds[u].status == Renamed ==>
          match0[u].similarity > 0 && r.ds[u].oldFile == Wanted(ds0, match0, u))
  }

  /** A pending target is re-pointed only when its own source is processed. */
  ghost predicate Moved(r: Rewriting, match0: seq<Match>, t: nat)
    requires |r.ds| == |r.tgt2src| == |match0|
  {
    forall u :: 0 <= u < |r.ds| && r.tgt2src[u].similarity > 0 ==>
      r.tgt2src[u].idx == match0[u].idx || match0[u].idx < t
  }

  /** All of it, before the step for target t. */
  ghost predicate Sound(r: Rewriting, ds0: seq<Delta>, match0: seq<Match>, src2tgt: seq<Match>, t: nat) {
    && |r.ds| == |ds0| == |match0| && Ranges(r, src2tgt) && Linked(src2tgt, match0)
    && InShape(r, t) && Distinct(r) && Faithful(r, ds0, match0) && Moved(r, match0, t)
  }

  /** What every step that renames does: target t is renamed, only its source s is
      touched besides, and at most one waiting target v is re-pointed, from t to s. */
  ghost predicate Moves(r: Rewriting, r': Rewriting, t: nat, s: nat, v: nat) {
    |r.ds| == |r.tgt2src| == |r'.ds| == |r'.tgt2src| && MovesFiles(r, r', t, s) && MovesMatches(r, r', t, s, v)
  }

  ghost predicate MovesFiles(r: Rewriting, r': Rewriting, t: nat, s: nat)
    requires |r.ds| == |r.tgt2src| == |r'.ds| == |r'.tgt2src|
  {
    && t < |r.ds| && s < |r.ds| && r'.ds[t].status == Renamed
    && (r.ds[s].status == Renamed ==> r'.ds[s].status == Renamed)
    && (s != t && r'.ds[t].toDelete ==> r.ds[t].toDelete)
    && (forall i :: 0 <= i < |r.ds| && i != s && i != t ==> r'.ds[i] == r.ds[i])
  }

  ghost predicate MovesMatches(r: Rewriting, r': Rewriting, t: nat, s: nat, v: nat)
    requires |r.ds| == |r.tgt2src| == |r'.ds| == |r'.tgt2src|
  {
    && t < |r.ds| && s < |r.ds| && v < |r.ds|
    && (forall i :: 0 <= i < |r.ds| && i != v ==> r'.tgt2src[i] == r.tgt2src[i] || Spent(r, r', t, s, i))
    && (r'.tgt2src[v] == r.tgt2src[v] || Spent(r, r', t, s, v) || Handed(r, r', t, s, v))
  }

  /** Target i waits no longer: it was not matched, or it is s and is renamed as well. */
  ghost predicate Spent(r: Rewriting, r': Rewriting, t: nat, s: nat, i: nat)
    requires i < |r.tgt2src| && i < |r'.tgt2src|
  {
    r'.tgt2src[i].similarity == 0 && (r.tgt2src[i].similarity == 0 || (i == s && r.tgt2src[i].idx == t))
  }

  /** The waiting target v follows its file from t to s. */
  ghost predicate Handed(r: Rewriting, r': Rewriting, t: nat, s: nat, v: nat)
    requires t < |r.ds| && s < |r'.ds| && v < |r.tgt2src| && v < |r'.tgt2src|
  {
    && r.tgt2src[v].idx == t && r'.tgt2src[v] == r.tgt2src[v].(idx := s)
    && !r'.ds[s].toDelete && r'.ds[s].oldFile == r.ds[t].oldFile
  }

  lemma DistinctKept(r: Rewriting, r': Rewriting, t: nat, s: nat, v: nat)
    requires Moves(r, r', t, s, v) && Distinct(r) && Pending(r, t) && r.tgt2src[t].idx == s
    ensures Distinct(r')
  {
    forall u | 0 <= u < |r'.ds| && Pending(r', u)
      ensures Pending(r, u) && u != t
      ensures r'.tgt2src[u].idx < |r'.ds| && !r'.ds[r'.tgt2src[u].idx].toDelete
      ensures r'.tgt2src[u].idx == s ==> u == v && Handed(r, r', t, s, v)
    {
    }
  }

  lemma FaithfulKept(r: Rewriting, r': Rewriting, ds0: seq<Delta>, match0: seq<Match>, t: nat, s: nat, v: nat)
    requires Moves(r, r', t, s, v) && Distinct(r) && Pending(r, t) && r.tgt2src[t].idx == s
    requires |r.ds| == |ds0| == |match0| && Faithful(r, ds0, match0)
    requires r.tgt2src[t].similarity > 0 && r'.ds[t].oldFile == Wanted(ds0, match0, t)
    requires r'.ds[s].status == Renamed && r.ds[s].status != Renamed ==>
               r.tgt2src[s].similarity > 0 && r'.ds[s].oldFile == Wanted(ds0, match0, s)
    requires r.ds[s].status != Renamed
    ensures Faithful(r', ds0, match0)
  {
    hide Wanted;
    forall u | 0 <= u < |r'.ds| && Pending(r', u) && r'.tgt2src[u].idx < |r.ds|
      ensures r'.ds[r'.tgt2src[u].idx].status == Renamed || r'.ds[r'.tgt2src[u].idx].oldFile == Wanted(ds0, match0, u)
    {
      assert Pending(r, u) && u != t;
      assert r'.tgt2src[u].idx == s && r'.tgt2src[u] == r.tgt2src[u] ==> u == t;
    }
  }

  /** The target that is re-pointed at step t, if one is. */
  function Mover(src2tgt: seq<Match>, t: nat): nat
    requires t < |src2tgt|
  {
    if src2tgt[t].similarity > 0 && src2tgt[t].idx > t then src2tgt[t].idx else t
  }

  /** The waiting target that is re-pointed waits for the file of t. */
  lemma MoverWaits(r: Rewriting, match0: seq<Match>, src2tgt: seq<Match>, t: nat)
    requires t < |r.ds| == |match0| && Ranges(r, src2tgt) && Linked(src2tgt, match0) && Moved(r, match0, t)
    ensures var v := Mover(src2tgt, t);
            v < |r.ds| && (v != t && r.tgt2src[v].similarity > 0 ==> r.tgt2src[v].idx == t && match0[v].idx == t)
  {
  }

  lemma TargetWaits(r: Rewriting, src2tgt: seq<Match>, o: Options, t: nat)
    requires t < |r.ds| && Ranges(r, src2tgt) && InShape(r, t) && CaseOf(r, src2tgt, o, t) != Nothing
    ensures var s := r.tgt2src[t].idx;
            && s < |r.ds| && Pending(r, t) && r.ds[s].status != Renamed
            && (CaseOf(r, src2tgt, o, t) == RenameSwapDeleted ==> IsSplit(r.ds[t]) && s != t)
            && (CaseOf(r, src2tgt, o, t) == RenameDelete || CaseOf(r, src2tgt, o, t) == AddRename ==> NewOnly(r.ds[t]) && s != t)
            && (CaseOf(r, src2tgt, o, t) == SwapBoth ==> Pending(r, s) && r.tgt2src[s].idx == t)
            && (CaseOf(r, src2tgt, o, t) == SwapBoth || CaseOf(r, src2tgt, o, t) == SwapOne ==> IsSplit(r.ds[t]) && IsSplit(r.ds[s]))
  {
  }

  lemma StepMoves(r: Rewriting, match0: seq<Match>, src2tgt: seq<Match>, o: Options, t: nat)
    requires t < |r.ds| == |match0| && Ranges(r, src2tgt) && InShape(r, t) && Distinct(r)
    requires Linked(src2tgt, match0) && Moved(r, match0, t) && CaseOf(r, src2tgt, o, t) != Nothing
    ensures Moves(r, Step(r, src2tgt, o, t), t, r.tgt2src[t].idx, Mover(src2tgt, t))
  {
    StepMovesFiles(r, src2tgt, o, t);
    StepMovesMatches(r, match0, src2tgt, o, t);
    hide Linked, Moved, CaseOf, Step, InShape, Distinct, MovesFiles, MovesMatches;
  }

  lemma StepMovesFiles(r: Rewriting, src2tgt: seq<Match>, o: Options, t: nat)
    requires t < |r.ds| && Ranges(r, src2tgt) && InShape(r, t) && CaseOf(r, src2tgt, o, t) != Nothing
    ensures |r.ds| == |r.tgt2src| == |Step(r, src2tgt, o, t).ds| == |Step(r, src2tgt, o, t).tgt2src|
    ensures MovesFiles(r, Step(r, src2tgt, o, t), t, r.tgt2src[t].idx)
  {
    TargetWaits(r, src2tgt, o, t);
    hide CaseOf, InShape;
  }

  lemma StepMovesMatches(r: Rewriting, match0: seq<Match>, src2tgt: seq<Match>, o: Options, t: nat)
    requires t < |r.ds| == |match0| && Ranges(r, src2tgt) && InShape(r, t) && Distinct(r)
    requires Linked(src2tgt, match0) && Moved(r, match0, t) && CaseOf(r, src2tgt, o, t) != Nothing
    ensures |r.ds| == |r.tgt2src| == |Step(r, src2tgt, o, t).ds| == |Step(r, src2tgt, o, t).tgt2src|
    ensures MovesMatches(r, Step(r, src2tgt, o, t), t, r.tgt2src[t].idx, Mover(src2tgt, t))
  {
    TargetWaits(r, src2tgt, o, t);
    CaseStatus(r, src2tgt, o, t);
    MoverWaits(r, match0, src2tgt, t);
    StepMatches(r, src2tgt, o, t);
    hide Linked, Moved, CaseOf, InShape, Distinct, Step;
  }

  /** What happens to the matches, and to the file of t if one is re-pointed. */
  lemma StepMatches(r: Rewriting, src2tgt: seq<Match>, o: Options, t: nat)
    requires t < |r.ds| && Ranges(r, src2tgt) && CaseOf(r, src2tgt, o, t) != Nothing
    ensures var (r', s, v) := (Step(r, src2tgt, o, t), r.tgt2src[t].idx, Mover(src2tgt, t));
            && s < |r.ds| && v < |r.ds| && |r'.ds| == |r.ds| == |r'.tgt2src|
            && (r'.tgt2src == r.tgt2src || (r'.tgt2src == Ejected(r.tgt2src, s) && r.tgt2src[s].idx == t)
                || (v != t && r'.tgt2src == r.tgt2src[v := r.tgt2src[v].(idx := s)]
                    && r'.ds[s].oldFile == r.ds[t].oldFile && r'.ds[s].toDelete == r.ds[s].toDelete))
  {
    assert r.tgt2src[t].similarity > 0;
    hide CaseOf;
  }

  lemma StepRanges(r: Rewriting, src2tgt: seq<Match>, o: Options, t: nat)
    requires t < |r.ds| && Ranges(r, src2tgt) && CaseOf(r, src2tgt, o, t) != Nothing
    ensures Ranges(Step(r, src2tgt, o, t), src2tgt)
  {
    assert r.tgt2src[t].similarity > 0;
    hide CaseOf;
  }

  lemma StepShape(r: Rewriting, src2tgt: seq<Match>, o: Options, t: nat)
    requires t < |r.ds| && Ranges(r, src2tgt) && InShape(r, t) && CaseOf(r, src2tgt, o, t) != Nothing
    ensures Ranges(Step(r, src2tgt, o, t), src2tgt) && InShape(Step(r, src2tgt, o, t), t + 1)
  {
    StepRanges(r, src2tgt, o, t);
    TargetWaits(r, src2tgt, o, t);
    hide CaseOf, Ranges;
  }

  lemma StepFiles(r: Rewriting, ds0: seq<Delta>, match0: seq<Match>, src2tgt: seq<Match>, o: Options, t: nat)
    requires t < |r.ds| == |match0| == |ds0| && Ranges(r, src2tgt) && InShape(r, t) && Faithful(r, ds0, match0)
    requires CaseOf(r, src2tgt, o, t) != Nothing
    ensures var (r', s) := (Step(r, src2tgt, o, t), r.tgt2src[t].idx);
            && |r'.ds| == |r.ds| && s < |r.ds|
            && match0[t].similarity > 0 && match0[t].idx < |ds0| && r'.ds[t].oldFile == Wanted(ds0, match0, t)
            && (r'.ds[s].status == Renamed ==>
                  r.tgt2src[s].similarity > 0 && match0[s].idx < |ds0| && r'.ds[s].oldFile == Wanted(ds0, match0, s))
  {
    TargetWaits(r, src2tgt, o, t);
    hide CaseOf, Wanted;
  }

  lemma StepMoved(r: Rewriting, match0: seq<Match>, src2tgt: seq<Match>, o: Options, t: nat)
    requires t < |r.ds| == |match0| && Ranges(r, src2tgt) && Linked(src2tgt, match0) && Moved(r, match0, t)
    ensures |Step(r, src2tgt, o, t).ds| == |Step(r, src2tgt, o, t).tgt2src| == |match0|
    ensures Moved(Step(r, src2tgt, o, t), match0, t + 1)
  {
    MoverWaits(r, match0, src2tgt, t);
    hide CaseOf;
  }

  /** One step of the rewrite loop keeps what has been established so far. */
  lemma StepSound(r: Rewriting, ds0: seq<Delta>, match0: seq<Match>, src2tgt: seq<Match>, o: Options, t: nat)
    requires t < |r.ds| && Sound(r, ds0, match0, src2tgt, t)
    ensures Sound(Step(r, src2tgt, o, t), ds0, match0, src2tgt, t + 1)
  {
    StepMoved(r, match0, src2tgt, o, t);
    if CaseOf(r, src2tgt, o, t) == Nothing {
      NothingShape(r, src2tgt, o, t);
    } else {
      StepShape(r, src2tgt, o, t);
      StepMoves(r, match0, src2tgt, o, t);
      StepFiles(r, ds0, match0, src2tgt, o, t);
      TargetWaits(r, src2tgt, o, t);
      var s, v := r.tgt2src[t].idx, Mover(src2tgt, t);
      DistinctKept(r, Step(r, src2tgt, o, t), t, s, v);
      FaithfulKept(r, Step(r, src2tgt, o, t), ds0, match0, t, s, v);
    }
    hide InShape, Distinct, Faithful, Moved, Linked, Ranges, Step, CaseOf, Moves, Pending;
  }

  lemma NothingShape(r: Rewriting, src2tgt: seq<Match>, o: Options, t: nat)
    requires t < |r.ds| && Ranges(r, src2tgt) && InShape(r, t) && CaseOf(r, src2tgt, o, t) == Nothing
    ensures Step(r, src2tgt, o, t) == r && InShape(r, t + 1)
  {
  }

  // --------------------------------------------------------------- conservation

  lemma SameSides(ds: seq<Delta>, i: nat, d: Delta)
    requires i < |ds| && OldSide(d) == OldSide(ds[i]) && NewSide(d) == NewSide(ds[i])
    ensures OldFiles(ds[i := d]) == OldFiles(ds) && NewFiles(ds[i := d]) == NewFiles(ds)
  {
    hide OldSide, NewSide, OldFiles, NewFiles;
    OldFilesUpdate(ds, i, d);
    NewFilesUpdate(ds, i, d);
    SameRest(OldFiles(ds[i := d]), OldFiles(ds), OldSide(d));
    SameRest(NewFiles(ds[i := d]), NewFiles(ds), NewSide(d));
  }

  lemma SameRest(a: multiset<File>, b: multiset<File>, x: multiset<File>)
    requires a + x == b + x
    ensures a == b
  {
    forall f: File ensures a[f] == b[f] {
      assert (a + x)[f] == a[f] + x[f] && (b + x)[f] == b[f] + x[f];
    }
  }

  /** d stands for the old file of a, and for the new file of b. */
  predicate Combines(d: Delta, a: Delta, b: Delta) {
    && HasOld(d) == HasOld(a) && (HasOld(d) ==> d.oldFile == a.oldFile)
    && HasNew(d) == HasNew(b) && (HasNew(d) ==> d.newFile == b.newFile)
  }

  /** The two deltas that a step touches exchange their old sides and keep their new ones. */
  lemma StepExchanges(r: Rewriting, src2tgt: seq<Match>, o: Options, t: nat)
    requires t < |r.ds| && Ranges(r, src2tgt) && InShape(r, t) && Distinct(r) && CaseOf(r, src2tgt, o, t) != Nothing
    ensures var (ds', s) := (Step(r, src2tgt, o, t).ds, r.tgt2src[t].idx);
            && s < |r.ds| && |ds'| == |r.ds|
            && Combines(ds'[t], r.ds[s], r.ds[t]) && Combines(ds'[s], r.ds[t], r.ds[s])
  {
    TargetWaits(r, src2tgt, o, t);
    CaseStatus(r, src2tgt, o, t);
    hide CaseOf;
  }

  lemma CaseStatus(r: Rewriting, src2tgt: seq<Match>, o: Options, t: nat)
    requires t < |r.ds| && Ranges(r, src2tgt) && InShape(r, t) && Distinct(r) && CaseOf(r, src2tgt, o, t) != Nothing
    ensures var (c, s) := (CaseOf(r, src2tgt, o, t), r.tgt2src[t].idx);
            && s < |r.ds| && !r.ds[s].toDelete && !r.ds[t].toDelete
            && (c == RenameDelete || c == RenameSwapDeleted ==> r.ds[s].status == Deleted)
            && (c == AddRename ==> IsSplit(r.ds[s]))
  {
    TargetWaits(r, src2tgt, o, t);
  }

  lemma StepTouches(r: Rewriting, src2tgt: seq<Match>, o: Options, t: nat)
    requires t < |r.ds| && Ranges(r, src2tgt) && CaseOf(r, src2tgt, o, t) != Nothing
    ensures var (ds', s) := (Step(r, src2tgt, o, t).ds, r.tgt2src[t].idx);
            s < |r.ds| && |ds'| == |r.ds| && ds' == r.ds[t := ds'[t]][s := ds'[s]]
  {
  }

  /** No file is lost and none appears, on either side. */
  lemma StepConserves(r: Rewriting, src2tgt: seq<Match>, o: Options, t: nat)
    requires t < |r.ds| && Ranges(r, src2tgt) && InShape(r, t) && Distinct(r)
    ensures OldFiles(Step(r, src2tgt, o, t).ds) == OldFiles(r.ds) && NewFiles(Step(r, src2tgt, o, t).ds) == NewFiles(r.ds)
  {
    if CaseOf(r, src2tgt, o, t) == Nothing {
      NothingShape(r, src2tgt, o, t);
    } else {
      StepExchanges(r, src2tgt, o, t);
      StepTouches(r, src2tgt, o, t);
      hide Step, CaseOf, InShape, Distinct, OldSide, NewSide, OldFiles, NewFiles;
      var ds', s := Step(r, src2tgt, o, t).ds, r.tgt2src[t].idx;
      if s == t {
        assert r.ds[t := ds'[t]][s := ds'[s]] == r.ds[t := ds'[t]];
        SameSides(r.ds, t, ds'[t]);
      } else {
        FilesExchange(r.ds, t, s, ds'[t], ds'[s]);
      }
    }
  }

  /** Similarities, new sides and labels are those of the matched deltas. */
  ghost predicate Credited(r: Rewriting, ds0: seq<Delta>, match0: seq<Match>, o: Options)
    requires |r.ds| == |r.tgt2src| == |ds0| == |match0|
  {
    forall u :: 0 <= u < |r.ds| ==>
      && (r.tgt2src[u].similarity == 0 || r.tgt2src[u].similarity == match0[u].similarity)
      && (r.ds[u].status == Renamed ==>
            r.ds[u].similarity == match0[u].similarity >= Min(o.renameThreshold, o.rewriteThreshold))
      && (r.ds[u].status != Deleted ==> r.ds[u].newFile == ds0[u].newFile)
      && r.ds[u].isTarget == ds0[u].isTarget && r.ds[u].isSource == ds0[u].isSource
  }

  lemma StepPair(r: Rewriting, src2tgt: seq<Match>, o: Options, t: nat)
    requires t < |r.ds| && Ranges(r, src2tgt) && InShape(r, t) && Distinct(r) && CaseOf(r, src2tgt, o, t) != Nothing
    ensures var (ds', s) := (Step(r, src2tgt, o, t).ds, r.tgt2src[t].idx);
            && s < |r.ds| && |ds'| == |r.ds|
            && ds'[t].similarity >= Min(o.renameThreshold, o.rewriteThreshold)
            && ds'[t].similarity == r.tgt2src[t].similarity
            && (s != t && ds'[s].status == Renamed ==>
                  && ds'[s].similarity == r.tgt2src[s].similarity > 0 && ds'[s].similarity >= o.rewriteThreshold
                  && r.tgt2src[s].idx == t)
            && ds'[t].newFile == r.ds[t].newFile && (ds'[s].status != Deleted ==> ds'[s].newFile == r.ds[s].newFile)
            && (ds'[s].status != Deleted ==> r.ds[s].status != Deleted) && r.ds[t].status != Deleted
            && ds'[t].isTarget == r.ds[t].isTarget && ds'[t].isSource == r.ds[t].isSource
            && ds'[s].isTarget == r.ds[s].isTarget && ds'[s].isSource == r.ds[s].isSource
  {
    TargetWaits(r, src2tgt, o, t);
    CaseStatus(r, src2tgt, o, t);
    CaseThreshold(r, src2tgt, o, t);
    hide CaseOf, InShape, Distinct;
  }

  lemma CreditedKept(r: Rewriting, r': Rewriting, ds0: seq<Delta>, match0: seq<Match>, o: Options, t: nat, s: nat, v: nat)
    requires Moves(r, r', t, s, v) && |r.ds| == |ds0| == |match0| && Credited(r, ds0, match0, o)
    requires forall i :: i == t || i == s ==>
               && r'.ds[i].isTarget == r.ds[i].isTarget && r'.ds[i].isSource == r.ds[i].isSource
               && (r'.ds[i].status != Deleted ==> r.ds[i].status != Deleted && r'.ds[i].newFile == r.ds[i].newFile)
               && (r'.ds[i].status == Renamed ==>
                     r'.ds[i].similarity == r.tgt2src[i].similarity > 0
                     && r'.ds[i].similarity >= Min(o.renameThreshold, o.rewriteThreshold))
    ensures Credited(r', ds0, match0, o)
  {
    hide Min;
  }

  lemma StepCredited(r: Rewriting, ds0: seq<Delta>, match0: seq<Match>, src2tgt: seq<Match>, o: Options, t: nat)
    requires t < |r.ds| && Sound(r, ds0, match0, src2tgt, t) && Credited(r, ds0, match0, o)
    ensures |Step(r, src2tgt, o, t).ds| == |Step(r, src2tgt, o, t).tgt2src| == |ds0|
    ensures Credited(Step(r, src2tgt, o, t), ds0, match0, o)
  {
    if CaseOf(r, src2tgt, o, t) == Nothing {
      NothingShape(r, src2tgt, o, t);
    } else {
      StepMoves(r, match0, src2tgt, o, t);
      StepPair(r, src2tgt, o, t);
      TargetWaits(r, src2tgt, o, t);
      hide CaseOf, Step, InShape, Distinct, Faithful, Moved, Linked, Credited, Moves;
      MovesSize(r, Step(r, src2tgt, o, t), t, r.tgt2src[t].idx, Mover(src2tgt, t));
      CreditedKept(r, Step(r, src2tgt, o, t), ds0, match0, o, t, r.tgt2src[t].idx, Mover(src2tgt, t));
    }
  }

  lemma MovesSize(r: Rewriting, r': Rewriting, t: nat, s: nat, v: nat)
    requires Moves(r, r', t, s, v)
    ensures |r.ds| == |r.tgt2src| == |r'.ds| == |r'.tgt2src| && t < |r.ds| && s < |r.ds| && v < |r.ds|
  {
  }

  lemma CaseThreshold(r: Rewriting, src2tgt: seq<Match>, o: Options, t: nat)
    requires t < |r.ds| && Ranges(r, src2tgt) && CaseOf(r, src2tgt, o, t) != Nothing
    ensures r.tgt2src[t].similarity >= Min(o.renameThreshold, o.rewriteThreshold)
    ensures CaseOf(r, src2tgt, o, t) == SwapBoth ==> r.tgt2src[r.tgt2src[t].idx].similarity >= o.rewriteThreshold
  {
  }

  // ------------------------------------------------------------------ the counters

  /** As long as nothing was updated, the rewrite counter has not wrapped and covers
      everything that is to be deleted or split, or that was renamed. */
  ghost predicate Counted(r: Rewriting, t: nat) {
    && t <= |r.ds| < 0x1_0000_0000
    && (r.updates == 0 ==> r.rewrites <= |r.ds| + t && forall i :: 0 <= i < |r.ds| && (r.ds[i].toDelete || r.ds[i].toSplit || r.ds[i].status == Renamed) ==> r.rewrites > 0)
  }

  lemma StepCounted(r: Rewriting, src2tgt: seq<Match>, o: Options, t: nat)
    requires t < |r.ds| && Ranges(r, src2tgt) && InShape(r, t) && Counted(r, t)
    ensures Counted(Step(r, src2tgt, o, t), t + 1)
  {
    if CaseOf(r, src2tgt, o, t) != Nothing { TargetWaits(r, src2tgt, o, t); }
    hide CaseOf, InShape;
  }

  lemma StepsNone(r: Rewriting, src2tgt: seq<Match>, o: Options)
    requires Ranges(r, src2tgt)
    ensures Steps(r, src2tgt, o, 0) == r
  {
  }

  lemma StepsNext(r: Rewriting, src2tgt: seq<Match>, o: Options, t: nat)
    requires t < |r.ds| && Ranges(r, src2tgt)
    ensures var r' := Steps(r, src2tgt, o, t);
            |r'.ds| == |r.ds| && Ranges(r', src2tgt) && Steps(r, src2tgt, o, t + 1) == Step(r', src2tgt, o, t)
  {
  }

  lemma SoundParts(r: Rewriting, ds0: seq<Delta>, match0: seq<Match>, src2tgt: seq<Match>, t: nat)
    requires Sound(r, ds0, match0, src2tgt, t)
    ensures |r.ds| == |ds0| == |match0| == |r.tgt2src| == |src2tgt| && Ranges(r, src2tgt) && InShape(r, t) && Distinct(r)
  {
  }

  // ------------------------------------------------------------- split and delete

  function Cleared(d: Delta, actuallySplit: bool): Delta {
    var d := d.(toDelete := false, toSplit := false, isSource := false, isTarget := false, hasSelf := false);
    if d.status != Copied && d.status != Renamed && (d.status != Modified || actuallySplit) then d.(similarity := 0) else d
  }

  /** What a delta becomes in the final list. */
  function Finished(d: Delta, actuallySplit: bool, newIsWorkdir: bool): seq<Delta> {
    if d.toDelete then []
    else if d.toSplit && actuallySplit then
      var gone := Cleared(d.(similarity := 0, status := Deleted, nfiles := 1, newFile := NoFile(d.oldFile.path)), actuallySplit);
      var come := d.(similarity := 0, status := if newIsWorkdir then Untracked else Added, nfiles := 1, oldFile := NoFile(d.newFile.path));
      [gone, Cleared(come, actuallySplit)]
    else [Cleared(d, actuallySplit)]
  }

  function AllFinished(ds: seq<Delta>, actuallySplit: bool, newIsWorkdir: bool): seq<Delta> {
    if ds == [] then []
    else AllFinished(ds[..|ds| - 1], actuallySplit, newIsWorkdir) + Finished(ds[|ds| - 1], actuallySplit, newIsWorkdir)
  }

  lemma {:induction false} FilesConcat(a: seq<Delta>, b: seq<Delta>)
    ensures OldFiles(a + b) == OldFiles(a) + OldFiles(b) && NewFiles(a + b) == NewFiles(a) + NewFiles(b)
  {
    hide OldSide, NewSide;
    if a == [] {
      assert a + b == b;
    } else {
      assert (a + b)[1..] == a[1..] + b;
      FilesConcat(a[1..], b);
    }
  }

  lemma FilesOne(d: Delta)
    ensures OldFiles([d]) == OldSide(d) && NewFiles([d]) == NewSide(d)
  {
    hide OldSide, NewSide;
    assert [d][1..] == [];
  }

  lemma FinishedSides(d: Delta, actuallySplit: bool, newIsWorkdir: bool)
    requires d.toSplit ==> d.status == Modified
    ensures var f := Finished(d, actuallySplit, newIsWorkdir);
            && |f| <= 2
            && (|f| == 0 ==> !HasOld(d) && !HasNew(d))
            && (|f| == 1 ==> Combines(f[0], d, d))
            && (|f| == 2 ==> HasOld(d) && HasNew(d) && HasOld(f[0]) && !HasNew(f[0]) && !HasOld(f[1]) && HasNew(f[1])
                             && f[0].oldFile == d.oldFile && f[1].newFile == d.newFile)
  {
  }

  lemma FinishedFiles(d: Delta, actuallySplit: bool, newIsWorkdir: bool)
    requires d.toSplit ==> d.status == Modified
    ensures OldFiles(Finished(d, actuallySplit, newIsWorkdir)) == OldSide(d)
    ensures NewFiles(Finished(d, actuallySplit, newIsWorkdir)) == NewSide(d)
  {
    hide OldFiles, NewFiles, HasOld, HasNew, Finished;
    FinishedSides(d, actuallySplit, newIsWorkdir);
    var f := Finished(d, actuallySplit, newIsWorkdir);
    if |f| == 2 {
      assert f == [f[0]] + [f[1]];
      FilesConcat([f[0]], [f[1]]);
      FilesOne(f[0]);
      FilesOne(f[1]);
    } else if |f| == 1 {
      assert f == [f[0]];
      FilesOne(f[0]);
    } else {
      FilesNone();
    }
  }

  lemma FilesNone()
    ensures OldFiles([]) == multiset{} && NewFiles([]) == multiset{}
  {
  }

  /** Splitting and deleting changes no file either, and leaves no mark behind. */
  lemma {:induction false} AllFinishedFiles(ds: seq<Delta>, actuallySplit: bool, newIsWorkdir: bool)
    requires forall i :: 0 <= i < |ds| ==> ds[i].toSplit ==> ds[i].status == Modified
    ensures OldFiles(AllFinished(ds, actuallySplit, newIsWorkdir)) == OldFiles(ds)
    ensures NewFiles(AllFinished(ds, actuallySplit, newIsWorkdir)) == NewFiles(ds)
  {
    hide OldFiles, NewFiles, OldSide, NewSide, Finished;
    if ds != [] {
      var d := ds[|ds| - 1];
      FilesOne(d);
      AllFinishedFiles(ds[..|ds| - 1], actuallySplit, newIsWorkdir);
      FinishedFiles(d, actuallySplit, newIsWorkdir);
      FilesConcat(AllFinished(ds[..|ds| - 1], actuallySplit, newIsWorkdir), Finished(d, actuallySplit, newIsWorkdir));
      assert ds == ds[..|ds| - 1] + [d];
      FilesConcat(ds[..|ds| - 1], [d]);
    }
  }

  // -------------------------------------------------------------------- the code

  /** The body of the rewrite loop, in place. */
  method RewriteOne(deltas: array<Delta>, tgt2src: array<Match>, src2tgt: array<Match>, o: Options, t: nat, rewrites0: nat, updates0: nat)
    returns (rewrites: nat, updates: nat)
    requires tgt2src != src2tgt && t < deltas.Length
    requires Ranges(Rewriting(deltas[..], tgt2src[..], rewrites0, updates0), src2tgt[..])
    requires InShape(Rewriting(deltas[..], tgt2src[..], rewrites0, updates0), t)
    modifies deltas, tgt2src
    ensures Rewriting(deltas[..], tgt2src[..], rewrites, updates)
            == Step(Rewriting(old(deltas[..]), old(tgt2src[..]), rewrites0, updates0), old(src2tgt[..]), o, t)
  {
    rewrites, updates := rewrites0, updates0;
    if !deltas[t].isTarget || tgt2src[t].similarity == 0 { return; }
    var s := tgt2src[t].idx;
    if deltas[s].status == Deleted {
      rewrites, updates := RewriteFromDeleted(deltas, tgt2src, src2tgt, o, t, s, rewrites, updates);
    } else if IsSplit(deltas[s]) {
      rewrites, updates := RewriteFromSplit(deltas, tgt2src, src2tgt, o, t, s, rewrites, updates);
    }
  }

  /** The source is deleted: it is dropped, or takes over the old file of the target,
      which is split, as the code asserts. */
  method RewriteFromDeleted(deltas: array<Delta>, tgt2src: array<Match>, src2tgt: array<Match>, o: Options, t: nat, s: nat, rewrites0: nat, updates0: nat)
    returns (rewrites: nat, updates: nat)
    requires tgt2src != src2tgt && t < deltas.Length
    requires Ranges(Rewriting(deltas[..], tgt2src[..], rewrites0, updates0), src2tgt[..])
    requires InShape(Rewriting(deltas[..], tgt2src[..], rewrites0, updates0), t)
    requires deltas[t].isTarget && tgt2src[t].similarity > 0 && s == tgt2src[t].idx
    requires deltas[s].status == Deleted
    modifies deltas, tgt2src
    ensures Rewriting(deltas[..], tgt2src[..], rewrites, updates)
            == Step(Rewriting(old(deltas[..]), old(tgt2src[..]), rewrites0, updates0), old(src2tgt[..]), o, t)
  {
    rewrites, updates := rewrites0, updates0;
    ghost var r := Rewriting(deltas[..], tgt2src[..], rewrites0, updates0);
    ghost var back := src2tgt[..];
    if CaseOf(r, back, o, t) != Nothing { TargetWaits(r, back, o, t); }
    hide InShape;
    if NewOnly(deltas[t]) {
      if tgt2src[t].similarity < o.renameThreshold { return; }
      deltas[t] := MakeRename(deltas[t], deltas[s], tgt2src[t].similarity);
      deltas[s] := deltas[s].(toDelete := true);
      rewrites := Inc(rewrites);
    } else {
      assert IsSplit(deltas[t]);
      if tgt2src[t].similarity < o.rewriteThreshold { return; }
      var swap := deltas[t].oldFile;
      deltas[t] := MakeRename(deltas[t], deltas[s], tgt2src[t].similarity);
      rewrites := Dec(rewrites);
      deltas[s] := deltas[s].(oldFile := swap, newFile := NoFile(swap.path));
      updates := updates + 1;
      RepointTarget(tgt2src, src2tgt, t, s);
    }
  }

  /** The source is split: it becomes an addition, or the two exchange their old files. */
  method RewriteFromSplit(deltas: array<Delta>, tgt2src: array<Match>, src2tgt: array<Match>, o: Options, t: nat, s: nat, rewrites0: nat, updates0: nat)
    returns (rewrites: nat, updates: nat)
    requires tgt2src != src2tgt && t < deltas.Length
    requires Ranges(Rewriting(deltas[..], tgt2src[..], rewrites0, updates0), src2tgt[..])
    requires InShape(Rewriting(deltas[..], tgt2src[..], rewrites0, updates0), t)
    requires deltas[t].isTarget && tgt2src[t].similarity > 0 && s == tgt2src[t].idx
    requires deltas[s].status != Deleted && IsSplit(deltas[s])
    modifies deltas, tgt2src
    ensures Rewriting(deltas[..], tgt2src[..], rewrites, updates)
            == Step(Rewriting(old(deltas[..]), old(tgt2src[..]), rewrites0, updates0), old(src2tgt[..]), o, t)
  {
    rewrites, updates := rewrites0, updates0;
    ghost var ds0, r := deltas[..], Rewriting(deltas[..], tgt2src[..], rewrites0, updates0);
    ghost var c := CaseOf(r, src2tgt[..], o, t);
    hide InShape;
    if NewOnly(deltas[t]) {
      if tgt2src[t].similarity < o.renameThreshold { return; }
      deltas[t] := MakeRename(deltas[t], deltas[s], tgt2src[t].similarity);
      deltas[s] := deltas[s].(
        status := if o.newIsWorkdir then Untracked else Added, nfiles := 1,
        oldFile := NoFile(deltas[s].newFile.path), toSplit := false);
      rewrites := Dec(rewrites);
      updates := updates + 1;
      assert c == AddRename;
    } else {
      if tgt2src[t].similarity < o.rewriteThreshold { return; }
      var swap := deltas[t].oldFile;
      deltas[t] := MakeRename(deltas[t], deltas[s], tgt2src[t].similarity);
      rewrites := Dec(rewrites);
      updates := updates + 1;
      deltas[s] := deltas[s].(oldFile := swap);
      assert deltas[..] == ds0[t := MakeRename(ds0[t], ds0[s], r.tgt2src[t].similarity)][s := deltas[s]];
      if tgt2src[s].idx == t && tgt2src[s].similarity > o.rewriteThreshold {
        deltas[s] := deltas[s].(status := Renamed, similarity := tgt2src[s].similarity, toSplit := false);
        tgt2src[s] := tgt2src[s].(similarity := 0);
        rewrites := Dec(rewrites);
        assert c == SwapBoth;
      } else {
        RepointTarget(tgt2src, src2tgt, t, s);
        assert c == SwapOne;
      }
      updates := updates + 1;
    }
  }

  method RepointTarget(tgt2src: array<Match>, src2tgt: array<Match>, t: nat, s: nat)
    requires tgt2src != src2tgt && t < src2tgt.Length == tgt2src.Length
    requires src2tgt[t].similarity > 0 ==> src2tgt[t].idx < tgt2src.Length
    modifies tgt2src
    ensures tgt2src[..] == Repoint(old(tgt2src[..]), src2tgt[..], t, s)
  {
    if src2tgt[t].similarity > 0 && src2tgt[t].idx > t {
      tgt2src[src2tgt[t].idx] := tgt2src[src2tgt[t].idx].(idx := s);
    }
  }

  /** The rewrite loop over all targets. */
  method Rewrite(deltas: array<Delta>, tgt2src: array<Match>, src2tgt: array<Match>, o: Options, rewrites0: nat)
    returns (rewrites: nat, updates: nat)
    requires tgt2src != src2tgt && Ranges(Rewriting(deltas[..], tgt2src[..], rewrites0, 0), src2tgt[..])
    requires InShape(Rewriting(deltas[..], tgt2src[..], rewrites0, 0), 0)
    modifies deltas, tgt2src
    ensures Rewriting(deltas[..], tgt2src[..], rewrites, updates)
            == Steps(Rewriting(old(deltas[..]), old(tgt2src[..]), rewrites0, 0), old(src2tgt[..]), o, deltas.Length)
  {
    ghost var start, back := Rewriting(deltas[..], tgt2src[..], rewrites0, 0), src2tgt[..];
    hide *;
    StepsNone(start, back, o);
    rewrites, updates := rewrites0, 0;
    for t := 0 to deltas.Length
      invariant src2tgt[..] == back
      invariant Rewriting(deltas[..], tgt2src[..], rewrites, updates) == Steps(start, back, o, t)
      invariant Ranges(Steps(start, back, o, t), back) && InShape(Steps(start, back, o, t), t)
    {
      ghost var r := Steps(start, back, o, t);
      StepsNext(start, back, o, t);
      StepInShape(r, back, o, t);
      rewrites, updates := RewriteOne(deltas, tgt2src, src2tgt, o, t, rewrites, updates);
      assert Rewriting(deltas[..], tgt2src[..], rewrites, updates) == Step(r, back, o, t);
    }
  }

  lemma StepInShape(r: Rewriting, src2tgt: seq<Match>, o: Options, t: nat)
    requires t < |r.ds| && Ranges(r, src2tgt) && InShape(r, t)
    ensures Ranges(Step(r, src2tgt, o, t), src2tgt) && InShape(Step(r, src2tgt, o, t), t + 1)
  {
    hide InShape, Step, Ranges;
    if CaseOf(r, src2tgt, o, t) == Nothing { NothingShape(r, src2tgt, o, t); } else { StepShape(r, src2tgt, o, t); }
  }

  /** Splits and deletes as marked.  The sorting of the new list is left out. */
  method ApplySplitsAndDeletes(deltas: array<Delta>, actuallySplit: bool, newIsWorkdir: bool) returns (onto: seq<Delta>)
    ensures onto == AllFinished(deltas[..], actuallySplit, newIsWorkdir)
  {
    onto := [];
    for i := 0 to deltas.Length
      invariant onto == AllFinished(deltas[..i], actuallySplit, newIsWorkdir)
    {
      assert deltas[..i + 1][..i] == deltas[..i];
      var d := deltas[i];
      if d.toDelete { continue; }
      if d.toSplit && actuallySplit {
        d := d.(similarity := 0);
        onto := onto + [Cleared(d.(status := Deleted, nfiles := 1, newFile := NoFile(d.oldFile.path)), actuallySplit)];
        d := d.(status := if newIsWorkdir then Untracked else Added, nfiles := 1, oldFile := NoFile(d.newFile.path));
      }
      onto := onto + [Cleared(d, actuallySplit)];
    }
    assert deltas[..deltas.Length] == deltas[..];
  }

  /** The labelling loop; returns how many sources, targets and splits there are. */
  method LabelAll(deltas: array<Delta>, o: Options, measured: nat -> Option<nat>) returns (numSrcs: nat, numTgts: nat, rewrites: nat)
    requires forall i :: 0 <= i < deltas.Length ==> Fresh(deltas[i])
    modifies deltas
    ensures forall i :: 0 <= i < deltas.Length ==> deltas[i] == Label(old(deltas[i]), o, measured(i))
    ensures rewrites <= deltas.Length && (rewrites == 0 ==> forall i :: 0 <= i < deltas.Length ==> !deltas[i].toSplit)
    ensures numSrcs == 0 <==> forall i :: 0 <= i < deltas.Length ==> !deltas[i].isSource
    ensures numTgts == 0 <==> forall i :: 0 <= i < deltas.Length ==> !deltas[i].isTarget
  {
    hide LabelTarget, LabelSource, Fresh;
    numSrcs, numTgts, rewrites := 0, 0, 0;
    for t := 0 to deltas.Length
      invariant forall i :: 0 <= i < t ==> deltas[i] == Label(old(deltas[i]), o, measured(i))
      invariant forall i :: t <= i < deltas.Length ==> deltas[i] == old(deltas[i])
      invariant rewrites <= t && (rewrites == 0 ==> forall i :: 0 <= i < t ==> !deltas[i].toSplit)
      invariant numSrcs == 0 <==> forall i :: 0 <= i < t ==> !deltas[i].isSource
      invariant numTgts == 0 <==> forall i :: 0 <= i < t ==> !deltas[i].isTarget
    {
      deltas[t] := LabelSource(deltas[t], o, measured(t));
      deltas[t] := LabelTarget(deltas[t], o, measured(t));
      if deltas[t].isSource { numSrcs := numSrcs + 1; }
      if deltas[t].isTarget { numTgts := numTgts + 1; }
      if deltas[t].toSplit { rewrites := rewrites + 1; }
    }
  }
}
