/** Rename detection, which matches become renames: the exact condition, stated on the
    labelled diff and the matching, and the proof that the rewrite loop follows it. */
module RenameCarried {
  import opened Common
  import opened RenameMatch
  import opened RenameRewrite

  // ------------------------------------------------- which matches become renames

  /** A matching of the targets of a labelled diff. */
  ghost predicate Fits(ds0: seq<Delta>, m: seq<Match>) {
    |ds0| == |m| && forall u :: 0 <= u < |m| && m[u].similarity > 0 ==> m[u].idx < |ds0|
  }

  predicate Movable(d: Delta) { d.status == Deleted || IsSplit(d) }

  /** Where the file that target u was matched to is looked for just before target t is
      processed.  It is followed once: to where its source was renamed from, if the
      source is a target of its own that was renamed in its turn. */
  ghost function WaitsAt(ds0: seq<Delta>, m: seq<Match>, o: Options, u: nat, t: nat): (p: nat)
    requires Fits(ds0, m) && u < |m|
    ensures m[u].similarity > 0 ==> p < |ds0|
    decreases u, 0
  {
    var p := m[u].idx;
    if p < u && p < t && InTurn(ds0, m, o, p) then Place(ds0, m, o, p) else p
  }

  /** Where it is looked for when it is u's turn. */
  ghost function Place(ds0: seq<Delta>, m: seq<Match>, o: Options, u: nat): (p: nat)
    requires Fits(ds0, m) && u < |m|
    ensures m[u].similarity > 0 ==> p < |ds0|
    decreases u, 1
  {
    WaitsAt(ds0, m, o, u, u)
  }

  /** Targets q and u are each other's source when it is q's turn, and u is similar
      enough to be renamed along with q. */
  ghost predicate SwappedBy(ds0: seq<Delta>, m: seq<Match>, o: Options, u: nat, q: nat)
    requires Fits(ds0, m) && q < u < |m|
    decreases u, 1
  {
    && InTurn(ds0, m, o, q) && Place(ds0, m, o, q) == u && WaitsAt(ds0, m, o, u, q) == q
    && m[u].similarity > o.rewriteThreshold
  }

  /** Target u is renamed together with a target before t. */
  ghost predicate Together(ds0: seq<Delta>, m: seq<Match>, o: Options, u: nat, t: nat)
    requires Fits(ds0, m) && t <= u < |m|
    decreases u, 2
  {
    exists q: nat :: q < t && SwappedBy(ds0, m, o, u, q)
  }

  /** Target u is an addition, or has become one since its old file went to an addition. */
  ghost predicate AsNew(ds0: seq<Delta>, m: seq<Match>, o: Options, u: nat, t: nat)
    requires Fits(ds0, m) && t <= u < |m|
    decreases u, 2
  {
    NewOnly(ds0[u]) || exists q: nat :: q < t && GivesTo(ds0, m, o, u, q)
  }

  ghost predicate GivesTo(ds0: seq<Delta>, m: seq<Match>, o: Options, u: nat, q: nat)
    requires Fits(ds0, m) && q < u < |m|
    decreases u, 1
  {
    InTurn(ds0, m, o, q) && AsNew(ds0, m, o, q, q) && Place(ds0, m, o, q) == u
  }

  /** Target u is renamed in its own turn: its source is there, has not been renamed
      before, and the pair scores high enough. */
  ghost predicate InTurn(ds0: seq<Delta>, m: seq<Match>, o: Options, u: nat)
    requires Fits(ds0, m) && u < |m|
    decreases u, 3
  {
    && m[u].similarity > 0 && !Together(ds0, m, o, u, u)
    && Movable(ds0[Place(ds0, m, o, u)])
    && !(Place(ds0, m, o, u) < u && Carried(ds0, m, o, Place(ds0, m, o, u)))
    && m[u].similarity >= (if AsNew(ds0, m, o, u, u) then o.renameThreshold else o.rewriteThreshold)
  }

  /** The match of target u becomes a rename. */
  ghost predicate Carried(ds0: seq<Delta>, m: seq<Match>, o: Options, u: nat)
    requires Fits(ds0, m) && u < |m|
    decreases u, 4
  {
    Together(ds0, m, o, u, u) || InTurn(ds0, m, o, u)
  }

  lemma WaitsNext(ds0: seq<Delta>, m: seq<Match>, o: Options, u: nat, t: nat)
    requires Fits(ds0, m) && t < u < |m|
    ensures WaitsAt(ds0, m, o, u, t + 1)
            == if m[u].idx == t && InTurn(ds0, m, o, t) then Place(ds0, m, o, t) else WaitsAt(ds0, m, o, u, t)
  {
    hide InTurn, Place;
  }

  lemma TogetherNext(ds0: seq<Delta>, m: seq<Match>, o: Options, u: nat, t: nat)
    requires Fits(ds0, m) && t < u < |m|
    ensures Together(ds0, m, o, u, t + 1) <==> Together(ds0, m, o, u, t) || SwappedBy(ds0, m, o, u, t)
  {
    hide SwappedBy;
  }

  lemma AsNewNext(ds0: seq<Delta>, m: seq<Match>, o: Options, u: nat, t: nat)
    requires Fits(ds0, m) && t < u < |m|
    ensures AsNew(ds0, m, o, u, t + 1) <==> AsNew(ds0, m, o, u, t) || GivesTo(ds0, m, o, u, t)
  {
    hide GivesTo;
  }

  /** What is known of target u before target t is processed. */
  ghost predicate ExactAt(r: Rewriting, ds0: seq<Delta>, m: seq<Match>, o: Options, t: nat, u: nat)
    requires Fits(ds0, m) && |r.ds| == |r.tgt2src| == |m| && u < |m|
  {
    if u < t then Done(r, ds0, m, o, u)
    else if m[u].similarity == 0 then r.ds[u].status != Renamed && r.tgt2src[u].similarity == 0
    else if Together(ds0, m, o, u, t) then r.ds[u].status == Renamed && r.tgt2src[u].similarity == 0
    else
      && r.ds[u].status != Renamed && r.tgt2src[u] == Match(WaitsAt(ds0, m, o, u, t), m[u].similarity)
      && (NewOnly(r.ds[u]) <==> AsNew(ds0, m, o, u, t)) && Waits(r, u, t)
  }

  /** A processed target is renamed exactly if it is carried; one that still waits never
      meets the conditions of an exchange again. */
  ghost predicate Done(r: Rewriting, ds0: seq<Delta>, m: seq<Match>, o: Options, u: nat)
    requires Fits(ds0, m) && |r.ds| == |r.tgt2src| == |m| && u < |m|
  {
    && (r.ds[u].status == Renamed <==> Carried(ds0, m, o, u))
    && (Pending(r, u) ==> r.tgt2src[u].idx < |m|)
    && (Pending(r, u) && r.ds[r.tgt2src[u].idx].status != Renamed && !NewOnly(r.ds[u]) ==>
          r.tgt2src[u].similarity < o.rewriteThreshold || !Movable(ds0[r.tgt2src[u].idx]))
  }

  ghost predicate Waits(r: Rewriting, u: nat, t: nat)
    requires u < |r.tgt2src| == |r.ds|
  {
    && r.tgt2src[u].idx < |r.ds| && !NewOnly(r.ds[r.tgt2src[u].idx])
    && (r.ds[r.tgt2src[u].idx].status == Renamed ==> r.tgt2src[u].idx < t)
  }

  /** What has not become a rename or an addition is what it was. */
  ghost predicate SameKind(ds: seq<Delta>, ds0: seq<Delta>) {
    && |ds| == |ds0|
    && forall i :: 0 <= i < |ds| && ds[i].status != Renamed && !NewOnly(ds[i]) ==>
         ds[i].status == ds0[i].status && ds[i].toSplit == ds0[i].toSplit
  }

  ghost predicate Exact(r: Rewriting, ds0: seq<Delta>, m: seq<Match>, o: Options, t: nat) {
    && Fits(ds0, m) && |r.ds| == |r.tgt2src| == |m| && SameKind(r.ds, ds0)
    && forall u: nat :: u < |m| ==> ExactAt(r, ds0, m, o, t, u)
  }

  /** The rewrite loop renames target t at its turn exactly if it is in turn. */
  lemma CaseInTurn(r: Rewriting, ds0: seq<Delta>, m: seq<Match>, src2tgt: seq<Match>, o: Options, t: nat)
    requires t < |r.ds| && Ranges(r, src2tgt) && Exact(r, ds0, m, o, t) && InShape(r, t)
    requires m[t].similarity > 0 ==> r.ds[t].isTarget
    ensures CaseOf(r, src2tgt, o, t) != Nothing <==> InTurn(ds0, m, o, t)
  {
    hide WaitsAt, AsNew, Together;
    assert ExactAt(r, ds0, m, o, t, t);
    if m[t].similarity > 0 && !Together(ds0, m, o, t, t) {
      var p := Place(ds0, m, o, t);
      assert p == WaitsAt(ds0, m, o, t, t);
      assert ExactAt(r, ds0, m, o, t, p);
      assert r.ds[p].status == Renamed <==> p < t && Carried(ds0, m, o, p);
      assert r.ds[p].status != Renamed ==> (Movable(r.ds[p]) <==> Movable(ds0[p]));
    }
  }

  lemma NothingExact(r: Rewriting, ds0: seq<Delta>, m: seq<Match>, o: Options, t: nat)
    requires t < |r.ds| && Exact(r, ds0, m, o, t) && !InTurn(ds0, m, o, t)
    ensures Exact(r, ds0, m, o, t + 1)
  {
    var t' := t + 1;
    forall u: nat | u < |m| ensures ExactAt(r, ds0, m, o, t', u) {
      assert ExactAt(r, ds0, m, o, t, u);
      if u == t {
        NothingDone(r, ds0, m, o, t);
      } else if t < u {
        hide Together, AsNew, WaitsAt, InTurn;
        TogetherNext(ds0, m, o, u, t);
        AsNewNext(ds0, m, o, u, t);
        WaitsNext(ds0, m, o, u, t);
      }
    }
  }

  lemma TogetherMatched(ds0: seq<Delta>, m: seq<Match>, o: Options, u: nat, t: nat)
    requires Fits(ds0, m) && t <= u < |m| && Together(ds0, m, o, u, t)
    ensures m[u].similarity > 0
  {
  }

  lemma NothingDone(r: Rewriting, ds0: seq<Delta>, m: seq<Match>, o: Options, t: nat)
    requires t < |r.ds| && Exact(r, ds0, m, o, t) && !InTurn(ds0, m, o, t)
    ensures Done(r, ds0, m, o, t)
  {
    hide WaitsAt, AsNew, Together;
    assert ExactAt(r, ds0, m, o, t, t);
    if Together(ds0, m, o, t, t) {
      TogetherMatched(ds0, m, o, t, t);
    } else if m[t].similarity > 0 {
      var p := Place(ds0, m, o, t);
      assert p == WaitsAt(ds0, m, o, t, t) == r.tgt2src[t].idx;
      if p < t { assert ExactAt(r, ds0, m, o, t, p); }
      assert p < t && Carried(ds0, m, o, p) ==> r.ds[p].status == Renamed;
    }
  }

  /** What a renaming step of case c does to kinds and matches. */
  ghost predicate Effect(r: Rewriting, r': Rewriting, c: Case, t: nat, s: nat, v: nat) {
    && |r.ds| == |r.tgt2src| == |r'.ds| == |r'.tgt2src| && t < |r.ds| && s < |r.ds| && t <= v < |r.ds|
    && EffectKinds(r, r', c, t, s) && EffectMatches(r, r', c, t, s, v)
  }

  ghost predicate EffectKinds(r: Rewriting, r': Rewriting, c: Case, t: nat, s: nat)
    requires |r.ds| == |r'.ds| && t < |r.ds| && s < |r.ds|
  {
    && r'.ds[t].status == Renamed
    && (s != t && c == SwapBoth ==> r'.ds[s].status == Renamed)
    && (s != t && c == AddRename ==> NewOnly(r'.ds[s]))
    && (s != t && c != SwapBoth && c != AddRename ==> r'.ds[s].status == r.ds[s].status && r'.ds[s].toSplit == r.ds[s].toSplit)
    && (forall i :: 0 <= i < |r.ds| && i != s && i != t ==> r'.ds[i] == r.ds[i])
  }

  ghost predicate EffectMatches(r: Rewriting, r': Rewriting, c: Case, t: nat, s: nat, v: nat)
    requires |r.tgt2src| == |r'.tgt2src| && s < |r.tgt2src| && v < |r.tgt2src|
  {
    r'.tgt2src ==
      if c == SwapBoth then Ejected(r.tgt2src, s)
      else if v != t && (c == RenameSwapDeleted || c == SwapOne) then r.tgt2src[v := r.tgt2src[v].(idx := s)]
      else r.tgt2src
  }

  lemma StepEffectKinds(r: Rewriting, src2tgt: seq<Match>, o: Options, t: nat)
    requires t < |r.ds| && Ranges(r, src2tgt) && InShape(r, t) && CaseOf(r, src2tgt, o, t) != Nothing
    ensures var (r', s) := (Step(r, src2tgt, o, t), r.tgt2src[t].idx);
            |r'.ds| == |r.ds| == |r'.tgt2src| && s < |r.ds| && EffectKinds(r, r', CaseOf(r, src2tgt, o, t), t, s)
  {
    TargetWaits(r, src2tgt, o, t);
    hide CaseOf, InShape;
  }

  lemma StepEffectMatches(r: Rewriting, src2tgt: seq<Match>, o: Options, t: nat)
    requires t < |r.ds| && Ranges(r, src2tgt) && CaseOf(r, src2tgt, o, t) != Nothing
    ensures var (r', s, v) := (Step(r, src2tgt, o, t), r.tgt2src[t].idx, Mover(src2tgt, t));
            && |r'.ds| == |r.ds| == |r'.tgt2src| && s < |r.ds| && t <= v < |r.ds|
            && EffectMatches(r, r', CaseOf(r, src2tgt, o, t), t, s, v)
  {
    assert r.tgt2src[t].similarity > 0;
    hide CaseOf;
  }

  /** What decides the case. */
  ghost predicate Decided(r: Rewriting, o: Options, c: Case, t: nat, s: nat)
    requires |r.ds| == |r.tgt2src| && t < |r.ds| && s < |r.ds|
  {
    && Pending(r, t) && r.tgt2src[t].idx == s && r.ds[s].status != Renamed && Movable(r.ds[s]) && !NewOnly(r.ds[s])
    && (r.tgt2src[s].similarity > 0 ==> r.ds[s].status != Deleted)
    && (c == AddRename <==> NewOnly(r.ds[t]) && r.ds[s].status != Deleted)
    && (c == RenameDelete || c == AddRename <==> NewOnly(r.ds[t]))
    && (c == SwapBoth <==> !NewOnly(r.ds[t]) && r.ds[s].status != Deleted && r.tgt2src[s].idx == t && r.tgt2src[s].similarity > o.rewriteThreshold)
    && (c == RenameSwapDeleted || c == SwapOne <==> !NewOnly(r.ds[t]) && c != SwapBoth)
    && (!NewOnly(r.ds[t]) ==> Movable(r.ds[t]) && r.tgt2src[t].similarity >= o.rewriteThreshold)
  }

  lemma CaseDecided(r: Rewriting, src2tgt: seq<Match>, o: Options, t: nat)
    requires t < |r.ds| && Ranges(r, src2tgt) && InShape(r, t) && CaseOf(r, src2tgt, o, t) != Nothing
    ensures r.tgt2src[t].idx < |r.ds| && Decided(r, o, CaseOf(r, src2tgt, o, t), t, r.tgt2src[t].idx)
  {
    TargetWaits(r, src2tgt, o, t);
  }

  /** The re-pointed target is the one that was matched to t. */
  ghost predicate Follows(m: seq<Match>, t: nat, v: nat) {
    && t <= v < |m| && (v > t ==> m[v].idx == t && m[v].similarity > 0)
    && forall u: nat :: t < u < |m| && m[u].similarity > 0 && m[u].idx == t ==> u == v
  }

  lemma MoverFollows(m: seq<Match>, src2tgt: seq<Match>, t: nat)
    requires Linked(src2tgt, m) && Linked(m, src2tgt) && t < |m|
    ensures Follows(m, t, Mover(src2tgt, t))
  {
  }

  /** All that is needed about a renaming step. */
  ghost predicate Turn(r: Rewriting, r': Rewriting, ds0: seq<Delta>, m: seq<Match>, o: Options, c: Case, t: nat, s: nat, v: nat) {
    && Effect(r, r', c, t, s, v) && Decided(r, o, c, t, s) && Exact(r, ds0, m, o, t) && Distinct(r)
    && InTurn(ds0, m, o, t) && Follows(m, t, v)
  }

  lemma TurnSame(r: Rewriting, r': Rewriting, ds0: seq<Delta>, m: seq<Match>, o: Options, c: Case, t: nat, s: nat, v: nat)
    requires Turn(r, r', ds0, m, o, c, t, s, v)
    ensures SameKind(r'.ds, ds0)
  {
    hide ExactAt, InTurn, Distinct, Follows, EffectMatches;
  }

  /** Targets before t keep their status. */
  lemma TurnBefore(r: Rewriting, r': Rewriting, ds0: seq<Delta>, m: seq<Match>, o: Options, c: Case, t: nat, s: nat, v: nat, u: nat)
    requires Turn(r, r', ds0, m, o, c, t, s, v) && u < t
    ensures Done(r', ds0, m, o, u)
  {
    hide InTurn, Follows, Carried;
    assert ExactAt(r, ds0, m, o, t, u);
    if u == s {
      assert c != SwapBoth;
    }
  }

  lemma TurnAt(r: Rewriting, r': Rewriting, ds0: seq<Delta>, m: seq<Match>, o: Options, c: Case, t: nat, s: nat, v: nat)
    requires Turn(r, r', ds0, m, o, c, t, s, v)
    ensures Done(r', ds0, m, o, t)
  {
    hide InTurn, Follows, ExactAt;
  }

  /** Targets behind t: one that waited for t's old file is renamed along with t, or
      re-pointed to where that file is now. */
  lemma TurnBehind(r: Rewriting, r': Rewriting, ds0: seq<Delta>, m: seq<Match>, o: Options, c: Case, t: nat, s: nat, v: nat, u: nat)
    requires Turn(r, r', ds0, m, o, c, t, s, v) && t < u < |m|
    ensures |r'.ds| == |r'.tgt2src| == |m| && Fits(ds0, m) && ExactAt(r', ds0, m, o, t + 1, u)
  {
    assert ExactAt(r, ds0, m, o, t, u);
    TogetherNext(ds0, m, o, u, t);
    hide InTurn, Together, AsNew, WaitsAt, Exact, Place;
    if m[u].similarity > 0 && !Together(ds0, m, o, u, t) {
      TurnSwaps(r, r', ds0, m, o, c, t, s, v, u);
      if !SwappedBy(ds0, m, o, u, t) {
        TurnWhere(r, r', ds0, m, o, c, t, s, v, u);
        TurnKind(r, r', ds0, m, o, c, t, s, v, u);
      }
      hide Distinct, Follows, SwappedBy, Effect, Decided, Waits;
    }
  }

  lemma TurnSwaps(r: Rewriting, r': Rewriting, ds0: seq<Delta>, m: seq<Match>, o: Options, c: Case, t: nat, s: nat, v: nat, u: nat)
    requires Turn(r, r', ds0, m, o, c, t, s, v) && t < u < |m| && m[u].similarity > 0 && !Together(ds0, m, o, u, t)
    ensures |r'.ds| == |r'.tgt2src| == |m|
    ensures if SwappedBy(ds0, m, o, u, t) then r'.ds[u].status == Renamed && r'.tgt2src[u].similarity == 0
            else r'.ds[u].status != Renamed && r'.tgt2src[u].similarity == m[u].similarity
  {
    assert ExactAt(r, ds0, m, o, t, u) && ExactAt(r, ds0, m, o, t, t);
    hide InTurn, Together, AsNew, WaitsAt, Exact;
    assert SwappedBy(ds0, m, o, u, t) <==> c == SwapBoth && u == s;
  }

  lemma TurnWhere(r: Rewriting, r': Rewriting, ds0: seq<Delta>, m: seq<Match>, o: Options, c: Case, t: nat, s: nat, v: nat, u: nat)
    requires Turn(r, r', ds0, m, o, c, t, s, v) && t < u < |m| && m[u].similarity > 0 && !Together(ds0, m, o, u, t)
    requires !SwappedBy(ds0, m, o, u, t)
    ensures |r'.ds| == |r'.tgt2src| == |m| && r'.tgt2src[u].idx == WaitsAt(ds0, m, o, u, t + 1) && Waits(r', u, t + 1)
  {
    WaitsNext(ds0, m, o, u, t);
    assert ExactAt(r, ds0, m, o, t, u) && ExactAt(r, ds0, m, o, t, t);
    WaitsForLater(ds0, m, o, u, t);
    hide InTurn, Together, AsNew, WaitsAt, Exact;
    assert r.tgt2src[u].idx != s && Pending(r, u);
  }

  lemma WaitsForLater(ds0: seq<Delta>, m: seq<Match>, o: Options, u: nat, t: nat)
    requires Fits(ds0, m) && t < u < |m|
    ensures m[u].idx == t ==> WaitsAt(ds0, m, o, u, t) == t
  {
  }

  lemma TurnKind(r: Rewriting, r': Rewriting, ds0: seq<Delta>, m: seq<Match>, o: Options, c: Case, t: nat, s: nat, v: nat, u: nat)
    requires Turn(r, r', ds0, m, o, c, t, s, v) && t < u < |m| && m[u].similarity > 0 && !Together(ds0, m, o, u, t)
    requires !SwappedBy(ds0, m, o, u, t)
    ensures |r'.ds| == |r'.tgt2src| == |m| && (NewOnly(r'.ds[u]) <==> AsNew(ds0, m, o, u, t + 1))
  {
    AsNewNext(ds0, m, o, u, t);
    assert ExactAt(r, ds0, m, o, t, u) && ExactAt(r, ds0, m, o, t, t);
    hide InTurn, Together, AsNew, WaitsAt, Exact;
    assert GivesTo(ds0, m, o, u, t) <==> c == AddRename && u == s;
  }

  lemma StepTurn(r: Rewriting, ds0: seq<Delta>, m: seq<Match>, src2tgt: seq<Match>, o: Options, t: nat)
    requires t < |r.ds| && Sound(r, ds0, m, src2tgt, t) && Linked(m, src2tgt) && Exact(r, ds0, m, o, t)
    requires CaseOf(r, src2tgt, o, t) != Nothing && InTurn(ds0, m, o, t)
    ensures var (r', s, v) := (Step(r, src2tgt, o, t), r.tgt2src[t].idx, Mover(src2tgt, t));
            Turn(r, r', ds0, m, o, CaseOf(r, src2tgt, o, t), t, s, v)
  {
    SoundParts(r, ds0, m, src2tgt, t);
    hide CaseOf, Step, Exact, InTurn, InShape, Distinct, Faithful, Moved, Linked, Ranges, Follows, Decided, EffectKinds, EffectMatches;
    MoverFollows(m, src2tgt, t);
    CaseDecided(r, src2tgt, o, t);
    StepEffectKinds(r, src2tgt, o, t);
    StepEffectMatches(r, src2tgt, o, t);
  }

  lemma TurnExact(r: Rewriting, r': Rewriting, ds0: seq<Delta>, m: seq<Match>, o: Options, c: Case, t: nat, s: nat, v: nat)
    requires Turn(r, r', ds0, m, o, c, t, s, v)
    ensures Exact(r', ds0, m, o, t + 1)
  {
    TurnSame(r, r', ds0, m, o, c, t, s, v);
    TurnAt(r, r', ds0, m, o, c, t, s, v);
    hide Decided, EffectKinds, EffectMatches, Distinct, InTurn, Follows, SameKind, Done;
    var t' := t + 1;
    forall u: nat | u < |m| ensures ExactAt(r', ds0, m, o, t', u) {
      if u < t {
        TurnBefore(r, r', ds0, m, o, c, t, s, v, u);
      } else if t < u {
        TurnBehind(r, r', ds0, m, o, c, t, s, v, u);
      }
    }
  }

  /** One step of the rewrite loop keeps the exact account. */
  lemma StepExact(r: Rewriting, ds0: seq<Delta>, m: seq<Match>, src2tgt: seq<Match>, o: Options, t: nat)
    requires t < |r.ds| && Sound(r, ds0, m, src2tgt, t) && Linked(m, src2tgt) && Exact(r, ds0, m, o, t)
    requires m[t].similarity > 0 ==> r.ds[t].isTarget
    ensures Exact(Step(r, src2tgt, o, t), ds0, m, o, t + 1)
  {
    SoundParts(r, ds0, m, src2tgt, t);
    hide InShape, Distinct, Faithful, Moved, Linked, Ranges, Exact, InTurn, Turn;
    CaseInTurn(r, ds0, m, src2tgt, o, t);
    if CaseOf(r, src2tgt, o, t) == Nothing {
      NothingShape(r, src2tgt, o, t);
      NothingExact(r, ds0, m, o, t);
    } else {
      hide CaseOf, Step;
      assert r.tgt2src[t].idx < |r.ds| by { CaseDecided(r, src2tgt, o, t); }
      StepTurn(r, ds0, m, src2tgt, o, t);
      TurnExact(r, Step(r, src2tgt, o, t), ds0, m, o, CaseOf(r, src2tgt, o, t), t, r.tgt2src[t].idx, Mover(src2tgt, t));
    }
  }

  lemma StartExact(ds0: seq<Delta>, m: seq<Match>, o: Options, rewrites: nat)
    requires Fits(ds0, m) && forall u :: 0 <= u < |ds0| ==> Sensible(ds0[u])
    requires forall u :: 0 <= u < |m| && m[u].similarity > 0 ==> ds0[m[u].idx].isSource
    ensures Exact(Rewriting(ds0, m, rewrites, 0), ds0, m, o, 0)
  {
  }

  /** When all targets are processed, the renamed ones are the carried ones. */
  lemma ExactDone(r: Rewriting, ds0: seq<Delta>, m: seq<Match>, o: Options)
    requires Exact(r, ds0, m, o, |m|)
    ensures Fits(ds0, m) && |r.ds| == |m|
    ensures forall u: nat :: u < |m| ==> (r.ds[u].status == Renamed <==> Carried(ds0, m, o, u))
  {
    hide Carried;
    forall u: nat | u < |m| ensures r.ds[u].status == Renamed <==> Carried(ds0, m, o, u) {
      assert ExactAt(r, ds0, m, o, |m|, u);
    }
  }

  lemma UnmatchedStays(ds0: seq<Delta>, m: seq<Match>, o: Options, u: nat)
    requires Fits(ds0, m) && u < |m| && m[u].similarity == 0
    ensures !InTurn(ds0, m, o, u) && !Carried(ds0, m, o, u)
  {
    if Together(ds0, m, o, u, u) { TogetherMatched(ds0, m, o, u, u); }
  }

  /** A match that scores above both thresholds and whose source can be moved is lost
      only if its source is a matched target that comes before it and is renamed. */
  lemma GoodMatchesCarried(ds0: seq<Delta>, m: seq<Match>, o: Options, u: nat)
    requires Fits(ds0, m) && u < |m| && m[u].similarity > 0 && Movable(ds0[m[u].idx])
    requires m[u].similarity >= o.renameThreshold && m[u].similarity >= o.rewriteThreshold
    requires m[u].idx >= u || m[m[u].idx].similarity == 0
    ensures Carried(ds0, m, o, u)
  {
    hide AsNew, Together;
    var s := m[u].idx;
    if s < u { UnmatchedStays(ds0, m, o, s); }
    hide Carried;
    assert Place(ds0, m, o, u) == WaitsAt(ds0, m, o, u, u) == s;
    hide WaitsAt, Place;
    assert InTurn(ds0, m, o, u) || Together(ds0, m, o, u, u);
    CarriedMeans(ds0, m, o, u);
  }

  lemma CarriedMeans(ds0: seq<Delta>, m: seq<Match>, o: Options, u: nat)
    requires Fits(ds0, m) && u < |m|
    ensures Carried(ds0, m, o, u) <==> Together(ds0, m, o, u, u) || InTurn(ds0, m, o, u)
  {
  }
}
