/** Rename detection, first half (diff_tform.c): the two-sided greedy matching that
    is repeated until no match is bumped. */
module RenameMatch {
  import opened Common

  /** diff_find_match; a similarity of 0 means unmatched. */
  datatype Match = Match(idx: nat, similarity: nat)

  /** The score that a pair is compared by: a uint16_t, or none when the pair is not
      comparable.  Self-similarity is not measured. */
  function PairScore(score: (nat, nat) -> int, s: nat, t: nat): Option<nat> {
    if s == t || score(s, t) < 0 then None else Some(score(s, t) % 0x1_0000)
  }

  // ------------------------------------------------------------------- matching

  /** `a` and `b` are cross-linked: the partner of a partner is oneself, and the
      similarity is the score of the pair. */
  ghost predicate Linked(a: seq<Match>, b: seq<Match>) {
    |a| == |b| &&
    forall i :: 0 <= i < |a| && a[i].similarity > 0 ==>
      a[i].idx < |b| && b[a[i].idx] == Match(i, a[i].similarity)
  }

  ghost predicate Scored(tgt2src: seq<Match>, score: (nat, nat) -> int) {
    forall t :: 0 <= t < |tgt2src| && tgt2src[t].similarity > 0 ==>
      PairScore(score, tgt2src[t].idx, t) == Some(tgt2src[t].similarity)
  }

  ghost predicate Matching(tgt2src: seq<Match>, src2tgt: seq<Match>, score: (nat, nat) -> int) {
    Linked(tgt2src, src2tgt) && Linked(src2tgt, tgt2src) && Scored(tgt2src, score)
  }

  function Ejected(a: seq<Match>, i: nat): seq<Match>
    requires i < |a|
  {
    a[i := a[i].(similarity := 0)]
  }

  /** The update of a better pair: both old partners are ejected. */
  ghost function Update(tgt2src: seq<Match>, src2tgt: seq<Match>, s: nat, t: nat, w: nat): (seq<Match>, seq<Match>)
    requires s < |src2tgt| && t < |tgt2src| && Linked(tgt2src, src2tgt) && Linked(src2tgt, tgt2src)
  {
    var t1 := if src2tgt[s].similarity > 0 then Ejected(tgt2src, src2tgt[s].idx) else tgt2src;
    var s1 := if t1[t].similarity > 0 then Ejected(src2tgt, t1[t].idx) else src2tgt;
    (t1[t := Match(s, w)], s1[s := Match(t, w)])
  }

  lemma UpdateMatches(tgt2src: seq<Match>, src2tgt: seq<Match>, score: (nat, nat) -> int, s: nat, t: nat, w: nat)
    requires Matching(tgt2src, src2tgt, score) && s < |src2tgt| && t < |tgt2src|
    requires PairScore(score, s, t) == Some(w) && tgt2src[t].similarity < w && src2tgt[s].similarity < w
    ensures var (t', s') := Update(tgt2src, src2tgt, s, t, w); Matching(t', s', score)
  {
  }

  // ------------------------------------------------------------------- progress

  function Pow3(n: nat): (r: nat)
    ensures r >= 1
  {
    if n == 0 then 1 else 3 * Pow3(n - 1)
  }

  lemma {:induction false} Pow3Monotone(m: nat, n: nat)
    requires m <= n
    ensures Pow3(m) <= Pow3(n)
  {
    if m < n { Pow3Monotone(m, n - 1); }
  }

  function Edge(m: Match): nat { if m.similarity > 0 then Pow3(m.similarity) else 0 }

  /** Every matched pair counts with three to the power of its score. */
  function Potential(a: seq<Match>): nat {
    if a == [] then 0 else Edge(a[0]) + Potential(a[1..])
  }

  lemma {:induction false} PotentialUpdate(a: seq<Match>, i: nat, m: Match)
    requires i < |a|
    ensures Potential(a[i := m]) + Edge(a[i]) == Potential(a) + Edge(m)
  {
    if i == 0 {
      assert a[i := m][1..] == a[1..];
    } else {
      assert a[i := m][1..] == a[1..][i - 1 := m];
      PotentialUpdate(a[1..], i - 1, m);
    }
  }

  lemma {:induction false} PotentialBound(a: seq<Match>)
    requires forall i :: 0 <= i < |a| ==> a[i].similarity < 0x1_0000
    ensures Potential(a) <= |a| * Pow3(0xffff)
  {
    if a != [] {
      PotentialBound(a[1..]);
      hide Pow3;
      if a[0].similarity > 0 { Pow3Monotone(a[0].similarity, 0xffff); }
      OneMore(|a[1..]|, Pow3(0xffff));
    }
  }

  lemma OneMore(n: nat, w: nat)
    ensures (n + 1) * w == w + n * w
  {
  }

  lemma LighterEdge(m: Match, w: nat)
    requires m.similarity < w
    ensures 3 * Edge(m) <= Pow3(w)
  {
    Pow3Monotone(m.similarity, w - 1);
  }

  /** Two lighter pairs together count for less than one heavier pair, so that every
      update makes progress. */
  lemma UpdateProgress(tgt2src: seq<Match>, src2tgt: seq<Match>, score: (nat, nat) -> int, s: nat, t: nat, w: nat)
    requires Matching(tgt2src, src2tgt, score) && s < |src2tgt| && t < |tgt2src|
    requires PairScore(score, s, t) == Some(w) && tgt2src[t].similarity < w && src2tgt[s].similarity < w
    ensures Potential(Update(tgt2src, src2tgt, s, t, w).0) > Potential(tgt2src)
  {
    hide Pow3, Potential;
    var m := src2tgt[s];
    LighterEdge(m, w);
    LighterEdge(tgt2src[t], w);
    if m.similarity > 0 {
      assert tgt2src[m.idx] == Match(s, m.similarity) && m.idx != t;
      PotentialUpdate(tgt2src, m.idx, tgt2src[m.idx].(similarity := 0));
      PotentialUpdate(Ejected(tgt2src, m.idx), t, Match(s, w));
    } else {
      PotentialUpdate(tgt2src, t, Match(s, w));
    }
  }

  // ------------------------------------------------------------ examined pairs

  /** How many of the first s deltas were tried as sources for target t. */
  function Tried(score: (nat, nat) -> int, isSource: seq<bool>, s: nat, t: nat): (n: nat)
    requires s <= |isSource|
    ensures n <= s
  {
    if s == 0 then 0
    else Tried(score, isSource, s - 1, t) + (if isSource[s - 1] && PairScore(score, s - 1, t).Some? then 1 else 0)
  }

  function Count(b: seq<bool>): nat {
    if b == [] then 0 else Count(b[..|b| - 1]) + (if b[|b| - 1] then 1 else 0)
  }

  lemma {:induction false} TriedFewer(score: (nat, nat) -> int, isSource: seq<bool>, s: nat, t: nat)
    requires s <= |isSource|
    ensures Tried(score, isSource, s, t) <= Count(isSource[..s])
  {
    if s > 0 {
      TriedFewer(score, isSource, s - 1, t);
      assert isSource[..s][..s - 1] == isSource[..s - 1];
    }
  }

  lemma {:induction false} CountPrefix(b: seq<bool>, k: nat)
    requires k < |b|
    ensures Count(b[..k]) + (if b[k] then 1 else 0) <= Count(b)
  {
    if k < |b| - 1 {
      assert b[..|b| - 1][..k] == b[..k];
      CountPrefix(b[..|b| - 1], k);
    }
  }

  /** The pair is looked at in every pass: at most limit + 1 comparable sources are. */
  ghost predicate Examined(score: (nat, nat) -> int, isSource: seq<bool>, isTarget: seq<bool>, limit: nat, s: nat, t: nat) {
    && s < |isSource| && t < |isTarget| && isSource[s] && isTarget[t]
    && PairScore(score, s, t).Some? && Tried(score, isSource, s, t) <= limit
  }

  /** The pair would not be rematched: one of the two has a match as good. */
  ghost predicate Content(tgt2src: seq<Match>, src2tgt: seq<Match>, score: (nat, nat) -> int, s: nat, t: nat)
    requires s < |src2tgt| && t < |tgt2src| && PairScore(score, s, t).Some?
  {
    tgt2src[t].similarity >= PairScore(score, s, t).value || src2tgt[s].similarity >= PairScore(score, s, t).value
  }

  /** The sources before s that target t can be compared with. */
  ghost function Comparable(score: (nat, nat) -> int, isSource: seq<bool>, s: nat, t: nat): set<nat> {
    set r: nat | r < s && r < |isSource| && isSource[r] && r != t && score(r, t) >= 0
  }

  lemma {:induction false} TriedIsCard(score: (nat, nat) -> int, isSource: seq<bool>, s: nat, t: nat)
    requires s <= |isSource|
    ensures Tried(score, isSource, s, t) == |Comparable(score, isSource, s, t)|
  {
    var c := Comparable(score, isSource, s, t);
    if s == 0 {
      assert c == {};
    } else {
      var b := Comparable(score, isSource, s - 1, t);
      TriedIsCard(score, isSource, s - 1, t);
      assert c == if isSource[s - 1] && s - 1 != t && score(s - 1, t) >= 0 then b + {s - 1} else b;
    }
  }

  /** Which pairs are looked at: a source and another delta that is a target, if they can be
      compared, and no more than `limit` sources before that one can. */
  lemma ExaminedExact(score: (nat, nat) -> int, isSource: seq<bool>, isTarget: seq<bool>, limit: nat, s: nat, t: nat)
    ensures Examined(score, isSource, isTarget, limit, s, t) <==>
            && s < |isSource| && t < |isTarget| && isSource[s] && isTarget[t] && s != t && score(s, t) >= 0
            && |Comparable(score, isSource, s, t)| <= limit
  {
    hide Comparable, Tried;
    if s < |isSource| { TriedIsCard(score, isSource, s, t); }
  }

  /** A pair stands back only behind a match of one of the two that is as good; scores are
      compared in 16 bits. */
  lemma ContentExact(tgt2src: seq<Match>, src2tgt: seq<Match>, score: (nat, nat) -> int, s: nat, t: nat)
    requires s < |src2tgt| && t < |tgt2src| && s != t && score(s, t) >= 0
    ensures Content(tgt2src, src2tgt, score, s, t) <==>
            tgt2src[t].similarity >= score(s, t) % 65536 || src2tgt[s].similarity >= score(s, t) % 65536
  {
  }

  // -------------------------------------------------------------------- the code

  /** The update of the innermost loop: ejects the old partners and writes the new
      pair; returns how many were bumped. */
  method Rematch(tgt2src: array<Match>, src2tgt: array<Match>, ghost score: (nat, nat) -> int, s: nat, t: nat, w: nat)
    returns (bumped: nat)
    requires tgt2src != src2tgt && s < src2tgt.Length && t < tgt2src.Length
    requires Matching(tgt2src[..], src2tgt[..], score) && PairScore(score, s, t) == Some(w)
    requires tgt2src[t].similarity < w && src2tgt[s].similarity < w
    modifies tgt2src, src2tgt
    ensures (tgt2src[..], src2tgt[..]) == Update(old(tgt2src[..]), old(src2tgt[..]), s, t, w)
    ensures bumped == (if old(src2tgt[s].similarity) > 0 then 1 else 0) + (if old(tgt2src[t].similarity) > 0 then 1 else 0)
  {
    ghost var a, b := tgt2src[..], src2tgt[..];
    bumped := 0;
    if src2tgt[s].similarity > 0 {
      tgt2src[src2tgt[s].idx] := tgt2src[src2tgt[s].idx].(similarity := 0);
      bumped := bumped + 1;
    }
    assert tgt2src[..] == if b[s].similarity > 0 then Ejected(a, b[s].idx) else a;
    if tgt2src[t].similarity > 0 {
      src2tgt[tgt2src[t].idx] := src2tgt[tgt2src[t].idx].(similarity := 0);
      bumped := bumped + 1;
    }
    tgt2src[t] := Match(s, w);
    src2tgt[s] := Match(t, w);
  }

  /** Matches only get better: all that a pass without a bump does. */
  ghost predicate Improved(a: seq<Match>, a': seq<Match>) {
    |a'| == |a| && forall i :: 0 <= i < |a| ==> a[i].similarity <= a'[i].similarity
  }

  lemma UpdateWithoutBump(tgt2src: seq<Match>, src2tgt: seq<Match>, s: nat, t: nat, w: nat)
    requires s < |src2tgt| && t < |tgt2src| && Linked(tgt2src, src2tgt) && Linked(src2tgt, tgt2src)
    requires tgt2src[t].similarity == 0 && src2tgt[s].similarity == 0
    ensures var (t', s') := Update(tgt2src, src2tgt, s, t, w); Improved(tgt2src, t') && Improved(src2tgt, s')
  {
  }

  /** The deltas with their labels, and the limit on sources tried per target. */
  datatype Labels = Labels(isSource: seq<bool>, isTarget: seq<bool>, limit: nat)

  ghost predicate Pair(score: (nat, nat) -> int, l: Labels, s: nat, t: nat) {
    Examined(score, l.isSource, l.isTarget, l.limit, s, t)
  }

  /** Every examined pair before position (t, s) of the double loop is content. */
  ghost predicate ContentUpTo(tgt2src: seq<Match>, src2tgt: seq<Match>, score: (nat, nat) -> int, l: Labels, t: nat, s: nat) {
    && |l.isSource| == |l.isTarget| == |tgt2src| == |src2tgt|
    && forall s': nat, t': nat :: Pair(score, l, s', t') && (t' < t || (t' == t && s' < s)) ==> Content(tgt2src, src2tgt, score, s', t')
  }

  lemma ContentNext(tgt2src: seq<Match>, src2tgt: seq<Match>, score: (nat, nat) -> int, l: Labels, t: nat, s: nat)
    requires ContentUpTo(tgt2src, src2tgt, score, l, t, s)
    requires Pair(score, l, s, t) ==> Content(tgt2src, src2tgt, score, s, t)
    ensures ContentUpTo(tgt2src, src2tgt, score, l, t, s + 1)
  {
    hide Content, Examined;
  }

  lemma ContentImproved(tgt2src: seq<Match>, src2tgt: seq<Match>, t2: seq<Match>, s2: seq<Match>, score: (nat, nat) -> int, l: Labels, t: nat, s: nat)
    requires ContentUpTo(tgt2src, src2tgt, score, l, t, s) && Improved(tgt2src, t2) && Improved(src2tgt, s2)
    ensures ContentUpTo(t2, s2, score, l, t, s)
  {
    hide Tried;
    forall s': nat, t': nat | Pair(score, l, s', t') && (t' < t || (t' == t && s' < s)) ensures Content(t2, s2, score, s', t') {
      assert Content(tgt2src, src2tgt, score, s', t');
    }
  }

  /** Where the loop over sources is left, no examined pair lies behind. */
  lemma {:induction false} TriedGrows(score: (nat, nat) -> int, isSource: seq<bool>, s: nat, s': nat, t: nat)
    requires s <= s' <= |isSource|
    ensures Tried(score, isSource, s, t) <= Tried(score, isSource, s', t)
    decreases s'
  {
    if s < s' { TriedGrows(score, isSource, s, s' - 1, t); }
  }

  lemma TriedAll(score: (nat, nat) -> int, isSource: seq<bool>, s: nat, t: nat)
    requires s < |isSource| && isSource[s]
    ensures Tried(score, isSource, s, t) < Count(isSource)
  {
    TriedFewer(score, isSource, s, t);
    CountPrefix(isSource, s);
  }

  lemma ContentRow(tgt2src: seq<Match>, src2tgt: seq<Match>, score: (nat, nat) -> int, l: Labels, t: nat, s: nat)
    requires ContentUpTo(tgt2src, src2tgt, score, l, t, s)
    requires forall s': nat :: s <= s' ==> !Pair(score, l, s', t)
    ensures ContentUpTo(tgt2src, src2tgt, score, l, t + 1, 0)
  {
    hide Content, Examined;
  }

  lemma NoPairBehind(score: (nat, nat) -> int, l: Labels, t: nat, s: nat)
    requires s <= |l.isSource| == |l.isTarget|
    requires s == |l.isSource| || !IsTarget(l, t) || Tried(score, l.isSource, s, t) > l.limit || Tried(score, l.isSource, s, t) >= Count(l.isSource)
    ensures forall s': nat :: s <= s' ==> !Pair(score, l, s', t)
  {
    forall s': nat | s <= s' ensures !Pair(score, l, s', t) {
      if s' < |l.isSource| {
        TriedGrows(score, l.isSource, s, s', t);
        if l.isSource[s'] { TriedAll(score, l.isSource, s', t); }
      }
    }
  }

  predicate IsTarget(l: Labels, t: nat) { t < |l.isTarget| && l.isTarget[t] }

  /** The state of the matching between passes. */
  ghost predicate State(tgt2src: seq<Match>, src2tgt: seq<Match>, score: (nat, nat) -> int, l: Labels) {
    |l.isSource| == |l.isTarget| == |tgt2src| && Matching(tgt2src, src2tgt, score) && Labelled(tgt2src, l)
  }

  /** Only targets are matched, and only to sources. */
  ghost predicate Labelled(tgt2src: seq<Match>, l: Labels) {
    forall t :: 0 <= t < |tgt2src| && tgt2src[t].similarity > 0 ==>
      IsTarget(l, t) && tgt2src[t].idx < |l.isSource| && l.isSource[tgt2src[t].idx]
  }

  /** The loop over the sources for one target. */
  method TrySources(tgt2src: array<Match>, src2tgt: array<Match>, score: (nat, nat) -> int, l: Labels, t: nat, numSrcs: nat, bumped0: nat)
    returns (bumped: nat)
    requires tgt2src != src2tgt && State(tgt2src[..], src2tgt[..], score, l) && IsTarget(l, t)
    requires numSrcs == Count(l.isSource)
    requires bumped0 == 0 ==> ContentUpTo(tgt2src[..], src2tgt[..], score, l, t, 0)
    modifies tgt2src, src2tgt
    ensures State(tgt2src[..], src2tgt[..], score, l)
    ensures bumped >= bumped0 && Potential(tgt2src[..]) >= Potential(old(tgt2src[..]))
    ensures bumped > bumped0 ==> Potential(tgt2src[..]) > Potential(old(tgt2src[..]))
    ensures bumped == 0 ==> ContentUpTo(tgt2src[..], src2tgt[..], score, l, t + 1, 0)
  {
    hide Matching, Potential, Update, ContentUpTo, Pair, Improved;
    bumped := bumped0;
    var s, tried := 0, 0;
    while s < |l.isSource| && !(tried > 0 && (tried >= numSrcs || tried > l.limit))
      invariant s <= |l.isSource| && tried == Tried(score, l.isSource, s, t)
      invariant State(tgt2src[..], src2tgt[..], score, l)
      invariant bumped >= bumped0 && Potential(tgt2src[..]) >= Potential(old(tgt2src[..]))
      invariant bumped > bumped0 ==> Potential(tgt2src[..]) > Potential(old(tgt2src[..]))
      invariant bumped == 0 ==> ContentUpTo(tgt2src[..], src2tgt[..], score, l, t, s)
    {
      var w := PairScore(score, s, t);
      if l.isSource[s] && w.Some? {
        MatchingRange(tgt2src[..], src2tgt[..], score);
        var n := TryPair(tgt2src, src2tgt, score, l, s, t, w.value, bumped);
        bumped := bumped + n;
        tried := tried + 1;
      }
      if bumped == 0 {
        NotExamined(score, l, s, t);
        ContentNext(tgt2src[..], src2tgt[..], score, l, t, s);
      }
      s := s + 1;
    }
    if bumped == 0 {
      NoPairBehind(score, l, t, s);
      ContentRow(tgt2src[..], src2tgt[..], score, l, t, s);
    }
  }

  lemma NotExamined(score: (nat, nat) -> int, l: Labels, s: nat, t: nat)
    requires s < |l.isSource|
    ensures Pair(score, l, s, t) ==> l.isSource[s] && PairScore(score, s, t).Some?
  {
  }

  lemma MatchingRange(tgt2src: seq<Match>, src2tgt: seq<Match>, score: (nat, nat) -> int)
    requires Matching(tgt2src, src2tgt, score)
    ensures |src2tgt| == |tgt2src|
  {
  }

  /** Compares one pair, and rematches it if it is better than both old matches. */
  method TryPair(tgt2src: array<Match>, src2tgt: array<Match>, ghost score: (nat, nat) -> int, ghost l: Labels, s: nat, t: nat, w: nat, ghost bumped: nat)
    returns (n: nat)
    requires tgt2src != src2tgt && State(tgt2src[..], src2tgt[..], score, l)
    requires s < src2tgt.Length && t < tgt2src.Length && PairScore(score, s, t) == Some(w)
    requires IsTarget(l, t) && l.isSource[s]
    requires bumped == 0 ==> ContentUpTo(tgt2src[..], src2tgt[..], score, l, t, s)
    modifies tgt2src, src2tgt
    ensures State(tgt2src[..], src2tgt[..], score, l)
    ensures Potential(tgt2src[..]) >= Potential(old(tgt2src[..]))
    ensures n > 0 ==> Potential(tgt2src[..]) > Potential(old(tgt2src[..]))
    ensures bumped + n == 0 ==>
              ContentUpTo(tgt2src[..], src2tgt[..], score, l, t, s) && |src2tgt[..]| == |tgt2src[..]| && Content(tgt2src[..], src2tgt[..], score, s, t)
  {
    hide Potential, Update, ContentUpTo, Pair;
    ghost var a, b := tgt2src[..], src2tgt[..];
    n := 0;
    if tgt2src[t].similarity < w && src2tgt[s].similarity < w {
      UpdateMatches(a, b, score, s, t, w);
      UpdateProgress(a, b, score, s, t, w);
      n := Rematch(tgt2src, src2tgt, score, s, t, w);
      UpdateSizes(a, b, s, t, w);
      UpdateLabelled(a, b, l, s, t, w);
      if bumped + n == 0 {
        UpdateWithoutBump(a, b, s, t, w);
        ContentImproved(a, b, tgt2src[..], src2tgt[..], score, l, t, s);
      }
    }
  }

  lemma UpdateLabelled(tgt2src: seq<Match>, src2tgt: seq<Match>, l: Labels, s: nat, t: nat, w: nat)
    requires s < |src2tgt| && t < |tgt2src| && Linked(tgt2src, src2tgt) && Linked(src2tgt, tgt2src)
    requires Labelled(tgt2src, l) && IsTarget(l, t) && s < |l.isSource| && l.isSource[s]
    ensures Labelled(Update(tgt2src, src2tgt, s, t, w).0, l)
  {
  }

  lemma UpdateSizes(tgt2src: seq<Match>, src2tgt: seq<Match>, s: nat, t: nat, w: nat)
    requires s < |src2tgt| && t < |tgt2src| && Linked(tgt2src, src2tgt) && Linked(src2tgt, tgt2src)
    ensures var (t', s') := Update(tgt2src, src2tgt, s, t, w);
            |t'| == |tgt2src| && |s'| == |src2tgt| && t'[t] == Match(s, w) && s'[s] == Match(t, w)
  {
  }

  /** One pass over all targets; `bumped` counts the matches that were ejected. */
  method Pass(tgt2src: array<Match>, src2tgt: array<Match>, score: (nat, nat) -> int, l: Labels, numSrcs: nat, numTgts: nat)
    returns (bumped: nat)
    requires tgt2src != src2tgt && State(tgt2src[..], src2tgt[..], score, l)
    requires numSrcs == Count(l.isSource) && numTgts == Count(l.isTarget)
    modifies tgt2src, src2tgt
    ensures State(tgt2src[..], src2tgt[..], score, l)
    ensures Potential(tgt2src[..]) >= Potential(old(tgt2src[..]))
    ensures bumped > 0 ==> Potential(tgt2src[..]) > Potential(old(tgt2src[..]))
    ensures bumped == 0 ==> ContentUpTo(tgt2src[..], src2tgt[..], score, l, |l.isTarget|, 0)
  {
    hide Matching, Potential, ContentUpTo, Pair;
    bumped := 0;
    var t, tried := 0, 0;
    ContentNone(tgt2src[..], src2tgt[..], score, l);
    while t < |l.isTarget| && !(tried > 0 && tried >= numTgts)
      invariant t <= |l.isTarget| && tried == Count(l.isTarget[..t])
      invariant State(tgt2src[..], src2tgt[..], score, l)
      invariant Potential(tgt2src[..]) >= Potential(old(tgt2src[..]))
      invariant bumped > 0 ==> Potential(tgt2src[..]) > Potential(old(tgt2src[..]))
      invariant bumped == 0 ==> ContentUpTo(tgt2src[..], src2tgt[..], score, l, t, 0)
    {
      assert l.isTarget[..t + 1][..t] == l.isTarget[..t];
      if l.isTarget[t] {
        bumped := TrySources(tgt2src, src2tgt, score, l, t, numSrcs, bumped);
        tried := tried + 1;
      } else if bumped == 0 {
        NoPairBehind(score, l, t, 0);
        ContentRow(tgt2src[..], src2tgt[..], score, l, t, 0);
      }
      t := t + 1;
    }
    if bumped == 0 {
      NoTargetBehind(score, l, t);
      ContentAll(tgt2src[..], src2tgt[..], score, l, t);
    }
  }

  lemma ContentNone(tgt2src: seq<Match>, src2tgt: seq<Match>, score: (nat, nat) -> int, l: Labels)
    requires State(tgt2src, src2tgt, score, l)
    ensures ContentUpTo(tgt2src, src2tgt, score, l, 0, 0)
  {
  }

  lemma NoTargetBehind(score: (nat, nat) -> int, l: Labels, t: nat)
    requires t <= |l.isTarget| && (t == |l.isTarget| || Count(l.isTarget[..t]) >= Count(l.isTarget))
    ensures forall s: nat, t': nat :: t <= t' ==> !Pair(score, l, s, t')
  {
    forall s: nat, t': nat | t <= t' ensures !Pair(score, l, s, t') {
      if t' < |l.isTarget| {
        CountGrows(l.isTarget, t, t');
        CountPrefix(l.isTarget, t');
      }
    }
  }

  lemma {:induction false} CountGrows(b: seq<bool>, t: nat, t': nat)
    requires t <= t' <= |b|
    ensures Count(b[..t]) <= Count(b[..t'])
    decreases t'
  {
    if t < t' {
      assert b[..t'][..t' - 1] == b[..t' - 1];
      CountGrows(b, t, t' - 1);
    }
  }

  lemma ContentAll(tgt2src: seq<Match>, src2tgt: seq<Match>, score: (nat, nat) -> int, l: Labels, t: nat)
    requires ContentUpTo(tgt2src, src2tgt, score, l, t, 0)
    requires forall s: nat, t': nat :: t <= t' ==> !Pair(score, l, s, t')
    ensures ContentUpTo(tgt2src, src2tgt, score, l, |l.isTarget|, 0)
  {
    hide Content, Examined;
  }

  lemma ScoresFit(tgt2src: seq<Match>, src2tgt: seq<Match>, score: (nat, nat) -> int)
    requires Matching(tgt2src, src2tgt, score)
    ensures Potential(tgt2src) <= |tgt2src| * Pow3(0xffff)
  {
    forall i | 0 <= i < |tgt2src| ensures tgt2src[i].similarity < 0x1_0000 {
      if tgt2src[i].similarity > 0 {
        assert PairScore(score, tgt2src[i].idx, i) == Some(tgt2src[i].similarity);
      }
    }
    PotentialBound(tgt2src);
  }

  /** The find_best_matches loop.  It terminates although a pass may eject matches it
      has made.  The outcome is a one-to-one matching of scored pairs, and no pair
      that was looked at scores higher than both of its partners' current matches. */
  method FindBestMatches(score: (nat, nat) -> int, l: Labels) returns (tgt2src: array<Match>, src2tgt: array<Match>)
    requires |l.isSource| == |l.isTarget|
    ensures fresh(tgt2src) && fresh(src2tgt) && tgt2src != src2tgt
    ensures tgt2src.Length == src2tgt.Length == |l.isSource|
    ensures Matching(tgt2src[..], src2tgt[..], score) && Labelled(tgt2src[..], l)
    ensures forall s: nat, t: nat :: Pair(score, l, s, t) ==> Content(tgt2src[..], src2tgt[..], score, s, t)
  {
    hide Potential, Pow3, Examined;
    tgt2src := new Match[|l.isTarget|](_ => Match(0, 0));
    src2tgt := new Match[|l.isSource|](_ => Match(0, 0));
    var numSrcs, numTgts := Count(l.isSource), Count(l.isTarget);
    var bumped := 1;
    ScoresFit(tgt2src[..], src2tgt[..], score);
    while bumped > 0
      modifies tgt2src, src2tgt
      invariant State(tgt2src[..], src2tgt[..], score, l)
      invariant Potential(tgt2src[..]) <= |l.isSource| * Pow3(0xffff)
      invariant bumped == 0 ==> ContentUpTo(tgt2src[..], src2tgt[..], score, l, |l.isTarget|, 0)
      decreases |l.isSource| * Pow3(0xffff) - Potential(tgt2src[..]), bumped
    {
      bumped := Pass(tgt2src, src2tgt, score, l, numSrcs, numTgts);
      ScoresFit(tgt2src[..], src2tgt[..], score);
    }
    PairRange(score, l);
  }

  lemma PairRange(score: (nat, nat) -> int, l: Labels)
    ensures forall s: nat, t: nat :: Pair(score, l, s, t) ==> t < |l.isTarget|
  {
  }
}
