/** The block index of delta.c: hash buckets that chain the fingerprinted blocks
    of the source, and the culling that bounds every chain. */
module DeltaIndexing {
  import opened Common
  import opened Rabin

  const HASH_LIMIT: nat := 64

  // ------------------------------------------------------- chains, as sequences

  /** Every entry is chained to an earlier one; -1 is NULL. */
  ghost predicate Linked(next: seq<int>, used: nat) {
    used <= |next| && forall e :: 0 <= e < used ==> -1 <= next[e] < e
  }

  /** The entries reached from `e` by following `next`. */
  ghost function Chain(next: seq<int>, e: int): (c: seq<int>)
    requires -1 <= e && Linked(next, e + 1)
    ensures forall i :: 0 <= i < |c| ==> 0 <= c[i] <= e
    ensures e >= 0 ==> |c| > 0 && c[0] == e
    decreases e
  {
    if e < 0 then [] else [e] + Chain(next, next[e])
  }

  lemma {:induction false} ChainAgree(next: seq<int>, next': seq<int>, e: int)
    requires -1 <= e && Linked(next, e + 1) && e < |next'|
    requires forall i :: 0 <= i <= e ==> next'[i] == next[i]
    ensures Linked(next', e + 1) && Chain(next', e) == Chain(next, e)
    decreases e
  {
    if e >= 0 {
      ChainAgree(next, next', next[e]);
    }
  }

  /** A chain none of whose entries is re-pointed stays as it is. */
  lemma {:induction false} ChainFrame(next: seq<int>, next': seq<int>, e: int)
    requires -1 <= e && Linked(next, e + 1) && Linked(next', e + 1)
    requires forall x :: x in Chain(next, e) ==> next'[x] == next[x]
    ensures Chain(next', e) == Chain(next, e)
    decreases e
  {
    if e >= 0 {
      ChainFrame(next, next', next[e]);
    }
  }

  /** Following `next` from e visits `path` and arrives at x. */
  ghost predicate Leads(next: seq<int>, e: int, path: seq<int>, x: int)
    decreases path
  {
    if path == [] then e == x
    else 0 <= e < |next| && path[0] == e && Leads(next, next[e], path[1..], x)
  }

  lemma {:induction false} LeadsChain(next: seq<int>, e: int, path: seq<int>)
    requires -1 <= e && Linked(next, e + 1) && Leads(next, e, path, -1)
    ensures Chain(next, e) == path
    decreases |path|
  {
    if path != [] {
      LeadsChain(next, next[e], path[1..]);
    }
  }

  lemma {:induction false} LeadsAbove(next: seq<int>, used: nat, e: int, path: seq<int>, x: int)
    requires -1 <= e < used && Linked(next, used) && Leads(next, e, path, x)
    ensures x <= e && (path != [] ==> x < e)
    decreases |path|
  {
    if path != [] {
      LeadsAbove(next, used, next[e], path[1..], x);
    }
  }

  /** Re-pointing x makes the way to x go on at y. */
  lemma {:induction false} LeadsSplice(next: seq<int>, used: nat, e: int, path: seq<int>, x: int, y: int)
    requires -1 <= e < used && Linked(next, used) && 0 <= x < used && -1 <= y < x
    requires Leads(next, e, path, x)
    ensures Leads(next[x := y], e, path + [x], y)
    decreases |path|
  {
    if path == [] {
      assert (path + [x])[1..] == [];
    } else {
      LeadsAbove(next, used, e, path, x);
      LeadsSplice(next, used, next[e], path[1..], x, y);
      assert (path + [x])[1..] == path[1..] + [x];
    }
  }

  /** The i-th member of a chain starts the rest of it. */
  lemma {:induction false} ChainStrict(next: seq<int>, e: int, i: nat)
    requires -1 <= e && Linked(next, e + 1) && i < |Chain(next, e)|
    ensures var x := Chain(next, e)[i];
            Linked(next, x + 1) && Chain(next, e)[i..] == Chain(next, x)
    ensures forall j :: 0 <= j < i ==> Chain(next, e)[j] > Chain(next, e)[i]
    decreases e
  {
    if i > 0 {
      ChainStrict(next, next[e], i - 1);
      assert Chain(next, e)[i..] == Chain(next, next[e])[i - 1..];
      forall j | 0 <= j < i ensures Chain(next, e)[j] > Chain(next, e)[i] {
        if j > 0 { assert Chain(next, e)[j] == Chain(next, next[e])[j - 1]; }
      }
    }
  }

  // ------------------------------------------------------------------- culling

  /** What culling leaves of a chain: every `skip`-th entry.  A `skip` of zero is
      decremented past zero and never comes back, so that only the first stays. */
  function Culled(c: seq<int>, skip: nat): seq<int>
    decreases |c|
  {
    if c == [] then []
    else if skip == 0 || |c| <= skip then [c[0]]
    else [c[0]] + Culled(c[skip..], skip)
  }

  /** The bucket `c` after the culling pass of init. */
  function Limited(c: seq<int>): seq<int> {
    if |c| < HASH_LIMIT then c else Culled(c, |c| / HASH_LIMIT / 2)
  }

  /** `s` is what is left of `c` when some entries are left out. */
  ghost predicate Subsequence(s: seq<int>, c: seq<int>) {
    if s == [] then true
    else c != [] && if s[0] == c[0] then Subsequence(s[1..], c[1..]) else Subsequence(s, c[1..])
  }

  lemma {:induction false} SubsequenceOfTail(s: seq<int>, c: seq<int>, k: nat)
    requires k <= |c| && Subsequence(s, c[k..])
    requires forall i :: 0 <= i < k ==> c[i] !in s
    ensures Subsequence(s, c)
    decreases k
  {
    if k == 0 {
      assert c[0..] == c;
    } else {
      assert c[1..][k - 1..] == c[k..];
      SubsequenceOfTail(s, c[1..], k - 1);
    }
  }

  lemma {:induction false} SubsequenceSelf(c: seq<int>)
    ensures Subsequence(c, c)
  {
    if c != [] { SubsequenceSelf(c[1..]); }
  }

  ghost predicate Distinct(c: seq<int>) { forall i, j :: 0 <= i < j < |c| ==> c[i] != c[j] }

  lemma {:induction false} CulledIsSubsequence(c: seq<int>, skip: nat)
    requires Distinct(c)
    ensures Subsequence(Culled(c, skip), c)
    ensures forall x :: x in Culled(c, skip) ==> x in c
    decreases |c|
  {
    if c == [] {
    } else if skip == 0 || |c| <= skip {
      assert Subsequence([], c[1..]);
      assert [c[0]][1..] == [];
    } else {
      var t := Culled(c[skip..], skip);
      assert Distinct(c[skip..]);
      CulledIsSubsequence(c[skip..], skip);
      assert c[1..][skip - 1..] == c[skip..];
      SubsequenceOfTail(t, c[1..], skip - 1);
      assert ([c[0]] + t)[1..] == t;
    }
  }

  lemma {:induction false} CulledLength(c: seq<int>, skip: nat)
    requires skip > 0
    ensures |Culled(c, skip)| * skip <= |c| + skip - 1
    decreases |c|
  {
    if |c| > skip {
      CulledLength(c[skip..], skip);
      assert |Culled(c, skip)| * skip == skip + |Culled(c[skip..], skip)| * skip;
    }
  }

  /** Whatever the source, a bucket keeps at most 255 entries, keeps at least one
      if it had one, and keeps them in their order. */
  lemma BucketBound(c: seq<int>)
    requires Distinct(c)
    ensures |Limited(c)| <= 255
    ensures Limited(c) == [] <==> c == []
    ensures Subsequence(Limited(c), c)
  {
    if |c| < HASH_LIMIT {
      SubsequenceSelf(c);
    } else {
      var skip := |c| / HASH_LIMIT / 2;
      CulledIsSubsequence(c, skip);
      if skip > 0 {
        CulledLength(c, skip);
        assert |c| < 128 * skip + 128;
        QuotientBound(|Culled(c, skip)|, skip);
      }
    }
  }

  /** A bucket just over the limit is not thinned out but cut off behind its first
      entry, because its skip count is zero. */
  lemma SmallBucketKeepsOne(c: seq<int>)
    requires 64 <= |c|
    ensures |Limited(c)| == 1 <==> |c| < 128
    ensures |c| < 128 ==> Limited(c) == [c[0]]
  {
    var skip := |c| / HASH_LIMIT / 2;
    if |c| >= 2 * HASH_LIMIT {
      assert skip >= 1 && skip < |c|;
      assert Culled(c, skip) == [c[0]] + Culled(c[skip..], skip);
      assert c[skip..] != [];
    }
  }

  lemma Times(i: nat, skip: nat)
    ensures (i + 1) * skip == i * skip + skip
  {
  }

  lemma {:induction false} CulledAt(c: seq<int>, skip: nat, i: nat)
    requires skip > 0 && i < |Culled(c, skip)|
    ensures i * skip < |c| && Culled(c, skip)[i] == c[i * skip]
    decreases |c|
  {
    if i == 0 {
      assert i * skip == 0;
    } else {
      var j, d := i - 1, c[skip..];
      Times(j, skip);
      CulledAt(d, skip, j);
      hide Culled;
      assert d[j * skip] == c[skip + j * skip];
    }
  }

  lemma {:induction false} CulledEnough(c: seq<int>, skip: nat)
    requires skip > 0
    ensures |c| <= |Culled(c, skip)| * skip
    decreases |c|
  {
    if |c| > skip {
      CulledEnough(c[skip..], skip);
      Times(|Culled(c[skip..], skip)|, skip);
    } else if c != [] {
      Times(0, skip);
    }
  }

  /** What is left of a bucket: all of it below 64 entries, the first one below 128, and of a
      larger one with n entries every (n / 128)-th. */
  lemma LimitedExact(c: seq<int>)
    ensures |c| < 64 ==> Limited(c) == c
    ensures 64 <= |c| < 128 ==> Limited(c) == [c[0]]
    ensures |c| >= 128 ==>
              var (r, skip) := (Limited(c), |c| / 128);
              && |r| * skip < |c| + skip && |c| <= |r| * skip
              && forall i :: 0 <= i < |r| ==> 0 <= i * skip < |c| && r[i] == c[i * skip]
  {
    hide Culled;
    if 64 <= |c| < 128 { SmallBucketKeepsOne(c); }
    if |c| >= 128 {
      var skip := |c| / 128;
      assert |c| / HASH_LIMIT / 2 == skip;
      CulledLength(c, skip);
      CulledEnough(c, skip);
      forall i | 0 <= i < |Culled(c, skip)| ensures 0 <= i * skip < |c| && Culled(c, skip)[i] == c[i * skip] { CulledAt(c, skip, i); }
    }
  }

  lemma QuotientBound(n: nat, skip: nat)
    requires skip > 0 && n * skip < 129 * skip + 127
    ensures n <= 255
  {
    assert n >= 256 ==> n * skip >= 256 * skip;
  }

  /** While the chain `c0` at `head` is culled: `kept` is done, `entry` starts the rest. */
  ghost predicate Culling(next: seq<int>, head: int, c0: seq<int>, skip: nat, kept: seq<int>, entry: int) {
    && -1 <= entry < |next| && Linked(next, |next|)
    && Leads(next, head, kept, entry)
    && kept + Culled(Chain(next, entry), skip) == Culled(c0, skip)
    && forall x :: x in Chain(next, entry) ==> x in c0
  }

  lemma CullStep(next: seq<int>, head: int, c0: seq<int>, skip: nat, kept: seq<int>, keep: int, entry: int)
    requires 0 <= head < |next| && 0 <= keep && Culling(next, head, c0, skip, kept, keep) && -1 <= entry < keep
    requires var c := Chain(next, keep);
             if skip == 0 || |c| <= skip then entry == -1 else Chain(next, entry) == c[skip..]
    ensures keep in c0 && Linked(next[keep := entry], |next|)
    ensures Culling(next[keep := entry], head, c0, skip, kept + [keep], entry)
  {
    hide Culled, Leads;
    var c, rest := Chain(next, keep), Chain(next, entry);
    assert c[0] == keep;
    LeadsSplice(next, |next|, head, kept, keep, entry);
    CulledStep(c, rest, keep, skip);
    assert kept + ([keep] + Culled(rest, skip)) == kept + [keep] + Culled(rest, skip);
    ChainAgree(next, next[keep := entry], entry);
  }

  lemma CulledStep(c: seq<int>, rest: seq<int>, keep: int, skip: nat)
    requires c != [] && c[0] == keep
    requires if skip == 0 || |c| <= skip then rest == [] else rest == c[skip..]
    ensures Culled(c, skip) == [keep] + Culled(rest, skip)
  {
  }

  lemma CullStart(next: seq<int>, head: int, skip: nat)
    requires 0 <= head < |next| && Linked(next, |next|)
    ensures Culling(next, head, Chain(next, head), skip, [], head)
  {
    var c0 := Chain(next, head);
    assert [] + Culled(c0, skip) == Culled(c0, skip);
  }

  lemma CullEnd(next: seq<int>, head: int, c0: seq<int>, skip: nat, kept: seq<int>, entry: int)
    requires 0 <= head < |next| && entry < 0 && Culling(next, head, c0, skip, kept, entry)
    ensures Chain(next, head) == Culled(c0, skip)
  {
    LeadsChain(next, head, kept);
    assert kept + [] == kept;
  }

  /** The culling of one bucket of `count` entries (init's do-while loops). */
  method CullBucket(next: array<int>, head: int, count: nat)
    requires 0 <= head < next.Length && Linked(next[..], next.Length)
    requires count == |Chain(next[..], head)| >= HASH_LIMIT
    modifies next
    ensures Linked(next[..], next.Length)
    ensures Chain(next[..], head) == Limited(old(Chain(next[..], head)))
    ensures forall i :: 0 <= i < next.Length && i !in old(Chain(next[..], head)) ==> next[i] == old(next[i])
  {
    hide Culled, Chain, Culling;
    ghost var c0 := Chain(next[..], head);
    ghost var kept: seq<int> := [];
    var skip := count / HASH_LIMIT / 2;
    var entry, more := head, true;
    CullStart(next[..], head, skip);
    while more
      invariant -1 <= entry < next.Length && (more <==> entry >= 0)
      invariant Linked(next[..], next.Length) && Culling(next[..], head, c0, skip, kept, entry)
      invariant forall i :: 0 <= i < next.Length && i !in c0 ==> next[i] == old(next[i])
      decreases more, entry
    {
      var keep := entry;
      entry := Advance(next, keep, skip);
      ghost var n0 := next[..];
      CullStep(n0, head, c0, skip, kept, keep, entry);
      next[keep] := entry;
      assert next[..] == n0[keep := entry];
      kept := kept + [keep];
      more := entry >= 0;
    }
    CullEnd(next[..], head, c0, skip, kept, entry);
  }

  /** The inner do-while: `skip` entries on, or to the end of the chain. */
  method Advance(next: array<int>, from: int, skip0: int) returns (entry: int)
    requires 0 <= from < next.Length && Linked(next[..], next.Length) && 0 <= skip0
    ensures -1 <= entry < from
    ensures var c := Chain(next[..], from);
            if skip0 == 0 || |c| <= skip0 then entry == -1 else Chain(next[..], entry) == c[skip0..]
  {
    ghost var c := Chain(next[..], from);
    ghost var m := 1;
    var skip := skip0;
    entry := next[from];
    skip := skip - 1;
    assert c[1..] == Chain(next[..], entry);
    while skip != 0 && entry >= 0
      invariant -1 <= entry < from && m == skip0 - skip && 1 <= m <= |c|
      invariant Chain(next[..], entry) == c[m..]
      invariant skip0 != 0 ==> skip >= 0
      decreases entry
    {
      assert c[m..][1..] == c[m + 1..];
      entry := next[entry];
      skip := skip - 1;
      m := m + 1;
    }
    if entry >= 0 { assert |c[m..]| > 0; }
  }

  // ---------------------------------------------------------------- population

  /** Number of blocks that are indexed.  The first byte is skipped, and offsets
      must fit into 32 bits. */
  function BlockCount(n: nat): nat
    requires n > 0
  {
    if n >= 0xffff_ffff then 0xffff_fffe / RABIN_WINDOW else (n - 1) / RABIN_WINDOW
  }

  /** The fingerprint of block k, whose window starts one byte into the block. */
  function BlockPrint(src: seq<byte>, k: nat): fingerprint
    requires 16 * k + 17 <= |src|
  {
    Fingerprint(src[16 * k + 1..16 * k + 17])
  }

  function PowerOfTwo(k: nat): (r: nat)
    ensures r > 0
  {
    if k == 0 then 1 else 2 * PowerOfTwo(k - 1)
  }

  /** The number of buckets: the least power of two from 16 on that reaches a quarter of
      the number of blocks, but no more than 2^31. */
  ghost predicate BucketsFor(entries: nat, hsize: nat) {
    exists i: nat :: 4 <= i <= 31 && hsize == PowerOfTwo(i)
      && (i < 31 ==> entries / 4 <= hsize) && (4 < i ==> hsize / 2 < entries / 4)
  }

  lemma {:induction false} PowerGrows(i: nat, j: nat)
    requires i <= j
    ensures PowerOfTwo(i) <= PowerOfTwo(j)
    decreases j
  {
    if i < j { PowerGrows(i, j - 1); }
  }

  lemma {:induction false} PowerSum(i: nat, j: nat)
    ensures PowerOfTwo(i + j) == PowerOfTwo(i) * PowerOfTwo(j)
  {
    if j > 0 {
      PowerSum(i, j - 1);
      assert PowerOfTwo(i + j) == 2 * PowerOfTwo(i + j - 1);
    }
  }

  /** There are at least 16 and at most 2^31 buckets, at most half as many as blocks if more
      than 16, and a quarter as many at least if fewer than 2^31. */
  lemma BucketNumbers(entries: nat, hsize: nat)
    requires BucketsFor(entries, hsize)
    ensures 16 <= hsize <= 2147483648 && (hsize > 16 ==> 2 * hsize < entries) && (hsize < 2147483648 ==> entries <= 4 * hsize + 3)
  {
    hide PowerOfTwo;
    var i: nat :| 4 <= i <= 31 && hsize == PowerOfTwo(i) && (i < 31 ==> entries / 4 <= hsize) && (4 < i ==> hsize / 2 < entries / 4);
    PowerGrows(4, i);
    PowerGrows(i, 31);
    TwoTo31();
  }

  lemma TwoTo31()
    ensures PowerOfTwo(4) == 16 && PowerOfTwo(31) == 2147483648
  {
    assert PowerOfTwo(8) == 256 && PowerOfTwo(7) == 128;
    PowerSum(8, 8);
    PowerSum(16, 8);
    PowerSum(24, 7);
  }

  /** val & hash_mask, where hash_mask + 1 is the number of buckets, a power of two. */
  function BucketOf(val: fingerprint, hsize: nat): (b: nat)
    requires hsize > 0
    ensures b < hsize
  {
    val as int % hsize
  }

  /** An entry points at the last byte of the window it was fingerprinted on. */
  ghost predicate EntryOk(src: seq<byte>, p: nat, v: fingerprint) {
    16 <= p < |src| && v == Fingerprint(src[p - 15..p + 1])
  }

  /** The index while the blocks from `k` on have been entered. */
  datatype Table = Table(hash: seq<int>, ptr: seq<nat>, val: seq<fingerprint>, next: seq<int>, used: nat)

  ghost predicate Shape(t: Table) {
    && |t.hash| > 0 && |t.ptr| == |t.val| == |t.next| && t.used <= |t.ptr|
    && Linked(t.next, |t.next|)
    && forall b :: 0 <= b < |t.hash| ==> -1 <= t.hash[b] < t.used
  }

  ghost function Bucket(t: Table, b: nat): seq<int>
    requires Shape(t) && b < |t.hash|
  {
    Chain(t.next, t.hash[b])
  }

  ghost predicate Home(t: Table, e: nat)
    requires Shape(t) && e < t.used
  {
    e in Bucket(t, BucketOf(t.val[e], |t.hash|))
  }

  ghost predicate EntriesOk(src: seq<byte>, t: Table, k: nat)
    requires Shape(t)
  {
    && (forall e :: 0 <= e < t.used ==> EntryOk(src, t.ptr[e], t.val[e]) && t.ptr[e] >= 16 * (k + 1))
    && (forall e :: 0 <= e < t.used ==> Home(t, e))
    && (forall d, e :: 0 <= d < e < t.used ==> t.ptr[e] < t.ptr[d])
  }

  ghost predicate BucketsOk(t: Table)
    requires Shape(t)
  {
    forall b, e :: 0 <= b < |t.hash| && e in Bucket(t, b) ==> 0 <= e < t.used && BucketOf(t.val[e], |t.hash|) == b
  }

  /** Block j is represented by an entry no further right. */
  ghost predicate Covered(src: seq<byte>, t: Table, j: nat)
    requires Shape(t) && 16 * j + 17 <= |src|
  {
    exists e :: 0 <= e < t.used && t.val[e] == BlockPrint(src, j) && t.ptr[e] <= 16 * (j + 1)
  }

  ghost predicate Populated(src: seq<byte>, t: Table, k: nat, n: nat) {
    && 16 * n + 1 <= |src| && k <= n
    && Shape(t) && EntriesOk(src, t, k) && BucketsOk(t)
    && forall j :: k <= j < n ==> Covered(src, t, j)
  }

  /** Entering a block as a new entry at the head of its bucket. */
  function Enter(t: Table, p: nat, v: fingerprint): Table
    requires |t.hash| > 0 && |t.ptr| == |t.val| == |t.next| && t.used < |t.ptr|
  {
    var b := BucketOf(v, |t.hash|);
    Table(t.hash[b := t.used], t.ptr[t.used := p], t.val[t.used := v], t.next[t.used := t.hash[b]], t.used + 1)
  }

  lemma EnterBuckets(t: Table, p: nat, v: fingerprint)
    requires Shape(t) && t.used < |t.ptr|
    ensures Shape(Enter(t, p, v))
    ensures forall b :: 0 <= b < |t.hash| ==>
              Bucket(Enter(t, p, v), b) == if b == BucketOf(v, |t.hash|) then [t.used] + Bucket(t, b) else Bucket(t, b)
  {
    hide BucketOf;
    var t' := Enter(t, p, v);
    forall b | 0 <= b < |t.hash|
      ensures Bucket(t', b) == if b == BucketOf(v, |t.hash|) then [t.used] + Bucket(t, b) else Bucket(t, b)
    {
      ChainAgree(t.next, t'.next, t.hash[b]);
    }
  }

  lemma EnterEntries(src: seq<byte>, t: Table, k: nat, n: nat)
    requires 1 <= k && Populated(src, t, k, n) && t.used < |t.ptr|
    ensures var t' := Enter(t, 16 * k, BlockPrint(src, k - 1));
            Shape(t') && EntriesOk(src, t', k - 1) && BucketsOk(t')
  {
    hide BucketOf, Fingerprint, Chain;
    var v := BlockPrint(src, k - 1);
    var t' := Enter(t, 16 * k, v);
    EnterBuckets(t, 16 * k, v);
    forall e | 0 <= e < t'.used ensures Home(t', e) {
      if e < t.used {
        assert Home(t, e);
        assert t'.val[e] == t.val[e];
      }
    }
    forall b, e | 0 <= b < |t'.hash| && e in Bucket(t', b)
      ensures 0 <= e < t'.used && BucketOf(t'.val[e], |t'.hash|) == b
    {
      if e != t.used {
        assert e in Bucket(t, b);
        assert t'.val[e] == t.val[e];
      }
    }
  }

  lemma EnterCovers(src: seq<byte>, t: Table, k: nat, n: nat, j: nat)
    requires 1 <= k && Populated(src, t, k, n) && t.used < |t.ptr| && k - 1 <= j < n
    requires Shape(Enter(t, 16 * k, BlockPrint(src, k - 1)))
    ensures Covered(src, Enter(t, 16 * k, BlockPrint(src, k - 1)), j)
  {
    hide BucketOf, Fingerprint, Chain;
    var t' := Enter(t, 16 * k, BlockPrint(src, k - 1));
    if j == k - 1 {
      assert t'.val[t.used] == BlockPrint(src, j) && t'.ptr[t.used] <= 16 * (j + 1);
    } else {
      assert Covered(src, t, j);
      var e :| 0 <= e < t.used && t.val[e] == BlockPrint(src, j) && t.ptr[e] <= 16 * (j + 1);
      assert t'.val[e] == t.val[e] && t'.ptr[e] == t.ptr[e];
    }
  }

  lemma EnterPopulated(src: seq<byte>, t: Table, k: nat, n: nat)
    requires 1 <= k && Populated(src, t, k, n) && t.used < |t.ptr|
    ensures Populated(src, Enter(t, 16 * k, BlockPrint(src, k - 1)), k - 1, n)
  {
    hide Enter, EntriesOk, BucketsOk, Covered;
    EnterEntries(src, t, k, n);
    var t' := Enter(t, 16 * k, BlockPrint(src, k - 1));
    forall j | k - 1 <= j < n ensures Covered(src, t', j) {
      EnterCovers(src, t, k, n, j);
    }
  }

  /** Of consecutive blocks with the same fingerprint the lowest one is kept. */
  lemma LowerPopulated(src: seq<byte>, t: Table, k: nat, n: nat)
    requires 1 <= k && Populated(src, t, k, n) && t.used > 0
    requires t.val[t.used - 1] == BlockPrint(src, k - 1)
    ensures Populated(src, t.(ptr := t.ptr[t.used - 1 := 16 * k]), k - 1, n)
  {
    hide BucketOf, Fingerprint, Chain;
    var t' := t.(ptr := t.ptr[t.used - 1 := 16 * k]);
    forall e | 0 <= e < t'.used ensures Home(t', e) {
      assert Home(t, e);
    }
    forall b, e | 0 <= b < |t'.hash| && e in Bucket(t', b)
      ensures 0 <= e < t'.used && BucketOf(t'.val[e], |t'.hash|) == b
    {
      assert e in Bucket(t, b);
    }
    forall j | k - 1 <= j < n ensures Covered(src, t', j) {
      if j == k - 1 {
        assert t'.val[t.used - 1] == BlockPrint(src, j) && t'.ptr[t.used - 1] <= 16 * (j + 1);
      } else {
        assert Covered(src, t, j);
        var e :| 0 <= e < t.used && t.val[e] == BlockPrint(src, j) && t.ptr[e] <= 16 * (j + 1);
        assert t'.val[e] == t.val[e] && t'.ptr[e] <= 16 * (j + 1);
      }
    }
  }

  ghost predicate HasEntry(t: Table, p: nat)
    requires t.used <= |t.ptr|
  {
    exists e :: 0 <= e < t.used && t.ptr[e] == p
  }

  /** The block is the first one, or the one before it has another fingerprint. */
  ghost predicate StartsRun(src: seq<byte>, j: nat)
    requires 16 * j + 17 <= |src|
  {
    j == 0 || BlockPrint(src, j - 1) != BlockPrint(src, j)
  }

  /** From block k on there are entries for exactly the blocks that start a run of blocks with
      one fingerprint, and for block k itself. */
  ghost predicate Runs(src: seq<byte>, t: Table, k: nat, n: nat) {
    && 16 * n + 1 <= |src| && k <= n && t.used <= |t.ptr|
    && (if k == n then t.used == 0 else t.used > 0 && t.ptr[t.used - 1] == 16 * (k + 1))
    && (forall e :: 0 <= e < t.used ==> 16 * (k + 1) <= t.ptr[e] <= 16 * n && t.ptr[e] % 16 == 0)
    && forall j: nat :: k <= j < n ==> (HasEntry(t, 16 * (j + 1)) <==> j == k || StartsRun(src, j))
  }

  lemma LastIsBlock(src: seq<byte>, t: Table, k: nat, n: nat)
    requires Populated(src, t, k, n) && Runs(src, t, k, n) && k < n
    ensures t.used > 0 && t.val[t.used - 1] == BlockPrint(src, k)
    ensures forall e :: 0 <= e < t.used - 1 ==> t.ptr[e] > 16 * (k + 1)
  {
    hide Fingerprint, BucketsOk, Home, Covered;
    var e := t.used - 1;
    assert EntryOk(src, t.ptr[e], t.val[e]);
    assert src[16 * k + 1..16 * k + 17] == src[t.ptr[e] - 15..t.ptr[e] + 1];
  }

  lemma LowerRuns(src: seq<byte>, t: Table, k: nat, n: nat)
    requires 1 <= k && Populated(src, t, k, n) && Runs(src, t, k, n) && t.used > 0
    requires t.val[t.used - 1] == BlockPrint(src, k - 1)
    ensures Runs(src, t.(ptr := t.ptr[t.used - 1 := 16 * k]), k - 1, n)
  {
    hide BlockPrint, EntriesOk, BucketsOk, Covered, Shape;
    LastIsBlock(src, t, k, n);
    hide Populated;
    var t' := t.(ptr := t.ptr[t.used - 1 := 16 * k]);
    forall e | 0 <= e < t'.used ensures 16 * k <= t'.ptr[e] <= 16 * n && t'.ptr[e] % 16 == 0 {
      if e < t.used - 1 { assert t'.ptr[e] == t.ptr[e]; }
    }
    assert t'.ptr[t'.used - 1] == 16 * (k - 1 + 1);
    forall j: nat | k - 1 <= j < n ensures HasEntry(t', 16 * (j + 1)) <==> j == k - 1 || StartsRun(src, j) {
      if j == k - 1 {
        assert t'.ptr[t.used - 1] == 16 * (j + 1);
      } else if j == k {
        assert !HasEntry(t', 16 * (j + 1));
      } else {
        if HasEntry(t, 16 * (j + 1)) {
          var e :| 0 <= e < t.used && t.ptr[e] == 16 * (j + 1);
          assert t'.ptr[e] == 16 * (j + 1);
        }
        if HasEntry(t', 16 * (j + 1)) {
          var e :| 0 <= e < t.used && t'.ptr[e] == 16 * (j + 1);
          assert t.ptr[e] == 16 * (j + 1);
        }
      }
    }
  }

  lemma EnterRuns(src: seq<byte>, t: Table, k: nat, n: nat)
    requires 1 <= k && Populated(src, t, k, n) && Runs(src, t, k, n) && t.used < |t.ptr|
    requires t.used == 0 || t.val[t.used - 1] != BlockPrint(src, k - 1)
    ensures Runs(src, Enter(t, 16 * k, BlockPrint(src, k - 1)), k - 1, n)
  {
    hide BlockPrint, EntriesOk, BucketsOk, Covered, BucketOf, Runs;
    if k < n {
      LastIsBlock(src, t, k, n);
      assert StartsRun(src, k);
    }
    OneMoreRun(src, t, Enter(t, 16 * k, BlockPrint(src, k - 1)), k, n);
  }

  lemma OneMoreRun(src: seq<byte>, t: Table, t': Table, k: nat, n: nat)
    requires 1 <= k && Runs(src, t, k, n) && t.used < |t.ptr| && (k < n ==> StartsRun(src, k))
    requires t'.ptr == t.ptr[t.used := 16 * k] && t'.used == t.used + 1
    ensures Runs(src, t', k - 1, n)
  {
    hide BlockPrint;
    forall j: nat | k - 1 <= j < n ensures HasEntry(t', 16 * (j + 1)) <==> j == k - 1 || StartsRun(src, j) {
      if j == k - 1 {
        assert t'.ptr[t.used] == 16 * (j + 1);
      } else {
        if HasEntry(t, 16 * (j + 1)) {
          var e :| 0 <= e < t.used && t.ptr[e] == 16 * (j + 1);
          assert t'.ptr[e] == 16 * (j + 1);
        }
        if HasEntry(t', 16 * (j + 1)) {
          var e :| 0 <= e < t'.used && t'.ptr[e] == 16 * (j + 1);
          assert e < t.used && t.ptr[e] == 16 * (j + 1);
        }
      }
    }
  }

  lemma NoRuns(src: seq<byte>, t: Table, n: nat)
    requires 16 * n + 1 <= |src| && t.used == 0
    ensures Runs(src, t, n, n)
  {
  }

  // ----------------------------------------------------------- the index object

  /** Entries of a chain lie in the order of their source positions. */
  ghost predicate Ascending(ptr: seq<nat>, c: seq<int>) {
    && (forall i :: 0 <= i < |c| ==> 0 <= c[i] < |ptr|)
    && (forall i, j :: 0 <= i < j < |c| ==> ptr[c[i]] < ptr[c[j]])
  }

  /** All buckets are in the order of the source. */
  ghost predicate InOrder(t: Table)
    requires Shape(t)
  {
    forall b :: 0 <= b < |t.hash| ==> Ascending(t.ptr, Bucket(t, b))
  }

  lemma {:induction false} CulledMembers(c: seq<int>, skip: nat)
    ensures forall x :: x in Culled(c, skip) ==> x in c
    decreases |c|
  {
    if c != [] && skip != 0 && |c| > skip {
      CulledMembers(c[skip..], skip);
    }
  }

  lemma {:induction false} CulledAscending(ptr: seq<nat>, c: seq<int>, skip: nat)
    requires Ascending(ptr, c)
    ensures Ascending(ptr, Culled(c, skip))
    decreases |c|
  {
    if c != [] && skip != 0 && |c| > skip {
      var t := Culled(c[skip..], skip);
      CulledAscending(ptr, c[skip..], skip);
      CulledMembers(c[skip..], skip);
      AscendingCons(ptr, c, skip, t);
    }
  }

  lemma AscendingCons(ptr: seq<nat>, c: seq<int>, skip: nat, t: seq<int>)
    requires Ascending(ptr, c) && 0 < skip < |c| && Ascending(ptr, t)
    requires forall x :: x in t ==> x in c[skip..]
    ensures Ascending(ptr, [c[0]] + t)
  {
    forall j | 0 <= j < |t| ensures ptr[c[0]] < ptr[t[j]] {
      assert t[j] in c[skip..];
      var k :| 0 <= k < |c[skip..]| && c[skip..][k] == t[j];
      assert c[skip + k] == t[j];
    }
  }

  class DeltaIndex {
    const src: seq<byte>
    const hash: array<int>
    const ptr: array<nat>
    const val: array<fingerprint>
    const next: array<int>
    var used: nat

    /** The index as a value. */
    ghost function Contents(): Table
      reads this, hash, ptr, val, next
    {
      Table(hash[..], ptr[..], val[..], next[..], used)
    }

    /** All that the encoder relies on: chains end, and entries lie in the source. */
    ghost predicate Valid()
      reads this, hash, ptr, val, next
    {
      && Shape(Contents())
      && forall e :: 0 <= e < used ==> ptr[e] <= |src|
    }

    /** An empty index with room for `entries` entries in `hsize` buckets. */
    constructor (buf: seq<byte>, entries: nat, hsize: nat)
      requires hsize > 0
      ensures fresh(hash) && fresh(ptr) && fresh(val) && fresh(next)
      ensures hash != next && src == buf && used == 0
      ensures hash.Length == hsize && ptr.Length == val.Length == next.Length == entries
      ensures Shape(Contents()) && forall b :: 0 <= b < hsize ==> hash[b] == -1
    {
      src := buf;
      hash := new int[hsize](_ => -1);
      ptr := new nat[entries](_ => 0);
      val := new fingerprint[entries](_ => 0);
      next := new int[entries](_ => -1);
      used := 0;
    }
  }

  lemma FingerprintSnoc(w: seq<byte>, i: nat)
    requires i < |w|
    ensures Fingerprint(w[..i + 1]) == Shift(Fingerprint(w[..i]), w[i])
  {
    assert w[..i + 1][..i] == w[..i];
  }

  /** The fingerprint of data[1..16], as init computes it. */
  method PrintOfBlock(src: seq<byte>, k: nat) returns (val: fingerprint)
    requires 16 * k + 17 <= |src|
    ensures val == BlockPrint(src, k)
  {
    hide Shift;
    ghost var w := src[16 * k + 1..16 * k + 17];
    val := 0;
    for i := 1 to RABIN_WINDOW + 1
      invariant val == Fingerprint(w[..i - 1])
    {
      FingerprintSnoc(w, i - 1);
      val := Shift(val, src[16 * k + i]);
    }
    assert w[..16] == w;
  }

  lemma PopulatedStart(src: seq<byte>, t: Table, n: nat)
    requires 16 * n + 1 <= |src| && Shape(t) && t.used == 0
    requires forall b :: 0 <= b < |t.hash| ==> t.hash[b] == -1
    ensures Populated(src, t, n, n)
    ensures forall b :: 0 <= b < |t.hash| ==> Bucket(t, b) == []
  {
    hide BucketOf, Fingerprint;
    forall b | 0 <= b < |t.hash| ensures Bucket(t, b) == [] {
      assert t.hash[b] == -1;
    }
  }

  /** The population loop of git_delta_index_init, from the last block to the
      first.  `count` receives the bucket sizes. */
  method Populate(index: DeltaIndex, count: array<nat>, entries: nat)
    requires index.used == 0 && Shape(index.Contents()) && index.hash != index.next
    requires forall b :: 0 <= b < index.hash.Length ==> index.hash[b] == -1
    requires index.ptr.Length == entries && 16 * entries + 1 <= |index.src|
    requires count.Length == index.hash.Length && (forall b :: 0 <= b < count.Length ==> count[b] == 0)
    requires count !in {index.ptr as object, index.hash, index.next, index.val}
    modifies index, index.hash, index.ptr, index.val, index.next, count
    ensures Populated(index.src, index.Contents(), 0, entries) && Runs(index.src, index.Contents(), 0, entries)
    ensures forall b :: 0 <= b < count.Length ==> count[b] == |Bucket(index.Contents(), b)|
  {
    hide EntriesOk, BucketsOk, Covered, Chain, BucketOf, Fingerprint, Runs;
    PopulatedStart(index.src, index.Contents(), entries);
    NoRuns(index.src, index.Contents(), entries);
    var hash, ptr, vals, next, src := index.hash, index.ptr, index.val, index.next, index.src;
    var prev: bv32 := 0xffff_ffff;
    var k := entries;
    while k > 0
      invariant 0 <= k <= entries && index.used <= entries - k
      invariant Populated(src, index.Contents(), k, entries) && Runs(src, index.Contents(), k, entries)
      invariant if index.used == 0 then prev == 0xffff_ffff else prev == vals[index.used - 1]
      invariant forall b :: 0 <= b < count.Length ==> count[b] == |Bucket(index.Contents(), b)|
    {
      ghost var t := index.Contents();
      var v := PrintOfBlock(src, k - 1);
      if v == prev {
        LowerPopulated(src, t, k, entries);
        LowerRuns(src, t, k, entries);
        ptr[index.used - 1] := 16 * k;
        assert index.Contents() == t.(ptr := t.ptr[t.used - 1 := 16 * k]);
      } else {
        prev := v;
        EnterPopulated(src, t, k, entries);
        EnterRuns(src, t, k, entries);
        EnterBuckets(t, 16 * k, v);
        var i, e := BucketOf(v, hash.Length), index.used;
        ptr[e] := 16 * k;
        vals[e] := v;
        next[e] := hash[i];
        hash[i] := e;
        index.used := e + 1;
        count[i] := count[i] + 1;
        assert index.Contents() == Enter(t, 16 * k, v);
      }
      k := k - 1;
    }
  }

  lemma LimitedMembers(ptr: seq<nat>, c: seq<int>)
    requires Ascending(ptr, c)
    ensures Ascending(ptr, Limited(c)) && (forall x :: x in Limited(c) ==> x in c)
    ensures |Limited(c)| <= 255 && (Limited(c) == [] <==> c == []) && Subsequence(Limited(c), c)
  {
    assert Distinct(c);
    BucketBound(c);
    CulledAscending(ptr, c, |c| / HASH_LIMIT / 2);
    CulledMembers(c, |c| / HASH_LIMIT / 2);
  }

  lemma ChainDescends(next: seq<int>, e: int, i: nat, j: nat)
    requires -1 <= e && Linked(next, e + 1) && i < j < |Chain(next, e)|
    ensures Chain(next, e)[i] > Chain(next, e)[j]
  {
    ChainStrict(next, e, j);
  }

  lemma PopulatedAscending(src: seq<byte>, t: Table, n: nat, b: nat)
    requires Populated(src, t, 0, n) && b < |t.hash|
    ensures Ascending(t.ptr, Bucket(t, b))
  {
    var c := Bucket(t, b);
    forall i, j | 0 <= i < j < |c| ensures t.ptr[c[i]] < t.ptr[c[j]] {
      ChainDescends(t.next, t.hash[b], i, j);
    }
  }

  /** Of a bucket's chain before culling: its entries belong to the bucket, point
      at the windows they were fingerprinted on, and ascend in the source. */
  ghost predicate FullBucket(src: seq<byte>, t: Table, b: nat, full: seq<int>)
    requires Shape(t) && b < |t.hash|
  {
    && Ascending(t.ptr, full)
    && forall e :: e in full ==> 0 <= e < t.used && EntryOk(src, t.ptr[e], t.val[e]) && BucketOf(t.val[e], |t.hash|) == b
  }

  /** Every block of the source is represented in the chain of its bucket. */
  ghost predicate FullCover(src: seq<byte>, t: Table, full: seq<seq<int>>)
    requires Shape(t) && |full| == |t.hash| && src != []
  {
    forall j :: 0 <= j < BlockCount(|src|) ==> FoundIn(src, t, full[BucketOf(BlockPrint(src, j), |t.hash|)], j)
  }

  ghost predicate FoundIn(src: seq<byte>, t: Table, c: seq<int>, j: nat)
    requires Shape(t) && 16 * j + 17 <= |src|
  {
    exists e :: e in c && 0 <= e < t.used && t.val[e] == BlockPrint(src, j) && t.ptr[e] <= 16 * (j + 1)
  }

  lemma PopulatedFull(src: seq<byte>, t: Table, full: seq<seq<int>>)
    requires src != [] && Populated(src, t, 0, BlockCount(|src|))
    requires |full| == |t.hash| && forall b :: 0 <= b < |full| ==> full[b] == Bucket(t, b)
    ensures FullCover(src, t, full)
    ensures forall b :: 0 <= b < |full| ==> FullBucket(src, t, b, full[b])
  {
    hide BucketOf, Fingerprint, Chain, Ascending;
    forall j | 0 <= j < BlockCount(|src|) ensures FoundIn(src, t, full[BucketOf(BlockPrint(src, j), |t.hash|)], j) {
      assert Covered(src, t, j);
      var e :| 0 <= e < t.used && t.val[e] == BlockPrint(src, j) && t.ptr[e] <= 16 * (j + 1);
      assert Home(t, e);
    }
    forall b | 0 <= b < |full| ensures FullBucket(src, t, b, full[b]) {
      PopulatedAscending(src, t, BlockCount(|src|), b);
      forall e | e in full[b] ensures 0 <= e < t.used && EntryOk(src, t.ptr[e], t.val[e]) && BucketOf(t.val[e], |t.hash|) == b {
        assert e in Bucket(t, b);
      }
    }
  }

  ghost predicate Listed(t: Table, c: seq<int>, p: nat)
    requires Shape(t)
  {
    exists e :: e in c && 0 <= e < t.used && t.ptr[e] == p
  }

  /** The chains have one entry, at its end, for every block that starts a run of blocks with
      one fingerprint, and no others. */
  ghost predicate FullExact(src: seq<byte>, t: Table, full: seq<seq<int>>)
    requires Shape(t) && |full| == |t.hash| && src != []
  {
    && (forall j: nat :: j < BlockCount(|src|) ==>
          (Listed(t, full[BucketOf(BlockPrint(src, j), |t.hash|)], 16 * (j + 1)) <==> StartsRun(src, j)))
    && forall b, e :: 0 <= b < |full| && e in full[b] && 0 <= e < t.used ==> t.ptr[e] % 16 == 0 && 16 <= t.ptr[e] <= 16 * BlockCount(|src|)
  }

  lemma RunsListed(src: seq<byte>, t: Table, full: seq<seq<int>>, j: nat)
    requires src != [] && j < BlockCount(|src|) && Populated(src, t, 0, BlockCount(|src|)) && Runs(src, t, 0, BlockCount(|src|))
    requires |full| == |t.hash| && forall b :: 0 <= b < |full| ==> full[b] == Bucket(t, b)
    ensures Listed(t, full[BucketOf(BlockPrint(src, j), |t.hash|)], 16 * (j + 1)) <==> StartsRun(src, j)
  {
    hide BucketOf, Fingerprint, Chain, Covered, BucketsOk;
    var c := full[BucketOf(BlockPrint(src, j), |t.hash|)];
    if Listed(t, c, 16 * (j + 1)) {
      var e :| e in c && 0 <= e < t.used && t.ptr[e] == 16 * (j + 1);
      assert HasEntry(t, 16 * (j + 1));
    }
    if StartsRun(src, j) {
      assert HasEntry(t, 16 * (j + 1));
      var e :| 0 <= e < t.used && t.ptr[e] == 16 * (j + 1);
      assert EntryOk(src, t.ptr[e], t.val[e]) && Home(t, e);
      assert src[16 * j + 1..16 * j + 17] == src[t.ptr[e] - 15..t.ptr[e] + 1];
      assert e in c;
    }
  }

  lemma RunsExact(src: seq<byte>, t: Table, full: seq<seq<int>>)
    requires src != [] && Populated(src, t, 0, BlockCount(|src|)) && Runs(src, t, 0, BlockCount(|src|))
    requires |full| == |t.hash| && forall b :: 0 <= b < |full| ==> full[b] == Bucket(t, b)
    ensures FullExact(src, t, full)
  {
    hide BucketOf, BlockPrint, Chain, EntriesOk, BucketsOk, Covered, StartsRun, BlockCount;
    forall j: nat | j < BlockCount(|src|)
      ensures Listed(t, full[BucketOf(BlockPrint(src, j), |t.hash|)], 16 * (j + 1)) <==> StartsRun(src, j)
    {
      RunsListed(src, t, full, j);
    }
  }

  /** Only the entries count, not how they are linked. */
  lemma ExactRelinked(src: seq<byte>, t: Table, next': seq<int>, full: seq<seq<int>>)
    requires Shape(t) && |full| == |t.hash| && src != [] && FullExact(src, t, full) && Shape(t.(next := next'))
    ensures FullExact(src, t.(next := next'), full)
  {
    hide BucketOf, BlockPrint, Chain, StartsRun, Linked;
    var t' := t.(next := next');
    forall j: nat | j < BlockCount(|src|)
      ensures Listed(t', full[BucketOf(BlockPrint(src, j), |t'.hash|)], 16 * (j + 1)) <==> StartsRun(src, j)
    {
      var c := full[BucketOf(BlockPrint(src, j), |t.hash|)];
      assert Listed(t', c, 16 * (j + 1)) <==> Listed(t, c, 16 * (j + 1)) by {
        if Listed(t, c, 16 * (j + 1)) { var e :| e in c && 0 <= e < t.used && t.ptr[e] == 16 * (j + 1); assert t'.ptr[e] == 16 * (j + 1); }
        if Listed(t', c, 16 * (j + 1)) { var e :| e in c && 0 <= e < t'.used && t'.ptr[e] == 16 * (j + 1); assert t.ptr[e] == 16 * (j + 1); }
      }
    }
  }

  /** While buckets are culled in turn: the first `i` are limited, the rest full. */
  ghost predicate LimitedUpTo(t: Table, full: seq<seq<int>>, i: nat) {
    && Shape(t) && |full| == |t.hash| && i <= |full|
    && forall b :: 0 <= b < |full| ==> Bucket(t, b) == if b < i then Limited(full[b]) else full[b]
  }

  /** Culling bucket i leaves the other buckets alone. */
  lemma LimitOne(src: seq<byte>, t: Table, next': seq<int>, full: seq<seq<int>>, i: nat)
    requires LimitedUpTo(t, full, i) && i < |full|
    requires forall b :: 0 <= b < |full| ==> FullBucket(src, t, b, full[b])
    requires Linked(next', |next'|) && |next'| == |t.next| && Chain(next', t.hash[i]) == Limited(full[i])
    requires forall e :: 0 <= e < |next'| && e !in full[i] ==> next'[e] == t.next[e]
    ensures LimitedUpTo(t.(next := next'), full, i + 1)
  {
    hide BucketOf, Ascending, Limited, EntryOk;
    var t' := t.(next := next');
    forall b | 0 <= b < |full| ensures Bucket(t', b) == if b < i + 1 then Limited(full[b]) else full[b] {
      if b != i {
        forall x | x in Bucket(t, b) ensures next'[x] == t.next[x] {
          if b < i { LimitedMembers(t.ptr, full[b]); }
          assert x in full[b];
        }
        ChainFrame(t.next, next', t.hash[b]);
      }
    }
  }

  /** The culling pass of git_delta_index_init. */
  method CullAll(index: DeltaIndex, count: array<nat>, ghost full: seq<seq<int>>)
    requires LimitedUpTo(index.Contents(), full, 0) && index.hash != index.next
    requires forall b :: 0 <= b < |full| ==> FullBucket(index.src, index.Contents(), b, full[b])
    requires count.Length == index.hash.Length && forall b :: 0 <= b < count.Length ==> count[b] == |full[b]|
    modifies index.next
    ensures index.Contents() == old(index.Contents()).(next := index.next[..])
    ensures LimitedUpTo(index.Contents(), full, |full|)
  {
    hide FullBucket, Chain;
    ghost var t0 := index.Contents();
    var i := 0;
    while i < count.Length
      invariant 0 <= i <= count.Length
      invariant index.Contents() == t0.(next := index.next[..])
      invariant LimitedUpTo(index.Contents(), full, i)
      invariant forall b :: 0 <= b < |full| ==> FullBucket(index.src, index.Contents(), b, full[b])
      invariant forall b :: 0 <= b < count.Length ==> count[b] == |full[b]|
    {
      ghost var t := index.Contents();
      if count[i] >= HASH_LIMIT {
        assert Bucket(t, i) == full[i];
        EmptyChain(t.next, t.hash[i]);
        CullBucket(index.next, index.hash[i], count[i]);
      }
      LimitOne(index.src, t, index.next[..], full, i);
      assert index.Contents() == t.(next := index.next[..]);
      FullFrame(index.src, t, index.next[..], full);
      i := i + 1;
    }
  }

  lemma EmptyChain(next: seq<int>, e: int)
    requires -1 <= e && Linked(next, e + 1)
    ensures e == -1 <==> Chain(next, e) == []
  {
  }

  lemma FullFrame(src: seq<byte>, t: Table, next': seq<int>, full: seq<seq<int>>)
    requires Shape(t) && |full| == |t.hash| && Linked(next', |next'|) && |next'| == |t.next|
    requires forall b :: 0 <= b < |full| ==> FullBucket(src, t, b, full[b])
    ensures forall b :: 0 <= b < |full| ==> FullBucket(src, t.(next := next'), b, full[b])
  {
  }

  /** The loop that chooses the number of buckets. */
  method BucketCount(entries: nat) returns (hsize: nat)
    ensures hsize > 0 && BucketsFor(entries, hsize)
  {
    var i := 4;
    hsize := 16;
    while i < 31 && hsize < entries / 4
      invariant 4 <= i <= 31 && hsize == PowerOfTwo(i) && (4 < i ==> hsize / 2 < entries / 4)
      decreases 31 - i
    {
      hsize, i := 2 * hsize, i + 1;
    }
  }

  /** git_delta_index_init.  For an empty source there is no index.  Every bucket
      is what culling makes of the full chain of its blocks: in the order of the source,
      never emptied, and never longer than 255. */
  method GitDeltaIndexInit(buf: seq<byte>) returns (index: DeltaIndex?, ghost full: seq<seq<int>>)
    ensures index == null <==> buf == []
    ensures index != null ==>
              && fresh(index) && index.src == buf && index.Valid() && index.ptr.Length == BlockCount(|buf|)
              && |full| == index.hash.Length && BucketsFor(BlockCount(|buf|), index.hash.Length)
              && InOrder(index.Contents())
              && FullCover(buf, index.Contents(), full) && FullExact(buf, index.Contents(), full)
    ensures index != null ==> forall b :: 0 <= b < |full| ==>
              && FullBucket(buf, index.Contents(), b, full[b])
              && Bucket(index.Contents(), b) == Limited(full[b]) && |Bucket(index.Contents(), b)| <= 255
  {
    full := [];
    if buf == [] {
      return null, full;
    }
    var entries := BlockCount(|buf|);
    var hsize := BucketCount(entries);
    hide BucketsFor, InOrder, FullCover, FullExact, FullBucket, Populated, Runs, LimitedUpTo, Limited, Chain;
    index := new DeltaIndex(buf, entries, hsize);
    var count := new nat[hsize](_ => 0);
    Populate(index, count, entries);
    ghost var t := index.Contents();
    full := seq(|t.hash|, b requires 0 <= b < |t.hash| => Bucket(t, b));
    PopulatedFull(buf, t, full);
    RunsExact(buf, t, full);
    CullAll(index, count, full);
    InitDone(buf, t, index.Contents().next, full, entries);
    ExactRelinked(buf, t, index.Contents().next, full);
  }

  lemma InitDone(src: seq<byte>, t: Table, next': seq<int>, full: seq<seq<int>>, n: nat)
    requires src != [] && n == BlockCount(|src|) && Populated(src, t, 0, n)
    requires LimitedUpTo(t.(next := next'), full, |full|) && |next'| == |t.next|
    requires FullCover(src, t, full)
    requires forall b :: 0 <= b < |full| ==> FullBucket(src, t, b, full[b])
    ensures var t' := t.(next := next');
            && FullCover(src, t', full)
            && (forall e :: 0 <= e < t'.used ==> t'.ptr[e] <= |src|) && InOrder(t')
            && forall b :: 0 <= b < |full| ==> FullBucket(src, t', b, full[b]) && |Bucket(t', b)| <= 255
  {
    hide Fingerprint, Chain, BucketOf;
    var t' := t.(next := next');
    FullFrame(src, t, next', full);
    forall b | 0 <= b < |full| ensures |Bucket(t', b)| <= 255 && Ascending(t'.ptr, Bucket(t', b)) {
      LimitedMembers(t.ptr, full[b]);
    }
    hide Ascending;
    forall j | 0 <= j < n ensures FoundIn(src, t', full[BucketOf(BlockPrint(src, j), |t.hash|)], j) {
      assert FoundIn(src, t, full[BucketOf(BlockPrint(src, j), |t.hash|)], j);
    }
  }
}
