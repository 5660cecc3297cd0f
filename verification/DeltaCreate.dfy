/** git_delta_create_from_index: the greedy encoder over a growing buffer. */
module DeltaCreate {
  import opened Common
  import opened Rabin
  import opened RabinRolling
  import opened DeltaFormat
  import opened DeltaEmit
  import opened DeltaCover
  import opened DeltaIndexing

  const MAX_OP_SIZE: nat := 5 + 5 + 1 + RABIN_WINDOW + 7

  /** The two sizes in front of the operations. */
  function Preamble(src: seq<byte>, trg: seq<byte>): seq<byte> {
    EncodeSize(|src|) + EncodeSize(|trg|)
  }

  /** `d` is a delta under construction that covers trg[..data]. */
  ghost predicate Encoding(src: seq<byte>, trg: seq<byte>, d: seq<byte>, data: nat, inscnt: nat) {
    Preamble(src, trg) <= d && Emitted(src, d, |Preamble(src, trg)|, trg, data, inscnt)
  }

  /** A finished construction is a delta from src to trg. */
  lemma EncodingDone(src: seq<byte>, trg: seq<byte>, d: seq<byte>)
    requires |src| <= UINT_MAX && |trg| <= UINT_MAX
    requires Encoding(src, trg, d, |trg|, 0)
    ensures Apply(src, d) == Patched(trg)
  {
    hide ReadSize, EncodeSize, Exec;
    var a, b := EncodeSize(|src|), EncodeSize(|trg|);
    var ops := d[|a + b|..];
    assert d == [] + a + (b + ops);
    ReadEncoded([], |src|, b + ops);
    assert d == a + b + ops;
    ReadEncoded(a, |trg|, ops);
    assert trg[..|trg|] == trg;
  }

  lemma PreambleLength(src: seq<byte>, trg: seq<byte>)
    requires |src| <= UINT_MAX && |trg| <= UINT_MAX
    ensures |Preamble(src, trg)| <= 10
  {
    EncodeSizeLength(|src|);
    EncodeSizeLength(|trg|);
  }

  /** src at moff and trg at data agree for msize bytes. */
  ghost predicate Matches(src: seq<byte>, trg: seq<byte>, data: nat, moff: nat, msize: nat) {
    moff + msize <= |src| && data + msize <= |trg| && src[moff..moff + msize] == trg[data..data + msize]
  }

  /** The number of bytes on which a and b agree. */
  function CommonLength(a: seq<byte>, b: seq<byte>): nat {
    if a == [] || b == [] || a[0] != b[0] then 0 else 1 + CommonLength(a[1..], b[1..])
  }

  lemma {:induction false} CommonLengthIs(a: seq<byte>, b: seq<byte>, n: nat)
    requires n <= |a| && n <= |b| && a[..n] == b[..n]
    requires n == |a| || n == |b| || a[n] != b[n]
    ensures CommonLength(a, b) == n
    decreases n
  {
    if n > 0 {
      assert a[0] == a[..n][0] == b[..n][0] == b[0];
      assert a[1..][..n - 1] == a[..n][1..] == b[..n][1..] == b[1..][..n - 1];
      CommonLengthIs(a[1..], b[1..], n - 1);
    }
  }

  lemma {:induction false} CommonLengthBound(a: seq<byte>, b: seq<byte>)
    ensures CommonLength(a, b) <= |a| && CommonLength(a, b) <= |b|
  {
    if a != [] && b != [] && a[0] == b[0] {
      CommonLengthBound(a[1..], b[1..]);
    }
  }

  /** No entry with this fingerprint behind position i of the chain beats msize. */
  ghost predicate NoLonger(src: seq<byte>, trg: seq<byte>, t: Table, c: seq<int>, data: nat, val: fingerprint, msize: nat)
    requires Shape(t) && data <= |trg|
  {
    forall e :: e in c && 0 <= e < t.used && t.ptr[e] <= |src| && t.val[e] == val ==>
      CommonLength(src[t.ptr[e]..], trg[data..]) <= msize
  }

  /** memcmp of the encoder: how far src from `p` agrees with trg from `data`. */
  method MatchLength(src: seq<byte>, trg: seq<byte>, p: nat, data: nat) returns (n: nat)
    requires p <= |src| && data <= |trg|
    ensures n == CommonLength(src[p..], trg[data..])
    ensures Matches(src, trg, data, p, n)
  {
    var refSize := Min(|src| - p, |trg| - data);
    n := 0;
    while n < refSize && trg[data + n] == src[p + n]
      invariant n <= refSize
      invariant src[p..p + n] == trg[data..data + n]
    {
      assert src[p..p + n + 1] == src[p..p + n] + [src[p + n]];
      assert trg[data..data + n + 1] == trg[data..data + n] + [trg[data + n]];
      n := n + 1;
    }
    assert src[p..][..n] == src[p..p + n];
    assert trg[data..][..n] == trg[data..data + n];
    CommonLengthIs(src[p..], trg[data..], n);
  }

  /** The match is the one at hand, or a longer one at an entry of the chain with this
      fingerprint, as long as the texts agree there. */
  ghost predicate Taken(src: seq<byte>, trg: seq<byte>, t: Table, c: seq<int>, data: nat, val: fingerprint,
                        moff0: nat, msize0: nat, moff: nat, msize: nat)
    requires Shape(t) && data <= |trg|
  {
    (moff == moff0 && msize == msize0) || (msize > msize0 && exists e :: AtEntry(src, trg, t, c, data, val, e, moff, msize))
  }

  ghost predicate AtEntry(src: seq<byte>, trg: seq<byte>, t: Table, c: seq<int>, data: nat, val: fingerprint, e: int, moff: nat, msize: nat)
    requires Shape(t) && data <= |trg|
  {
    e in c && 0 <= e < t.used && t.val[e] == val && t.ptr[e] == moff <= |src| && msize == CommonLength(src[moff..], trg[data..])
  }

  /** One entry with the right fingerprint: it is taken if it matches longer, and the walk
      stops if the match is good enough or there is no room for a longer one from here on. */
  method TryEntry(src: seq<byte>, trg: seq<byte>, p: nat, data: nat, moff0: nat, msize0: nat) returns (moff: nat, msize: nat, stop: bool)
    requires p <= |src| && data < |trg| && msize0 < 4096 && Matches(src, trg, data, moff0, msize0)
    ensures var n := CommonLength(src[p..], trg[data..]);
            if n > msize0 then moff == p && msize == n else moff == moff0 && msize == msize0
    ensures Matches(src, trg, data, moff, msize)
    ensures stop <==> msize >= 4096 || Min(|src| - p, |trg| - data) <= msize0
    ensures stop && msize < 4096 ==> msize == msize0
  {
    hide CommonLength;
    CommonLengthBound(src[p..], trg[data..]);
    if Min(|src| - p, |trg| - data) <= msize0 {
      return moff0, msize0, true;
    }
    var n := MatchLength(src, trg, p, data);
    if msize0 < n {
      return p, n, n >= 4096;
    }
    return moff0, msize0, false;
  }

  /** The walk over the bucket of `val`.  It returns a true match, the one it was given or
      a longer one at an entry of the bucket with that fingerprint, and, unless it stopped
      at a match of 4096, no such entry of a bucket in source order matches longer. */
  method FindMatch(index: DeltaIndex, trg: seq<byte>, data: nat, val: fingerprint, moff0: nat, msize0: nat)
    returns (moff: nat, msize: nat)
    requires index.Valid() && data < |trg|
    requires msize0 < 4096 && Matches(index.src, trg, data, moff0, msize0)
    ensures Matches(index.src, trg, data, moff, msize) && msize >= msize0
    ensures var t := index.Contents();
            var c := Bucket(t, BucketOf(val, |t.hash|));
            && Taken(index.src, trg, t, c, data, val, moff0, msize0, moff, msize)
            && (Ascending(t.ptr, c) && msize < 4096 ==> NoLonger(index.src, trg, t, c, data, val, msize))
  {
    hide Chain, CommonLength, BucketOf, Matches, Ascending, NoLonger, Taken;
    var src := index.src;
    ghost var t := index.Contents();
    ghost var c := Bucket(t, BucketOf(val, |t.hash|));
    ghost var done: seq<int> := [];
    moff, msize := moff0, msize0;
    var entry := index.hash[BucketOf(val, index.hash.Length)];
    assert [] + c == c;
    NoneLonger(src, trg, t, c, data, val, moff0, msize0);
    while entry >= 0
      invariant -1 <= entry < index.used
      invariant c == done + Chain(t.next, entry)
      invariant Matches(src, trg, data, moff, msize) && msize0 <= msize < 4096
      invariant Taken(src, trg, t, c, data, val, moff0, msize0, moff, msize)
      invariant NoLonger(src, trg, t, done, data, val, msize)
      decreases entry
    {
      ChainHead(t.next, entry);
      assert c == done + [entry] + Chain(t.next, t.next[entry]);
      if index.val[entry] == val {
        ghost var moff1, msize1 := moff, msize;
        var stop;
        moff, msize, stop := TryEntry(src, trg, index.ptr[entry], data, moff, msize);
        assert c[|done|] == entry && c[..|done|] == done;
        TakenNext(src, trg, t, c, data, val, moff0, msize0, moff1, msize1, entry, moff, msize);
        if stop {
          if Ascending(t.ptr, c) && msize < 4096 { RestIsShort(src, trg, t, c, |done|, data, val, msize); }
          return;
        }
        NextNoLonger(src, trg, t, done, entry, data, val, msize1, msize);
      } else {
        NextNoLonger(src, trg, t, done, entry, data, val, msize, msize);
      }
      done := done + [entry];
      entry := index.next[entry];
    }
    ChainNil(t.next);
    assert done + [] == done;
  }

  lemma TakenNext(src: seq<byte>, trg: seq<byte>, t: Table, c: seq<int>, data: nat, val: fingerprint,
                  moff0: nat, msize0: nat, moff1: nat, msize1: nat, e: int, moff: nat, msize: nat)
    requires Shape(t) && data <= |trg| && msize0 <= msize1 && Taken(src, trg, t, c, data, val, moff0, msize0, moff1, msize1)
    requires (moff == moff1 && msize == msize1) || (msize > msize1 && AtEntry(src, trg, t, c, data, val, e, moff, msize))
    ensures Taken(src, trg, t, c, data, val, moff0, msize0, moff, msize)
  {
    hide AtEntry;
  }

  /** An index without entries gives no match. */
  lemma NothingTaken(src: seq<byte>, trg: seq<byte>, t: Table, c: seq<int>, data: nat, val: fingerprint,
                     moff0: nat, msize0: nat, moff: nat, msize: nat)
    requires Shape(t) && data <= |trg| && t.used == 0 && Taken(src, trg, t, c, data, val, moff0, msize0, moff, msize)
    ensures moff == moff0 && msize == msize0
  {
  }

  lemma NoneLonger(src: seq<byte>, trg: seq<byte>, t: Table, c: seq<int>, data: nat, val: fingerprint, moff: nat, msize: nat)
    requires Shape(t) && data <= |trg|
    ensures NoLonger(src, trg, t, [], data, val, msize) && Taken(src, trg, t, c, data, val, moff, msize, moff, msize)
  {
  }

  lemma NextNoLonger(src: seq<byte>, trg: seq<byte>, t: Table, c: seq<int>, e: int, data: nat, val: fingerprint, m: nat, n: nat)
    requires Shape(t) && data <= |trg| && 0 <= e < t.used && m <= n && NoLonger(src, trg, t, c, data, val, m)
    requires t.ptr[e] <= |src| && t.val[e] == val ==> CommonLength(src[t.ptr[e]..], trg[data..]) <= n
    ensures NoLonger(src, trg, t, c + [e], data, val, n)
  {
  }

  lemma ChainHead(next: seq<int>, e: int)
    requires 0 <= e && Linked(next, e + 1)
    ensures Chain(next, e) == [e] + Chain(next, next[e])
  {
  }

  lemma ChainNil(next: seq<int>)
    ensures Chain(next, -1) == []
  {
  }

  /** In a bucket in source order the room for a match only shrinks, so that the
      walk may stop at the first entry without room for a longer one. */
  lemma RestIsShort(src: seq<byte>, trg: seq<byte>, t: Table, c: seq<int>, k: nat, data: nat, val: fingerprint, msize: nat)
    requires Shape(t) && data < |trg| && Ascending(t.ptr, c) && k < |c|
    requires NoLonger(src, trg, t, c[..k], data, val, msize)
    requires t.ptr[c[k]] <= |src| && Min(|src| - t.ptr[c[k]], |trg| - data) <= msize
    ensures NoLonger(src, trg, t, c, data, val, msize)
  {
    forall e | e in c && 0 <= e < t.used && t.ptr[e] <= |src| && t.val[e] == val
      ensures CommonLength(src[t.ptr[e]..], trg[data..]) <= msize
    {
      var i :| 0 <= i < |c| && c[i] == e;
      if i < k {
        assert e == c[..k][i];
      } else {
        CommonLengthBound(src[t.ptr[e]..], trg[data..]);
      }
    }
  }

  // ------------------------------------------------------ what is sent as literals

  /** No entry with the fingerprint of the window that ends at trg[i] goes on like the
      target for four bytes from there. */
  ghost predicate NoMatchAt(src: seq<byte>, trg: seq<byte>, t: Table, i: nat)
    requires Shape(t) && RABIN_WINDOW <= i < |trg|
  {
    var val := Fingerprint(trg[i + 1 - RABIN_WINDOW..i + 1]);
    forall e :: e in Bucket(t, BucketOf(val, |t.hash|)) && 0 <= e < t.used && t.ptr[e] <= |src| && t.val[e] == val ==>
      CommonLength(src[t.ptr[e]..], trg[i..]) < 4
  }

  /** Of the bytes that are covered: a copy has four to 64 K of them, and an inserted one
      behind the first window was not to be matched. */
  ghost predicate Frugal(src: seq<byte>, trg: seq<byte>, t: Table, cover: seq<nat>)
    requires Shape(t) && |cover| <= |trg|
  {
    && (forall i :: 0 <= i < |cover| && cover[i] > 0 ==> 4 <= cover[i] <= 0x1_0000)
    && (InOrder(t) ==> forall i :: RABIN_WINDOW <= i < |cover| && cover[i] == 0 ==> NoMatchAt(src, trg, t, i))
  }

  lemma FrugalCopy(src: seq<byte>, trg: seq<byte>, t: Table, before: seq<nat>, cover: seq<nat>, start: nat)
    requires Shape(t) && start <= |cover| <= |trg| && |before| <= |trg| && Frugal(src, trg, t, before)
    requires cover[..start] <= before && cover[start..] == CopyCover(|cover| - start) && 4 <= |cover| - start <= 0x1_0000
    ensures Frugal(src, trg, t, cover)
  {
    hide NoMatchAt, InOrder;
    assert forall i :: 0 <= i < |cover| ==> cover[i] == if i < start then before[i] else |cover| - start;
  }

  // --------------------------------------------------------- writing the buffer

  /** buf[bufpos++] = b, if b is not zero. */
  method PutPiece(buf: array<byte>, bufpos: nat, b: byte) returns (p: nat)
    requires bufpos < buf.Length
    modifies buf
    ensures p == bufpos + |Piece(b)|
    ensures buf[..p] == old(buf[..bufpos]) + Piece(b)
  {
    p := bufpos;
    if b != 0 {
      buf[p] := b;
      p := p + 1;
    }
  }

  /** Emits a copy: the argument bytes that are not zero, and the operation byte
      last, into the place kept for it. */
  method EmitCopy(buf: array<byte>, bufpos: nat, moff: nat, msize: nat) returns (p: nat)
    requires bufpos + 7 <= buf.Length
    modifies buf
    ensures p == bufpos + |CopyOp(moff, msize)|
    ensures buf[..p] == old(buf[..bufpos]) + CopyOp(moff, msize)
  {
    hide ByteOf;
    var op := bufpos;
    ghost var d0 := buf[..bufpos];
    ghost var slot := buf[bufpos];
    p := bufpos + 1;
    assert buf[..p] == d0 + [slot];
    p := PutPiece(buf, p, ByteOf(moff, 0));
    p := PutPiece(buf, p, ByteOf(moff, 1));
    p := PutPiece(buf, p, ByteOf(moff, 2));
    p := PutPiece(buf, p, ByteOf(moff, 3));
    p := PutPiece(buf, p, ByteOf(msize, 0));
    p := PutPiece(buf, p, ByteOf(msize, 1));
    ghost var d1 := buf[..p];
    buf[op] := CopyCommand(moff, msize);
    assert buf[..p] == d1[op := CopyCommand(moff, msize)];
    ReplaceSlot(d0, slot, CopyCommand(moff, msize), Piece(ByteOf(moff, 0)), Piece(ByteOf(moff, 1)),
                Piece(ByteOf(moff, 2)), Piece(ByteOf(moff, 3)), Piece(ByteOf(msize, 0)), Piece(ByteOf(msize, 1)));
  }

  lemma ReplaceSlot(d: seq<byte>, x: byte, y: byte, a0: seq<byte>, a1: seq<byte>, a2: seq<byte>, a3: seq<byte>, a4: seq<byte>, a5: seq<byte>)
    ensures (d + [x] + a0 + a1 + a2 + a3 + a4 + a5)[|d| := y] == d + ([y] + a0 + a1 + a2 + a3 + a4 + a5)
  {
    var t := a0 + a1 + a2 + a3 + a4 + a5;
    NestPieces(d + [x], a0, a1, a2, a3, a4, a5);
    NestPieces([y], a0, a1, a2, a3, a4, a5);
    var u := a0 + (a1 + (a2 + (a3 + (a4 + a5))));
    assert (d + [x] + u)[|d| := y] == d + ([y] + u);
  }

  /** Stores a size, seven bits to the byte. */
  method StoreSize(buf: array<byte>, bufpos: nat, n: nat) returns (p: nat)
    requires bufpos + |EncodeSize(n)| <= buf.Length
    modifies buf
    ensures p == bufpos + |EncodeSize(n)|
    ensures buf[..p] == old(buf[..bufpos]) + EncodeSize(n)
  {
    ghost var d0 := buf[..bufpos];
    var i := n;
    p := bufpos;
    while i >= 0x80
      invariant bufpos <= p && p + |EncodeSize(i)| == bufpos + |EncodeSize(n)|
      invariant buf[..p] + EncodeSize(i) == d0 + EncodeSize(n)
    {
      ghost var d1 := buf[..p];
      ghost var c: byte := i % 128 + 128;
      assert EncodeSize(i) == [c] + EncodeSize(i / 128);
      buf[p] := i % 128 + 128;
      p := p + 1;
      assert buf[..p] == d1 + [c];
      assert d1 + ([c] + EncodeSize(i / 128)) == d1 + [c] + EncodeSize(i / 128);
      i := i / 128;
    }
    buf[p] := i;
    p := p + 1;
    assert buf[..p] == buf[..p - 1] + EncodeSize(i);
  }

  // ------------------------------------------------------------- the main loop

  datatype CreateResult =
    | NoDelta            // an empty target has no delta
    | TooLarge           // sizes that do not fit 32 bits
    | OverMaxSize        // GIT_EBUFS
    | SizeWrapped        // the 32-bit growth of the buffer size wrapped around
    | Delta(bytes: seq<byte>)

  /** What a delta under construction sends. */
  ghost predicate Sends(src: seq<byte>, trg: seq<byte>, d: seq<byte>, inscnt: nat, cover: seq<nat>) {
    var h := |Preamble(src, trg)|;
    && (if inscnt == 0 then h <= |d| else h + inscnt + 1 <= |d|)
    && cover == Covers(src, d, h, inscnt)
  }

  /** How far the construction has come: the size of the delta, the length of the open
      run, the bytes of the target, the match at hand, and what was sent. */
  datatype Place = Place(size: nat, run: nat, data: nat, moff: nat, msize: nat, cover: seq<nat>)

  /** One byte was sent as it is. */
  ghost predicate LiteralSent(a: Place, b: Place) {
    && b.data == a.data + 1 && b.msize == 0 && b.run == (a.run + 1) % 127
    && a.size < b.size <= a.size + 2 && b.cover == a.cover + [0]
  }

  /** A match that begins at these places begins no earlier. */
  ghost predicate Parted(src: seq<byte>, trg: seq<byte>, moff: nat, data: nat) {
    moff == 0 || (0 < data <= |trg| && moff <= |src| && src[moff - 1] != trg[data - 1])
  }

  /** A match of m bytes at `at` was copied, at most 64 KB of it, from `start` on: as far
      back in the open run as it agrees.  The rest of it is the match at hand. */
  ghost predicate Copied(src: seq<byte>, trg: seq<byte>, a: Place, b: Place, at: nat, m: nat, start: nat) {
    && start <= a.data <= start + a.run && start <= |trg| && start <= |b.cover|
    && var back := a.data - start;
       && back <= at && at - back <= |src|
       && (back < a.run ==> Parted(src, trg, at - back, start))
       && b.data == start + (if m + back < 0x1_0000 then m + back else 0x1_0000)
       && b.data + b.msize == a.data + m && b.moff + a.data == at + b.data
       && b.run == 0 && b.size <= a.size + 7 && b.cover[..start] <= a.cover && b.cover[start..] == CopyCover(b.data - start)
  }

  /** A copy of n bytes. */
  function CopyCover(n: nat): (c: seq<nat>)
    ensures |c| == n && forall i :: 0 <= i < n ==> c[i] == n
  {
    seq(n, _ => n)
  }

  /** The local variables of git_delta_create_from_index. */
  class Encoder {
    const index: DeltaIndex
    const trg: seq<byte>
    const maxSize: nat
    var buf: array<byte>
    var bufpos: nat
    var inscnt: nat
    var moff: nat
    var msize: nat
    var val: fingerprint
    var data: nat
    ghost var cover: seq<nat>  // what was sent so far, byte by byte of the target

    /** What the loop keeps, apart from the room in the buffer. */
    ghost predicate Valid()
      reads this, buf, index, index.hash, index.ptr, index.val, index.next
    {
      && index.Valid()
      && buf as object !in {index.hash as object, index.ptr, index.val, index.next, index, this}
      && |index.src| <= UINT_MAX && |trg| <= UINT_MAX && |trg| > 0
      && bufpos <= buf.Length
      && Encoding(index.src, trg, buf[..bufpos], data, inscnt)
      && Sends(index.src, trg, buf[..bufpos], inscnt, cover) && |cover| == data <= |trg|
      && Matches(index.src, trg, data, moff, msize)
    }

    /** Between steps a whole window lies behind `data`, and the delta is at most
        twice as long as what it covers. */
    ghost predicate Between()
      reads this
    {
      && data <= |trg| && (data < |trg| ==> data >= RABIN_WINDOW)
      && bufpos <= 11 + 2 * data
      && inscnt < 0x7f
    }

    /** The place of the construction as a value. */
    ghost function Standing(): Place
      reads this
    {
      Place(bufpos, inscnt, data, moff, msize, cover)
    }

    /** No byte was sent as it is that was to be matched. */
    ghost predicate Thrifty()
      requires Valid()
      reads this, buf, index, index.hash, index.ptr, index.val, index.next
    {
      Frugal(index.src, trg, index.Contents(), cover)
    }

    /** Nothing but literals so far: each run of up to 127 of them has a byte for its
        count. */
    ghost predicate Literally()
      reads this
    {
      bufpos == LiteralSize(index.src, trg, data) && inscnt == data % 127 && msize == 0
    }

    /** The fingerprint is that of the last 16 bytes, unless a long match is being copied. */
    ghost predicate Rolled()
      reads this
    {
      data < |trg| && msize < 4096 ==> data >= RABIN_WINDOW && val == Fingerprint(trg[data - RABIN_WINDOW..data])
    }

    /** Room for one more step. */
    ghost predicate Roomy()
      reads this
    {
      RoomAt(bufpos, buf.Length, maxSize)
    }

    /** Allocates the buffer. */
    constructor (index: DeltaIndex, trg: seq<byte>, maxSize: nat)
      requires maxSize + MAX_OP_SIZE + 1 <= UINT_MAX
      ensures fresh(buf) && Roomy() && bufpos == inscnt == moff == msize == data == 0
      ensures this.index == index && this.trg == trg && this.maxSize == maxSize
    {
      this.index, this.trg, this.maxSize := index, trg, maxSize;
      var bufsize := if maxSize > 0 && 8192 >= maxSize then maxSize + MAX_OP_SIZE + 1 else 8192;
      buf := new byte[bufsize];
      moff, msize, inscnt, data, bufpos, val, cover := 0, 0, 0, 0, 0, 0, [];
    }

    /** Copies the first window of the target into the buffer and fingerprints it. */
    method FirstWindow()
      requires data == 0 && bufpos + RABIN_WINDOW <= buf.Length
      modifies this`bufpos, this`val, this`data, buf
      ensures data == Min(RABIN_WINDOW, |trg|) && bufpos == old(bufpos) + data
      ensures buf[..bufpos] == old(buf[..bufpos]) + trg[..data]
      ensures val == Fingerprint(trg[..data])
    {
      hide Shift;
      ghost var d0 := buf[..bufpos];
      val := 0;
      while data < RABIN_WINDOW && data < |trg|
        modifies this`bufpos, this`val, this`data, buf
        invariant data <= RABIN_WINDOW && data <= |trg| && bufpos == old(bufpos) + data
        invariant buf[..bufpos] == d0 + trg[..data] && val == Fingerprint(trg[..data])
      {
        ghost var d := buf[..bufpos];
        buf[bufpos] := trg[data];
        assert buf[..bufpos + 1] == d + [trg[data]];
        assert d0 + trg[..data + 1] == d0 + trg[..data] + [trg[data]];
        bufpos := bufpos + 1;
        FingerprintSnoc(trg, data);
        val := Shift(val, trg[data]);
        data := data + 1;
      }
    }

    /** Emits the sizes, and reserves the count of the first run. */
    method Sizes() returns (ghost slot: byte)
      requires bufpos == 0 && |index.src| <= UINT_MAX && |trg| <= UINT_MAX && buf.Length >= 36
      modifies this`bufpos, buf
      ensures bufpos <= 11 && buf[..bufpos] == Preamble(index.src, trg) + [slot]
    {
      hide EncodeSize;
      PreambleLength(index.src, trg);
      bufpos := StoreSize(buf, 0, |index.src|);
      bufpos := StoreSize(buf, bufpos, |trg|);
      assert buf[..bufpos] == Preamble(index.src, trg) by { assert [] + EncodeSize(|index.src|) == EncodeSize(|index.src|); }
      slot := buf[bufpos];
      bufpos := bufpos + 1;
    }

    /** Emits the sizes, a slot for the count, and the first 16 bytes of the target. */
    method Begin() returns (ghost slot: byte)
      requires bufpos == data == 0 && trg != [] && |index.src| <= UINT_MAX && |trg| <= UINT_MAX && buf.Length >= 36
      modifies this`bufpos, this`val, this`data, buf
      ensures data == Min(RABIN_WINDOW, |trg|) && bufpos == |Preamble(index.src, trg)| + 1 + data <= 27
      ensures buf[..bufpos] == Preamble(index.src, trg) + [slot] + trg[..data] && val == Fingerprint(trg[..data])
    {
      hide Fingerprint, Preamble;
      slot := Sizes();
      FirstWindow();
    }

    /** The state before the main loop: the first bytes are an open run. */
    method Start()
      requires index.Valid() && trg != [] && |index.src| <= UINT_MAX && |trg| <= UINT_MAX
      requires buf as object !in {index.hash as object, index.ptr, index.val, index.next, index, this}
      requires bufpos == inscnt == moff == msize == data == 0 && Roomy()
      modifies this`bufpos, this`inscnt, this`val, this`data, this`cover, buf
      ensures Valid() && Roomy() && Between() && Literally() && Rolled() && Thrifty()
    {
      RoomFirst(buf.Length, maxSize);
      hide index.Valid, Valid, Thrifty, RoomAt, Fingerprint, Preamble, LiteralSize;
      ghost var slot := Begin();
      inscnt, cover := data, Zeros(data);
      Begun(slot);
    }

    lemma Begun(slot: byte)
      requires index.Valid() && trg != [] && |index.src| <= UINT_MAX && |trg| <= UINT_MAX
      requires buf as object !in {index.hash as object, index.ptr, index.val, index.next, index, this}
      requires data == inscnt == Min(RABIN_WINDOW, |trg|) && bufpos == |Preamble(index.src, trg)| + 1 + data <= Min(27, buf.Length)
      requires buf[..bufpos] == Preamble(index.src, trg) + [slot] + trg[..data] && val == Fingerprint(trg[..data])
      requires moff == msize == 0 && cover == Zeros(data)
      ensures Valid() && Between() && Literally() && Rolled() && Thrifty()
    {
      hide Encoding, LiteralSize, Fingerprint, Preamble, Sends, Frugal, Matches;
      PreambleLength(index.src, trg);
      FirstSent(index.src, trg, index.Contents(), slot, data);
      FirstRun(index.src, trg, slot, data);
      FirstSize(index.src, trg, data);
      FirstPlaces(index.src, trg, data);
    }

    /** buf[bufpos - inscnt - 1] = inscnt: closes the open literal run. */
    method CloseRun()
      requires Valid() && inscnt > 0
      modifies this`inscnt, buf
      ensures Valid() && inscnt == 0
    {
      hide Exec, Cover;
      ghost var d := buf[..bufpos];
      CoversClosed(index.src, d, |Preamble(index.src, trg)|, trg, data, inscnt);
      var n: byte := inscnt;
      buf[bufpos - inscnt - 1] := n;
      assert buf[..bufpos] == d[bufpos - inscnt - 1 := n];
      DeltaEmit.CloseRun(index.src, d, |Preamble(index.src, trg)|, trg, data, inscnt);
      inscnt := 0;
    }

    /** One more byte in the open run, or in a new one. */
    method PutLiteral()
      requires Valid() && data < |trg| && bufpos + 2 <= buf.Length && inscnt < 0x7f
      modifies this`bufpos, this`inscnt, this`data, this`msize, this`cover, buf
      ensures Valid() && data == old(data) + 1 && inscnt == old(inscnt) + 1 && msize == 0 && cover == old(cover) + [0]
      ensures bufpos == old(bufpos) + if old(inscnt) == 0 then 2 else 1
    {
      hide Emitted, Preamble, Covers, index.Valid;
      ghost var d, slot, h := buf[..bufpos], buf[bufpos], |Preamble(index.src, trg)|;
      if inscnt == 0 {
        bufpos := bufpos + 1;
        OpenRun(index.src, d, h, trg, data, slot);
        CoversOpened(index.src, d, h, trg, data, slot);
      } else {
        ExtendRun(index.src, d, h, trg, data, inscnt);
        CoversExtended(index.src, d, h, trg, data, inscnt);
      }
      buf[bufpos] := trg[data];
      assert buf[..bufpos + 1] == if inscnt == 0 then d + [slot, trg[data]] else d + [trg[data]];
      bufpos, data, inscnt, msize, cover := bufpos + 1, data + 1, inscnt + 1, 0, cover + [0];
      assert index.src[moff..moff] == trg[data..data];
    }

    /** No match worth a copy: one more literal, and a full run is closed. */
    method LiteralStep()
      requires Valid() && data < |trg| && bufpos + 2 <= buf.Length && inscnt < 0x7f
      modifies this`bufpos, this`inscnt, this`data, this`msize, this`cover, buf
      ensures Valid() && inscnt < 0x7f
      ensures data == old(data) + 1 && old(bufpos) < bufpos <= old(bufpos) + 2 && msize == 0
      ensures LiteralSent(old(Standing()), Standing())
      ensures old(bufpos) == LiteralSize(index.src, trg, old(data)) && old(inscnt) == old(data) % 127 ==> Literally()
    {
      hide Valid, LiteralSize;
      LiteralNext(index.src, trg, data);
      PutLiteral();
      if inscnt == 0x7f {
        CloseRun();
      }
    }

    /** The match begins one byte earlier: a literal is taken back, and with the last one
        goes its count slot. */
    method TakeBack() returns (slotGone: bool)
      requires Valid() && 0 < inscnt < 0x7f && moff > 0 && data > 0 && index.src[moff - 1] == trg[data - 1]
      modifies this`bufpos, this`inscnt, this`data, this`msize, this`moff, this`cover
      ensures Valid() && data == old(data) - 1 && msize == old(msize) + 1 && inscnt == old(inscnt) - 1
      ensures bufpos < old(bufpos) && (slotGone <==> inscnt == 0)
      ensures moff == old(moff) - 1 && cover <= old(cover)
    {
      hide Emitted, Preamble, Covers;
      ghost var d := buf[..bufpos];
      RunRoom(index.src, d, |Preamble(index.src, trg)|, trg, data, inscnt);
      Unemit(index.src, d, |Preamble(index.src, trg)|, trg, data, inscnt);
      CoversTakenBack(index.src, d, |Preamble(index.src, trg)|, trg, data, inscnt);
      ExtendMatch(index.src, trg, data, moff, msize);
      msize, moff, data, bufpos, inscnt := msize + 1, moff - 1, data - 1, bufpos - 1, inscnt - 1;
      OneLess(cover, Covers(index.src, if inscnt == 0 then d[..|d| - 2] else d[..|d| - 1], |Preamble(index.src, trg)|, inscnt), |cover|);
      cover := cover[..data];
      slotGone := false;
      if inscnt == 0 {
        bufpos := bufpos - 1;  // remove count slot
        slotGone := true;
      }
      assert buf[..bufpos] == if inscnt == 0 then d[..|d| - 2] else d[..|d| - 1];
    }

    /** Lets the match begin earlier, as long as there are literals to take back and the
        bytes before it agree. */
    method ExtendBack() returns (ghost back: nat)
      requires Valid() && msize >= 4 && 0 < inscnt < 0x7f
      modifies this`bufpos, this`inscnt, this`data, this`msize, this`moff, this`cover
      ensures Valid() && back < 0x7f && bufpos + back <= old(bufpos) && cover <= old(cover)
      ensures data == old(data) - back && moff == old(moff) - back && inscnt == old(inscnt) - back && msize == old(msize) + back
      ensures moff <= |index.src| && data == |cover| <= |trg|
      ensures inscnt > 0 ==> Parted(index.src, trg, moff, data)
    {
      RunInside();
      hide Valid;
      back := 0;
      ghost var data0, moff0, inscnt0, msize0, bufpos0 := data, moff, inscnt, msize, bufpos;
      var slotGone := false;
      while !slotGone && moff > 0 && index.src[moff - 1] == trg[data - 1]
        modifies this`bufpos, this`inscnt, this`data, this`msize, this`moff, this`cover
        invariant Valid() && (slotGone <==> inscnt == 0) && inscnt <= data && moff <= |index.src| && data == |cover| <= |trg|
        invariant data == data0 - back && moff == moff0 - back && inscnt == inscnt0 - back && msize == msize0 + back
        invariant bufpos + back <= bufpos0 && cover <= old(cover)
        decreases inscnt
      {
        slotGone := TakeBack();
        back := back + 1;
        RunInside();
      }
    }

    lemma RunInside()
      requires Valid()
      ensures inscnt <= data == |cover| <= |trg| && moff <= |index.src|
    {
      if inscnt > 0 { RunRoom(index.src, buf[..bufpos], |Preamble(index.src, trg)|, trg, data, inscnt); }
    }

    /** The bytes of one copy operation, from a closed run on. */
    method CopyOut(size: nat)
      requires Valid() && inscnt == 0 && 0 < size <= msize && size <= 0x1_0000 && bufpos + 7 <= buf.Length
      modifies this`bufpos, this`data, this`moff, this`msize, this`cover, buf
      ensures Valid() && bufpos <= old(bufpos) + 7 && data <= |trg|
      ensures data == old(data) + size && moff == old(moff) + size && msize == old(msize) - size
      ensures inscnt == 0 && cover == old(cover) + CopyCover(size)
    {
      hide Exec, CopyOp, Cover;
      var src := index.src;
      ghost var d := buf[..bufpos];
      CopyParts(src, trg, data, moff, msize, size);
      AppendCopy(src, d, |Preamble(src, trg)|, trg, data, moff, size);
      CoversCopied(src, d, |Preamble(src, trg)|, trg, data, moff, size);
      bufpos := EmitCopy(buf, bufpos, moff, size);
      data, moff, msize, cover := data + size, moff + size, msize - size, cover + CopyCover(size);
    }

    /** buf[bufpos - inscnt - 1] = inscnt, where inscnt is -1 if no slot is left. */
    method EndRun()
      requires Valid() && bufpos < buf.Length
      modifies this`inscnt, buf
      ensures Valid() && inscnt == 0
    {
      if inscnt > 0 {
        CloseRun();
      } else {
        ghost var d := buf[..bufpos];
        buf[bufpos] := 0xff;
        assert buf[..bufpos] == d;
        hide Encoding, Matches, index.Valid, Sends;
      }
    }

    /** Takes the match as far back in the open run as it agrees, and closes the run. */
    method BackUp() returns (ghost back: nat)
      requires Valid() && msize >= 4 && inscnt < 0x7f && bufpos < buf.Length
      modifies this`bufpos, this`inscnt, this`data, this`msize, this`moff, this`cover, buf
      ensures Valid() && inscnt == 0 && bufpos + back <= old(bufpos) && cover <= old(cover)
      ensures data == old(data) - back && moff == old(moff) - back && msize == old(msize) + back && back <= old(inscnt)
      ensures moff <= |index.src| && data == |cover| <= |trg|
      ensures back < old(inscnt) ==> Parted(index.src, trg, moff, data)
    {
      RunInside();
      hide Valid, Parted;
      if inscnt == 0 { return 0; }
      back := ExtendBack();
      EndRun();
    }

    /** A match becomes a copy of at most 64 KB, from as far back in the open run as it
        agrees; the rest of it is kept. */
    method CopyStep() returns (ghost start: nat)
      requires Valid() && Between() && Roomy() && data < |trg| && msize >= 4
      modifies this`bufpos, this`inscnt, this`data, this`moff, this`msize, this`val, this`cover, buf
      ensures Valid() && Between() && Rolled() && data > old(data) && bufpos <= old(bufpos) + 7
      ensures Copied(index.src, trg, old(Standing()), Standing(), old(moff), old(msize), start)
    {
      hide Valid, Fingerprint, GrownSize, Copied;
      ghost var a := Standing();
      RoomHere();
      ghost var back := BackUp();
      start := data;
      ghost var kept := cover;
      var left := if msize < 0x1_0000 then 0 else msize - 0x1_0000;
      CopyOut(msize - left);
      CopiedIs(index.src, trg, a, Standing(), back, kept);
      if msize < 4096 {
        Rehash();
      }
    }

    lemma RoomHere()
      requires Roomy() && Between()
      ensures bufpos + 7 < buf.Length
    {
      hide GrownSize;
    }

    /** Fingerprints the window behind `data` from scratch. */
    method Rehash()
      requires RABIN_WINDOW <= data <= |trg| && Valid()
      modifies this`val
      ensures Valid()
      ensures val == Fingerprint(trg[data - RABIN_WINDOW..data])
    {
      hide Shift, Encoding, Matches, index.Valid, Sends;
      ghost var w := trg[data - RABIN_WINDOW..data];
      val := 0;
      for j := 0 to RABIN_WINDOW
        invariant val == Fingerprint(w[..j]) && Valid()
      {
        FingerprintSnoc(w, j);
        val := Shift(val, trg[data - RABIN_WINDOW + j]);
      }
      assert w[..RABIN_WINDOW] == w;
    }

    /** Rolls the fingerprint on over trg[data] and looks among the entries with the
        fingerprint of the window that ends there.  With an index as init makes it, what
        comes out is a longest match of all of them and the one at hand, or one of at
        least 4096 bytes. */
    method Search()
      requires Valid() && Thrifty() && RABIN_WINDOW <= data < |trg| && msize < 4096 && Rolled()
      modifies this`val, this`moff, this`msize
      ensures Valid() && Thrifty() && msize >= old(msize) && (index.used == 0 ==> msize == old(msize))
      ensures val == Fingerprint(trg[data + 1 - RABIN_WINDOW..data + 1])
      ensures Found(index.src, trg, index.Contents(), data, old(moff), old(msize), moff, msize)
    {
      hide Frugal, Shift, Drop, Emitted, Preamble, Encoding, NoLonger, Shape, Fingerprint, Taken, Ascending, Sends;
      RollsAt(trg, data);
      val := Drop(val, trg[data - RABIN_WINDOW]);
      val := Shift(val, trg[data]);
      ghost var moff0, msize0 := moff, msize;
      moff, msize := FindMatch(index, trg, data, val, moff, msize);
      ghost var t := index.Contents();
      if index.used == 0 { NothingTaken(index.src, trg, t, Bucket(t, BucketOf(val, |t.hash|)), data, val, moff0, msize0, moff, msize); }
    }

    /** Grows the buffer when another step might not fit.  `full` is the early exit
        for a delta that is already too long; `wrapped` reports that the new size
        wrapped around 32 bits and leaves no room. */
    method Grow(ghost before: nat) returns (full: bool, wrapped: bool)
      requires Valid() && Between() && Thrifty() && RoomAt(before, buf.Length, maxSize) && bufpos <= before + 7
      modifies this`buf
      ensures Valid() && Thrifty() && (buf == old(buf) || fresh(buf))
      ensures !full && !wrapped ==> Roomy()
      ensures full ==> 0 < maxSize < bufpos && maxSize <= WRAP_SIZE
      ensures wrapped ==> bufpos + MAX_OP_SIZE >= WRAP_SIZE && (maxSize == 0 || (maxSize > WRAP_SIZE && bufpos <= maxSize))
    {
      hide Frugal, Sends, Emitted, Encoding, Matches, GrownSize;
      full, wrapped := false, false;
      if bufpos + MAX_OP_SIZE >= buf.Length {
        var size := buf.Length * 3 % 0x1_0000_0000 / 2;
        if GrownSize(buf.Length) { NextGrown(buf.Length); }
        if maxSize > 0 && size >= maxSize {
          size := maxSize + MAX_OP_SIZE + 1;
        }
        if maxSize > 0 && bufpos > maxSize {
          return true, false;
        }
        if size < bufpos + MAX_OP_SIZE + 1 {
          return false, true;
        }
        ghost var d := buf[..bufpos];
        var grown := new byte[size];
        var was := buf;
        forall i | 0 <= i < size && i < was.Length { grown[i] := was[i]; }
        assert grown[..bufpos] == d;
        buf := grown;
      }
    }

    lemma Done()
      requires Valid() && data == |trg| && inscnt == 0
      ensures Apply(index.src, buf[..bufpos]) == Patched(trg)
    {
      EncodingDone(index.src, trg, buf[..bufpos]);
    }

    /** What follows the main loop: the open run is closed, and the size is looked at. */
    method Finish() returns (r: CreateResult, ghost d: seq<byte>)
      requires Valid() && Thrifty() && data <= |trg| && (data == |trg| || 0 < maxSize < bufpos)
      modifies this`inscnt, buf
      ensures Valid() && |d| == bufpos && Reached(index.src, trg, index.Contents(), d)
      ensures if 0 < maxSize < bufpos then r == OverMaxSize
              else r == Delta(d) && Apply(index.src, d) == Patched(trg) && WellSent(index.src, trg, index.Contents(), d)
    {
      hide Encoding, Matches, Apply, Sends, Frugal;
      if inscnt > 0 {
        CloseRun();
      }
      d := buf[..bufpos];
      ReachedHere(index.src, trg, index.Contents(), d, data, inscnt, cover);
      if maxSize > 0 && bufpos > maxSize {
        return OverMaxSize, d;
      }
      Done();
      SentAll(index.src, trg, index.Contents(), d, cover);
      r := Delta(buf[..bufpos]);
    }

    /** The second half of a round: four bytes or more are copied, and otherwise one byte
        is sent as it is. */
    method Send(ghost moff0: nat, ghost msize0: nat) returns (ghost start: nat)
      requires Valid() && Between() && Roomy() && data < |trg| && Thrifty()
      requires msize < 4 ==> Found(index.src, trg, index.Contents(), data, moff0, msize0, moff, msize) && val == Fingerprint(trg[data + 1 - RABIN_WINDOW..data + 1])
      modifies this`bufpos, this`inscnt, this`data, this`moff, this`msize, this`val, this`cover, buf
      ensures Valid() && Between() && Rolled() && data > old(data) && bufpos <= old(bufpos) + 7 && Thrifty()
      ensures index.used == 0 && old(Literally()) ==> Literally()
      ensures old(msize) < 4 ==> LiteralSent(old(Standing()), Standing())
      ensures old(msize) >= 4 ==> Copied(index.src, trg, old(Standing()), Standing(), old(moff), old(msize), start)
    {
      hide Emitted, Encoding, Matches, Sends, Preamble, LiteralSize, GrownSize, Fingerprint, Frugal, NoLonger, Taken, LiteralSent, Copied;
      ghost var a, t := Standing(), index.Contents();
      start := data;
      if msize < 4 {
        ShortFound(index.src, trg, t, data, moff0, msize0, moff, msize);
        LiteralStep();
        LiteralThrift(index.src, trg, t, a, Standing());
      } else {
        start := CopyStep();
        CopyThrift(index.src, trg, t, a, Standing(), a.moff, a.msize, start);
      }
    }

    /** One round of the main loop.  The match at hand, after a search unless it is 4096
        bytes or longer already, has m bytes at `at`.  With four or more of them they are
        copied, and otherwise exactly one byte is sent as it is. */
    method Step() returns (full: bool, wrapped: bool, ghost at: nat, ghost m: nat, ghost start: nat)
      requires Valid() && Between() && Roomy() && Rolled() && data < |trg| && Thrifty()
      modifies this`buf, this`bufpos, this`inscnt, this`data, this`moff, this`msize, this`val, this`cover, buf
      ensures Valid() && Between() && Rolled() && data > old(data) && (buf == old(buf) || fresh(buf))
      ensures !full && !wrapped ==> Roomy()
      ensures full ==> 0 < maxSize < bufpos && maxSize <= WRAP_SIZE
      ensures wrapped ==> bufpos + MAX_OP_SIZE >= WRAP_SIZE && (maxSize == 0 || (maxSize > WRAP_SIZE && bufpos <= maxSize))
      ensures index.used == 0 && old(Literally()) ==> Literally()
      ensures old(msize) >= 4096 ==> at == old(moff) && m == old(msize)
      ensures old(msize) < 4096 ==> Found(index.src, trg, index.Contents(), old(data), old(moff), old(msize), at, m)
      ensures m < 4 ==> LiteralSent(old(Standing()), Standing())
      ensures m >= 4 ==> Copied(index.src, trg, old(Standing()), Standing(), at, m, start)
      ensures Thrifty()
    {
      hide Valid, GrownSize, Fingerprint, Found, Thrifty, LiteralSent, Copied, LiteralSize;
      ghost var a, before := Standing(), bufpos;
      if msize < 4096 {
        Search();
      }
      at, m := moff, msize;
      start := Send(a.moff, a.msize);
      SameSent(index.src, trg, a, a.(moff := at, msize := m), Standing(), at, m, start);
      full, wrapped := Grow(before);
    }

    /** The main loop: up to the end of the target, unless the delta gets too long or the
        buffer size wraps around. */
    method Encode() returns (wrapped: bool)
      requires Valid() && Between() && Roomy() && Rolled() && Thrifty()
      modifies this`buf, this`bufpos, this`inscnt, this`data, this`moff, this`msize, this`val, this`cover, buf
      ensures Valid() && Between() && (buf == old(buf) || fresh(buf)) && Thrifty()
      ensures wrapped <==> Wraps(bufpos, maxSize)
      ensures data == |trg| || wrapped || 0 < maxSize < bufpos
      ensures wrapped ==> maxSize == 0 || bufpos <= maxSize
      ensures index.used == 0 && old(Literally()) ==> Literally()
    {
      hide Emitted, Encoding, Matches, Preamble, GrownSize, Fingerprint, LiteralSize, RoomAt, Frugal, Found, Thrifty, Sends, LiteralSent, Copied;
      wrapped := false;
      var full := false;
      while data < |trg| && !full
        invariant Valid() && Between() && Rolled() && (buf == old(buf) || fresh(buf)) && Thrifty()
        invariant if full then 0 < maxSize < bufpos && maxSize <= WRAP_SIZE else Roomy()
        invariant index.used == 0 && old(Literally()) ==> Literally()
        decreases |trg| - data, !full
      {
        ghost var at, m, start;
        full, wrapped, at, m, start := Step();
        if wrapped { return; }
      }
      if !full { RoomyFits(bufpos, buf.Length, maxSize); }
    }
  }

  /** What a search for trg[now..] makes of the match at hand: it or a longer one at an
      entry with the fingerprint of the window, and none of those is longer. */
  ghost predicate Found(src: seq<byte>, trg: seq<byte>, t: Table, now: nat, moff0: nat, msize0: nat, at: nat, m: nat)
    requires Shape(t)
  {
    RABIN_WINDOW <= now < |trg| &&
    var val := Fingerprint(trg[now + 1 - RABIN_WINDOW..now + 1]);
    var c := Bucket(t, BucketOf(val, |t.hash|));
    && Taken(src, trg, t, c, now, val, moff0, msize0, at, m)
    && (InOrder(t) ==> m >= 4096 || NoLonger(src, trg, t, c, now, val, m))
  }

  /** The sizes that the buffer grows through while three times its size fits 32 bits, and
      the next one, from which it is shrunk. */
  predicate GrownSize(len: nat) {
    len in {8192, 12288, 18432, 27648, 41472, 62208, 93312, 139968, 209952, 314928, 472392, 708588, 1062882, 1594323, 2391484,
            3587226, 5380839, 8071258, 12106887, 18160330, 27240495, 40860742, 61291113, 91936669, 137905003, 206857504,
            310286256, 465429384, 698144076, 1047216114, WRAP_SIZE}
  }

  const WRAP_SIZE: nat := 1570824171

  lemma NextGrown(len: nat)
    requires GrownSize(len)
    ensures 8192 <= len <= WRAP_SIZE
    ensures len < WRAP_SIZE ==> GrownSize(len * 3 % 0x1_0000_0000 / 2) && len * 3 % 0x1_0000_0000 / 2 >= len + 4096
    ensures len == WRAP_SIZE ==> len * 3 % 0x1_0000_0000 / 2 == 208752608
  {
  }

  /** Room in a buffer of `len` bytes for one more step behind `pos`, and where the
      size of the buffer comes from. */
  ghost predicate RoomAt(pos: nat, len: nat, maxSize: nat) {
    && (pos + MAX_OP_SIZE + 1 <= len || (pos <= 27 && MAX_OP_SIZE + 2 <= len))
    && ((GrownSize(len) && (maxSize == 0 || len < maxSize)) || (0 < maxSize <= WRAP_SIZE && len == maxSize + MAX_OP_SIZE + 1))
    && len <= UINT_MAX
  }

  /** The size of a delta that holds n bytes of the target as literals. */
  function LiteralSize(src: seq<byte>, trg: seq<byte>, n: nat): nat {
    |Preamble(src, trg)| + n + (n + 126) / 127
  }

  lemma CopyParts(src: seq<byte>, trg: seq<byte>, data: nat, moff: nat, msize: nat, size: nat)
    requires Matches(src, trg, data, moff, msize) && size <= msize
    ensures src[moff..moff + size] == trg[data..data + size]
    ensures Matches(src, trg, data + size, moff + size, msize - size)
  {
    assert src[moff..moff + size] == src[moff..moff + msize][..size];
    assert trg[data..data + size] == trg[data..data + msize][..size];
    assert src[moff + size..moff + msize] == src[moff..moff + msize][size..];
    assert trg[data + size..data + msize] == trg[data..data + msize][size..];
  }

  lemma OneLess(sent: seq<nat>, now: seq<nat>, n: nat)
    requires n <= |sent| && now + [0] == sent[..n]
    ensures n > 0 && now == sent[..n - 1]
  {
    assert now == (now + [0])[..|now|];
  }

  /** A search that comes out with less than four bytes finds no entry to match. */
  lemma ShortFound(src: seq<byte>, trg: seq<byte>, t: Table, now: nat, moff0: nat, msize0: nat, at: nat, m: nat)
    requires Shape(t) && m < 4 && Found(src, trg, t, now, moff0, msize0, at, m)
    ensures RABIN_WINDOW <= now < |trg| && (InOrder(t) ==> NoMatchAt(src, trg, t, now))
  {
    hide Fingerprint, InOrder, CommonLength, Bucket, BucketOf, Taken;
  }

  /** What is sent does not depend on the match that was at hand before the search. */
  lemma SameSent(src: seq<byte>, trg: seq<byte>, a: Place, a': Place, b: Place, at: nat, m: nat, start: nat)
    requires a' == a.(moff := at, msize := m)
    ensures LiteralSent(a', b) == LiteralSent(a, b) && Copied(src, trg, a', b, at, m, start) == Copied(src, trg, a, b, at, m, start)
  {
  }

  lemma LiteralThrift(src: seq<byte>, trg: seq<byte>, t: Table, a: Place, b: Place)
    requires Shape(t) && RABIN_WINDOW <= |a.cover| < |trg| && Frugal(src, trg, t, a.cover) && LiteralSent(a, b)
    requires InOrder(t) ==> NoMatchAt(src, trg, t, |a.cover|)
    ensures |b.cover| <= |trg| && Frugal(src, trg, t, b.cover)
  {
    hide NoMatchAt, InOrder;
  }

  lemma CopyThrift(src: seq<byte>, trg: seq<byte>, t: Table, a: Place, b: Place, at: nat, m: nat, start: nat)
    requires Shape(t) && |a.cover| <= |trg| && Frugal(src, trg, t, a.cover) && Copied(src, trg, a, b, at, m, start)
    requires m >= 4 && |b.cover| == b.data <= |trg|
    ensures Frugal(src, trg, t, b.cover)
  {
    hide Frugal, Parted;
    FrugalCopy(src, trg, t, a.cover, b.cover, start);
  }

  lemma CopiedIs(src: seq<byte>, trg: seq<byte>, a: Place, b: Place, back: nat, kept: seq<nat>)
    requires back <= a.run && back <= a.data && back <= a.moff && a.moff - back <= |src| && a.data - back == |kept| <= |trg|
    requires back < a.run ==> Parted(src, trg, a.moff - back, a.data - back)
    requires var m := a.msize + back;
             && b.data == a.data - back + (if m < 0x1_0000 then m else 0x1_0000)
             && b.data + b.msize == a.data + a.msize && b.moff + a.data == a.moff + b.data
    requires b.run == 0 && b.size <= a.size + 7 && kept <= a.cover && b.cover == kept + CopyCover(b.data - |kept|)
    ensures a.data >= back && Copied(src, trg, a, b, a.moff, a.msize, a.data - back)
  {
    CoverJoined(kept, CopyCover(b.data - |kept|), a.cover);
  }

  lemma CoverJoined(kept: seq<nat>, more: seq<nat>, before: seq<nat>)
    requires kept <= before
    ensures (kept + more)[..|kept|] <= before && (kept + more)[|kept|..] == more
  {
  }

  lemma ExtendMatch(src: seq<byte>, trg: seq<byte>, data: nat, moff: nat, msize: nat)
    requires Matches(src, trg, data, moff, msize) && moff > 0 && data > 0 && src[moff - 1] == trg[data - 1]
    ensures Matches(src, trg, data - 1, moff - 1, msize + 1)
  {
    assert src[moff - 1..moff + msize] == [src[moff - 1]] + src[moff..moff + msize];
    assert trg[data - 1..data + msize] == [trg[data - 1]] + trg[data..data + msize];
  }

  lemma RoomFirst(len: nat, maxSize: nat)
    requires RoomAt(0, len, maxSize)
    ensures len >= 36 && forall pos :: 0 <= pos <= 27 ==> RoomAt(pos, len, maxSize)
  {
    if GrownSize(len) { NextGrown(len); }
    hide GrownSize;
  }

  lemma FirstPlaces(src: seq<byte>, trg: seq<byte>, n: nat)
    requires n <= |trg|
    ensures trg[0..n] == trg[..n] && Matches(src, trg, n, 0, 0)
  {
    assert src[0..0] == trg[n..n];
  }

  lemma FirstSent(src: seq<byte>, trg: seq<byte>, t: Table, slot: byte, n: nat)
    requires Shape(t) && 0 < n <= |trg| && n <= RABIN_WINDOW
    ensures Sends(src, trg, Preamble(src, trg) + [slot] + trg[..n], n, Zeros(n)) && Frugal(src, trg, t, Zeros(n))
  {
    hide Preamble, NoMatchAt, InOrder;
    var pre := Preamble(src, trg);
    var d := pre + [slot] + trg[..n];
    assert d[..|d| - n - 1] == pre;
    assert Cover(src, pre, |pre|) == [] && [] + Zeros(n) == Zeros(n);
  }

  lemma FirstRun(src: seq<byte>, trg: seq<byte>, slot: byte, n: nat)
    requires 0 < n <= |trg| && n < 128
    ensures Encoding(src, trg, Preamble(src, trg) + [slot] + trg[..n], n, n)
  {
    hide Preamble;
    var pre := Preamble(src, trg);
    var d := pre + [slot] + trg[..n];
    assert d[..|d| - n - 1] == pre;
    assert d[|d| - n..] == trg[..n];
  }

  /** A delta as far as it was constructed, with no byte sent as it is that was to be
      matched. */
  ghost predicate Reached(src: seq<byte>, trg: seq<byte>, t: Table, d: seq<byte>)
    requires Shape(t)
  {
    exists data: nat, inscnt: nat, cover :: ReachedWith(src, trg, t, d, data, inscnt, cover)
  }

  ghost predicate ReachedWith(src: seq<byte>, trg: seq<byte>, t: Table, d: seq<byte>, data: nat, inscnt: nat, cover: seq<nat>)
    requires Shape(t)
  {
    && data == |cover| <= |trg| && Encoding(src, trg, d, data, inscnt) && Sends(src, trg, d, inscnt, cover)
    && Frugal(src, trg, t, cover)
  }

  lemma ReachedHere(src: seq<byte>, trg: seq<byte>, t: Table, d: seq<byte>, data: nat, inscnt: nat, cover: seq<nat>)
    requires Shape(t) && data == |cover| <= |trg| && Encoding(src, trg, d, data, inscnt) && Sends(src, trg, d, inscnt, cover)
    requires Frugal(src, trg, t, cover)
    ensures Reached(src, trg, t, d)
  {
    hide Encoding, Sends, Frugal;
    assert ReachedWith(src, trg, t, d, data, inscnt, cover);
  }

  lemma SentAll(src: seq<byte>, trg: seq<byte>, t: Table, d: seq<byte>, cover: seq<nat>)
    requires Shape(t) && |cover| == |trg| && Sends(src, trg, d, 0, cover) && Frugal(src, trg, t, cover)
    ensures WellSent(src, trg, t, d)
  {
    hide Frugal, Cover, Preamble;
  }

  /** What a whole delta says of its bytes: copies have four to 64 K of them, and where one
      is inserted, no entry of the index could have been copied four bytes long. */
  ghost predicate WellSent(src: seq<byte>, trg: seq<byte>, t: Table, d: seq<byte>)
    requires Shape(t)
  {
    var h := |Preamble(src, trg)|;
    h <= |d| && |Cover(src, d, h)| == |trg| && Frugal(src, trg, t, Cover(src, d, h))
  }

  /** A buffer that has grown through the sizes of GrownSize would wrap at this size. */
  predicate Wraps(size: nat, maxSize: nat) {
    size + MAX_OP_SIZE >= WRAP_SIZE && (maxSize == 0 || maxSize > WRAP_SIZE)
  }

  /** git_delta_create_from_index.  Whatever the index chains together, a delta that
      is returned turns the source into the target and respects `maxSize`.  The outcome
      is told by the size that the delta `d` has reached: creation gives up exactly when
      that is above `maxSize`, or makes the 32-bit buffer size wrap around.  The first
      takes a `maxSize` below twice the size of the target and the second a target of
      three quarters of a gigabyte; without any entry in the index it takes exactly a
      target that does not fit the largest buffer as literals. */
  method GitDeltaCreateFromIndex(index: DeltaIndex, trg: seq<byte>, maxSize: nat) returns (r: CreateResult, ghost d: seq<byte>)
    requires index.Valid()
    ensures r.NoDelta? <==> trg == []
    ensures r.TooLarge? <==> trg != [] && (|index.src| > UINT_MAX || |trg| > UINT_MAX || maxSize > UINT_MAX - MAX_OP_SIZE - 1)
    ensures r.Delta? ==> Apply(index.src, r.bytes) == Patched(trg) && r.bytes == d && WellSent(index.src, trg, index.Contents(), d)
    ensures !r.NoDelta? && !r.TooLarge? ==>
              && Reached(index.src, trg, index.Contents(), d)
              && (r.SizeWrapped? <==> Wraps(|d|, maxSize))
              && (r.OverMaxSize? <==> 0 < maxSize < |d|)
    ensures r.Delta? ==> |r.bytes| <= 2 * |trg| + 11
    ensures r.OverMaxSize? ==> maxSize < 2 * |trg| + 11
    ensures r.SizeWrapped? ==> 2 * |trg| + 11 + MAX_OP_SIZE >= WRAP_SIZE
    ensures index.used == 0 && maxSize == 0 && trg != [] && !r.TooLarge? ==>
              (r.SizeWrapped? <==> LiteralSize(index.src, trg, |trg|) + MAX_OP_SIZE >= WRAP_SIZE)
  {
    d := [];
    if trg == [] {
      return NoDelta, [];
    }
    if |index.src| > UINT_MAX || |trg| > UINT_MAX || maxSize > UINT_MAX - MAX_OP_SIZE - 1 {
      return TooLarge, [];
    }
    hide Emitted, Encoding, Matches, Apply, Preamble, GrownSize, Fingerprint, Reached, RoomAt, LiteralSize, Sends, Frugal, WellSent, Found;
    var e := new Encoder(index, trg, maxSize);
    e.Start();
    var wrapped := e.Encode();
    if wrapped {
      LiteralSizeGrows(index.src, trg, e.data, |trg|);
      ReachedHere(index.src, trg, index.Contents(), e.buf[..e.bufpos], e.data, e.inscnt, e.cover);
      return SizeWrapped, e.buf[..e.bufpos];
    }
    r, d := e.Finish();
  }

  lemma RollsAt(trg: seq<byte>, data: nat)
    requires RABIN_WINDOW <= data < |trg|
    ensures Shift(Drop(Fingerprint(trg[data - RABIN_WINDOW..data]), trg[data - RABIN_WINDOW]), trg[data])
            == Fingerprint(trg[data + 1 - RABIN_WINDOW..data + 1])
  {
    hide Shift, Drop, Fingerprint;
    var w := trg[data - RABIN_WINDOW..data];
    Rolls(w, trg[data]);
    assert w[1..] + [trg[data]] == trg[data + 1 - RABIN_WINDOW..data + 1];
  }

  lemma FirstSize(src: seq<byte>, trg: seq<byte>, n: nat)
    requires 0 < n < 127
    ensures LiteralSize(src, trg, n) == |Preamble(src, trg)| + n + 1 && n % 127 == n
  {
    hide Preamble;
  }

  lemma RunRoom(base: seq<byte>, d: seq<byte>, h: nat, trg: seq<byte>, data: nat, inscnt: nat)
    requires Emitted(base, d, h, trg, data, inscnt) && inscnt > 0
    ensures inscnt <= data && h + inscnt + 1 <= |d|
  {
  }

  lemma LiteralNext(src: seq<byte>, trg: seq<byte>, n: nat)
    ensures LiteralSize(src, trg, n + 1) == LiteralSize(src, trg, n) + if n % 127 == 0 then 2 else 1
    ensures (n + 1) % 127 == if n % 127 == 126 then 0 else n % 127 + 1
  {
    hide Preamble;
  }

  lemma LiteralSizeGrows(src: seq<byte>, trg: seq<byte>, m: nat, n: nat)
    requires m <= n
    ensures LiteralSize(src, trg, m) <= LiteralSize(src, trg, n)
  {
  }

  lemma RoomyFits(size: nat, len: nat, maxSize: nat)
    requires RoomAt(size, len, maxSize)
    ensures !Wraps(size, maxSize)
  {
    if GrownSize(len) { NextGrown(len); }
    hide GrownSize;
  }

  /** Index, create and apply put together: what comes out is the target, unless the buffer
      size wraps around.  It does so for no target below three quarters of a gigabyte, and
      with a source of at most 16 bytes exactly for those that do not fit as literals. */
  method RoundTrip(base: seq<byte>, trg: seq<byte>) returns (r: CreateResult, back: Option<ApplyResult>, ghost d: seq<byte>, ghost t: Table, ghost full: seq<seq<int>>)
    requires 0 < |base| <= UINT_MAX && 0 < |trg| <= UINT_MAX
    ensures Shape(t) && InOrder(t) && |full| == |t.hash| && FullCover(base, t, full)
    ensures forall b :: 0 <= b < |full| ==> Bucket(t, b) == Limited(full[b])
    ensures r == (if Wraps(|d|, 0) then SizeWrapped else Delta(d)) && Reached(base, trg, t, d)
    ensures r.Delta? ==> WellSent(base, trg, t, d)
    ensures back == if r.Delta? then Some(Patched(trg)) else None
    ensures 2 * |trg| + 11 + MAX_OP_SIZE < WRAP_SIZE ==> r.Delta?
    ensures |base| <= RABIN_WINDOW ==> (r.Delta? <==> LiteralSize(base, trg, |trg|) + MAX_OP_SIZE < WRAP_SIZE)
  {
    var index;
    index, full := GitDeltaIndexInit(base);
    hide Reached, WellSent, FullCover, FullBucket, Limited, BucketsFor;
    t := index.Contents();
    r, d := GitDeltaCreateFromIndex(index, trg, 0);
    back := None;
    if r.Delta? {
      var applied := GitDeltaApply(base, r.bytes);
      back := Some(applied);
    }
  }
}
