/** What the encoder of delta.c puts into its buffer, as sequences: copy
    operations, literal runs, and how appending or un-emitting changes what the
    operations so far decode to. */
module DeltaEmit {
  import opened Common
  import opened DeltaFormat

  // ------------------------------------------------------------ copy operation

  /** A byte that is written only when it is not zero. */
  function Piece(b: byte): seq<byte> { if b == 0 then [] else [b] }

  function Flag(b: byte): nat { if b == 0 then 0 else 1 }

  /** Byte k of a little-endian number. */
  function ByteOf(n: nat, k: nat): byte
    requires k < |WEIGHT|
  {
    n / WEIGHT[k] % 256
  }

  /** The operation byte of a copy of `msize` bytes from `moff`. */
  function CopyCommand(moff: nat, msize: nat): byte {
    128 + Flag(ByteOf(moff, 0)) + 2 * Flag(ByteOf(moff, 1)) + 4 * Flag(ByteOf(moff, 2)) + 8 * Flag(ByteOf(moff, 3))
    + 16 * Flag(ByteOf(msize, 0)) + 32 * Flag(ByteOf(msize, 1))
  }

  /** The whole copy operation as create emits it. */
  function CopyOp(moff: nat, msize: nat): (s: seq<byte>)
    ensures 1 <= |s| <= 7
  {
    [CopyCommand(moff, msize)]
    + Piece(ByteOf(moff, 0)) + Piece(ByteOf(moff, 1)) + Piece(ByteOf(moff, 2)) + Piece(ByteOf(moff, 3))
    + Piece(ByteOf(msize, 0)) + Piece(ByteOf(msize, 1))
  }

  lemma CommandBits(moff: nat, msize: nat)
    ensures var cmd := CopyCommand(moff, msize);
            && BitSet(cmd, 0) == (ByteOf(moff, 0) != 0) && BitSet(cmd, 1) == (ByteOf(moff, 1) != 0)
            && BitSet(cmd, 2) == (ByteOf(moff, 2) != 0) && BitSet(cmd, 3) == (ByteOf(moff, 3) != 0)
            && BitSet(cmd, 4) == (ByteOf(msize, 0) != 0) && BitSet(cmd, 5) == (ByteOf(msize, 1) != 0)
            && !BitSet(cmd, 6)
  {
    hide ByteOf;
  }

  /** Reading an optional argument byte gives back what Piece wrote. */
  lemma ReadPiece(d: seq<byte>, cmd: byte, k: nat, a: Args, b: byte, rest: seq<byte>) returns (r: Args)
    requires k < 6 && a.ok && a.pos <= |d|
    requires BitSet(cmd, k) == (b != 0)
    requires Piece(b) + rest <= d[a.pos..]
    ensures r == AddDelta(d, cmd, k, a)
    ensures r == if k < 4 then Args(true, a.pos + |Piece(b)|, a.off + b * WEIGHT[k], a.len)
                 else Args(true, a.pos + |Piece(b)|, a.off, a.len + b * WEIGHT[k - 4])
    ensures rest <= d[r.pos..]
  {
    r := AddDelta(d, cmd, k, a);
    assert d[r.pos..] == d[a.pos..][|Piece(b)|..];
  }

  lemma ByteSum(n: nat)
    requires n <= UINT_MAX
    ensures ByteOf(n, 0) + ByteOf(n, 1) * 0x100 + ByteOf(n, 2) * 0x1_0000 + ByteOf(n, 3) * 0x100_0000 == n
  {
    assert WEIGHT == [1, 0x100, 0x1_0000, 0x100_0000];
    ByteAbove(n, 1);
    ByteAbove(n, 0x100);
    ByteAbove(n, 0x1_0000);
  }

  /** A number is its lowest byte and what is above it, from any byte on. */
  lemma ByteAbove(n: nat, weight: nat)
    requires weight == 1 || weight == 0x100 || weight == 0x1_0000
    ensures n / weight == n / weight % 256 + n / (weight * 256) * 256
  {
    if weight == 1 {
    } else if weight == 0x100 {
      assert n / 0x1_0000 == n / 0x100 / 256;
    } else {
      assert n / 0x100_0000 == n / 0x1_0000 / 256;
    }
  }

  lemma SizeSum(n: nat)
    requires 1 <= n <= 0x1_0000
    ensures CopyLength(ByteOf(n, 0) + ByteOf(n, 1) * 0x100) == n
  {
  }

  lemma NestPieces(h: seq<byte>, a: seq<byte>, b: seq<byte>, c: seq<byte>, d: seq<byte>, e: seq<byte>, f: seq<byte>)
    ensures h + a + b + c + d + e + f == h + (a + (b + (c + (d + (e + f)))))
  {
    assert h + a + b + c + d + e + f == h + a + b + c + d + (e + f);
    assert h + a + b + c + d + (e + f) == h + a + b + c + (d + (e + f));
    assert h + a + b + c + (d + (e + f)) == h + a + b + (c + (d + (e + f)));
    assert h + a + b + (c + (d + (e + f))) == h + a + (b + (c + (d + (e + f))));
  }

  lemma ReadOffsetOfCopy(d: seq<byte>, a: Args, moff: nat, msize: nat, rest: seq<byte>) returns (r: Args)
    requires moff <= UINT_MAX && a.ok && a.off == 0 && a.pos <= |d|
    requires Piece(ByteOf(moff, 0)) + (Piece(ByteOf(moff, 1)) + (Piece(ByteOf(moff, 2)) + (Piece(ByteOf(moff, 3)) + rest))) <= d[a.pos..]
    ensures r == ReadOffset(d, CopyCommand(moff, msize), a)
    ensures r.ok && r.off == moff && r.len == a.len && rest <= d[r.pos..]
    ensures r.pos == a.pos + |Piece(ByteOf(moff, 0))| + |Piece(ByteOf(moff, 1))| + |Piece(ByteOf(moff, 2))| + |Piece(ByteOf(moff, 3))|
  {
    hide ByteOf, CopyCommand, BitSet, AddDelta, Piece;
    var cmd := CopyCommand(moff, msize);
    var b0, b1, b2, b3 := ByteOf(moff, 0), ByteOf(moff, 1), ByteOf(moff, 2), ByteOf(moff, 3);
    CommandBits(moff, msize);
    var t3 := Piece(b3) + rest;
    var t2 := Piece(b2) + t3;
    r := ReadPiece(d, cmd, 0, a, b0, Piece(b1) + t2);
    r := ReadPiece(d, cmd, 1, r, b1, t2);
    r := ReadPiece(d, cmd, 2, r, b2, t3);
    r := ReadPiece(d, cmd, 3, r, b3, rest);
    ByteSum(moff);
  }

  lemma ReadLengthOfCopy(d: seq<byte>, a: Args, moff: nat, msize: nat) returns (r: Args)
    requires 1 <= msize <= 0x1_0000 && a.ok && a.len == 0 && a.pos <= |d|
    requires Piece(ByteOf(msize, 0)) + Piece(ByteOf(msize, 1)) <= d[a.pos..]
    ensures r == ReadLength(d, CopyCommand(moff, msize), a)
    ensures r.ok && r.off == a.off && CopyLength(r.len) == msize
    ensures r.pos == a.pos + |Piece(ByteOf(msize, 0))| + |Piece(ByteOf(msize, 1))|
  {
    hide ByteOf, CopyCommand, BitSet, AddDelta, Piece, CopyLength;
    var cmd := CopyCommand(moff, msize);
    var b4, b5 := ByteOf(msize, 0), ByteOf(msize, 1);
    CommandBits(moff, msize);
    r := ReadPiece(d, cmd, 4, a, b4, Piece(b5));
    assert Piece(b5) == Piece(b5) + [];
    r := ReadPiece(d, cmd, 5, r, b5, []);
    SkipUnset(d, cmd, 6, r);
    SizeSum(msize);
  }

  lemma ReadArgsOfCopy(d: seq<byte>, pos: nat, moff: nat, msize: nat)
    requires moff <= UINT_MAX && 1 <= msize <= 0x1_0000
    requires pos <= |d| && CopyOp(moff, msize) <= d[pos..]
    ensures var a := ReadArgs(d, CopyCommand(moff, msize), pos + 1);
            a.ok && a.pos == pos + |CopyOp(moff, msize)| && a.off == moff && CopyLength(a.len) == msize
  {
    hide ByteOf, CopyCommand, BitSet, AddDelta, Piece, CopyLength, ReadOffset, ReadLength;
    var b0, b1, b2, b3 := ByteOf(moff, 0), ByteOf(moff, 1), ByteOf(moff, 2), ByteOf(moff, 3);
    var b4, b5 := ByteOf(msize, 0), ByteOf(msize, 1);
    NestPieces([CopyCommand(moff, msize)], Piece(b0), Piece(b1), Piece(b2), Piece(b3), Piece(b4), Piece(b5));
    var rest := Piece(b4) + Piece(b5);
    var a := ReadOffsetOfCopy(d, Args(true, pos + 1, 0, 0), moff, msize, rest);
    a := ReadLengthOfCopy(d, a, moff, msize);
  }

  lemma SkipUnset(d: seq<byte>, cmd: byte, k: nat, a: Args)
    requires k < |BIT| && a.pos <= |d| && !BitSet(cmd, k)
    ensures AddDelta(d, cmd, k, a) == a
  {
  }

  /** A copy operation decodes to the bytes it was made for. */
  lemma CopyDecodes(base: seq<byte>, d: seq<byte>, pos: nat, moff: nat, msize: nat)
    requires moff + msize <= |base| <= UINT_MAX && 1 <= msize <= 0x1_0000
    requires pos <= |d| && CopyOp(moff, msize) <= d[pos..]
    ensures pos < |d|
    ensures DecodeOp(base, d, pos) == Op(base[moff..moff + msize], |CopyOp(moff, msize)|)
  {
    hide ReadArgs, ByteOf;
    ReadArgsOfCopy(d, pos, moff, msize);
    assert d[pos] == CopyCommand(moff, msize);
  }

  // ------------------------------------------------- appending to the operations

  lemma AddDeltaAppend(a: seq<byte>, b: seq<byte>, cmd: byte, k: nat, x: Args)
    requires k < |BIT| && x.pos <= |a| && AddDelta(a, cmd, k, x).ok
    ensures AddDelta(a + b, cmd, k, x) == AddDelta(a, cmd, k, x)
  {
    hide BitSet;
  }

  lemma ReadArgsAppend(a: seq<byte>, b: seq<byte>, cmd: byte, pos: nat)
    requires pos <= |a| && ReadArgs(a, cmd, pos).ok
    ensures ReadArgs(a + b, cmd, pos) == ReadArgs(a, cmd, pos)
  {
    hide AddDelta;
    var x := Args(true, pos, 0, 0);
    AddDeltaAppend(a, b, cmd, 0, x); x := AddDelta(a, cmd, 0, x);
    AddDeltaAppend(a, b, cmd, 1, x); x := AddDelta(a, cmd, 1, x);
    AddDeltaAppend(a, b, cmd, 2, x); x := AddDelta(a, cmd, 2, x);
    AddDeltaAppend(a, b, cmd, 3, x); x := AddDelta(a, cmd, 3, x);
    AddDeltaAppend(a, b, cmd, 4, x); x := AddDelta(a, cmd, 4, x);
    AddDeltaAppend(a, b, cmd, 5, x); x := AddDelta(a, cmd, 5, x);
    AddDeltaAppend(a, b, cmd, 6, x);
  }

  lemma DecodeOpAppend(base: seq<byte>, a: seq<byte>, b: seq<byte>, pos: nat)
    requires pos < |a| && DecodeOp(base, a, pos).Op?
    ensures DecodeOp(base, a + b, pos) == DecodeOp(base, a, pos)
  {
    hide ReadArgs, CopyLength;
    if a[pos] >= 128 {
      ReadArgsAppend(a, b, a[pos], pos + 1);
    }
  }

  /** Operations behind a well-formed delta only add to what it writes. */
  lemma {:induction false} ExecAppend(base: seq<byte>, a: seq<byte>, b: seq<byte>, pos: nat)
    requires pos <= |a| && Exec(base, a, pos).Some?
    ensures Exec(base, a + b, pos) == Joined(Exec(base, a, pos).value, Exec(base, a + b, |a|))
    decreases |a| - pos
  {
    hide DecodeOp;
    if pos == |a| {
      JoinNothing(Exec(base, a + b, |a|));
    } else {
      DecodeOpAppend(base, a, b, pos);
      var op := DecodeOp(base, a, pos);
      ExecAppend(base, a, b, pos + op.used);
      JoinAssociates(op.out, Exec(base, a, pos + op.used).value, Exec(base, a + b, |a|));
    }
  }

  lemma JoinNothing(rest: Option<seq<byte>>)
    ensures Joined([], rest) == rest
  {
    if rest.Some? { assert [] + rest.value == rest.value; }
  }

  lemma JoinAssociates(x: seq<byte>, y: seq<byte>, rest: Option<seq<byte>>)
    ensures Joined(x, Joined(y, rest)) == Joined(x + y, rest)
  {
    if rest.Some? { assert x + (y + rest.value) == x + y + rest.value; }
  }

  /** Appending one well-formed operation appends what that operation writes. */
  lemma ExecSnoc(base: seq<byte>, a: seq<byte>, op: seq<byte>, pos: nat, out: seq<byte>)
    requires pos <= |a| && Exec(base, a, pos).Some? && op != []
    requires DecodeOp(base, a + op, |a|) == Op(out, |op|)
    ensures Exec(base, a + op, pos) == Some(Exec(base, a, pos).value + out)
  {
    hide DecodeOp;
    ExecAppend(base, a, op, pos);
    assert Exec(base, a + op, |a + op|) == Some([]);
    assert out + [] == out;
  }

  // --------------------------------------------------- state of the encoder

  /** `d` holds, from `h` on, operations that write trg[..data].  When `inscnt`
      is positive the last operation is an open literal run: its count slot is
      still unset and its `inscnt` bytes are the last ones of trg[..data]. */
  ghost predicate Emitted(base: seq<byte>, d: seq<byte>, h: nat, trg: seq<byte>, data: nat, inscnt: nat) {
    && data <= |trg| && inscnt <= data && inscnt < 128
    && if inscnt == 0 then h <= |d| && Exec(base, d, h) == Some(trg[..data])
       else
         && h + inscnt + 1 <= |d|
         && Exec(base, d[..|d| - inscnt - 1], h) == Some(trg[..data - inscnt])
         && d[|d| - inscnt..] == trg[data - inscnt..data]
  }

  lemma InsertDecodes(base: seq<byte>, a: seq<byte>, lits: seq<byte>)
    requires 0 < |lits| < 128
    ensures DecodeOp(base, a + ([|lits|] + lits), |a|) == Op(lits, 1 + |lits|)
  {
    hide ReadArgs;
    var d := a + ([|lits|] + lits);
    assert d[|a| + 1..|a| + 1 + |lits|] == lits;
  }

  /** Filling in the count slot closes the run. */
  lemma CloseRun(base: seq<byte>, d: seq<byte>, h: nat, trg: seq<byte>, data: nat, inscnt: nat)
    requires Emitted(base, d, h, trg, data, inscnt) && 0 < inscnt
    ensures Emitted(base, d[|d| - inscnt - 1 := inscnt], h, trg, data, 0)
  {
    hide DecodeOp, Exec;
    var a := d[..|d| - inscnt - 1];
    var lits := trg[data - inscnt..data];
    var op := [inscnt] + lits;
    assert d[|d| - inscnt - 1 := inscnt] == a + op;
    InsertDecodes(base, a, lits);
    ExecSnoc(base, a, op, h, lits);
    assert trg[..data - inscnt] + lits == trg[..data];
  }

  /** A literal starts a run, with a slot in front whatever it holds ... */
  lemma OpenRun(base: seq<byte>, d: seq<byte>, h: nat, trg: seq<byte>, data: nat, slot: byte)
    requires Emitted(base, d, h, trg, data, 0) && data < |trg|
    ensures Emitted(base, d + [slot, trg[data]], h, trg, data + 1, 1)
  {
    assert (d + [slot, trg[data]])[..|d|] == d;
  }

  /** ... or extends the open one. */
  lemma ExtendRun(base: seq<byte>, d: seq<byte>, h: nat, trg: seq<byte>, data: nat, inscnt: nat)
    requires Emitted(base, d, h, trg, data, inscnt) && data < |trg| && 0 < inscnt < 127
    ensures Emitted(base, d + [trg[data]], h, trg, data + 1, inscnt + 1)
  {
    hide Exec;
    var d' := d + [trg[data]];
    assert d'[..|d'| - (inscnt + 1) - 1] == d[..|d| - inscnt - 1];
    assert d'[|d'| - (inscnt + 1)..] == d[|d| - inscnt..] + [trg[data]];
    assert trg[data - inscnt..data + 1] == trg[data - inscnt..data] + [trg[data]];
  }

  /** Taking back the last literal of a run; the last one takes its slot along. */
  lemma Unemit(base: seq<byte>, d: seq<byte>, h: nat, trg: seq<byte>, data: nat, inscnt: nat)
    requires Emitted(base, d, h, trg, data, inscnt) && 0 < inscnt
    ensures Emitted(base, if inscnt == 1 then d[..|d| - 2] else d[..|d| - 1], h, trg, data - 1, inscnt - 1)
  {
    hide Exec;
    if inscnt > 1 {
      var d' := d[..|d| - 1];
      assert d'[..|d'| - (inscnt - 1) - 1] == d[..|d| - inscnt - 1];
      assert d'[|d'| - (inscnt - 1)..] == d[|d| - inscnt..][..inscnt - 1];
      assert trg[data - inscnt..data][..inscnt - 1] == trg[data - inscnt..data - 1];
    }
  }

  /** A copy of bytes that agree moves on by that many bytes. */
  lemma AppendCopy(base: seq<byte>, d: seq<byte>, h: nat, trg: seq<byte>, data: nat, moff: nat, msize: nat)
    requires Emitted(base, d, h, trg, data, 0)
    requires moff + msize <= |base| <= UINT_MAX && 1 <= msize <= 0x1_0000 && data + msize <= |trg|
    requires base[moff..moff + msize] == trg[data..data + msize]
    ensures Emitted(base, d + CopyOp(moff, msize), h, trg, data + msize, 0)
  {
    hide CopyOp, DecodeOp;
    CopyDecodes(base, d + CopyOp(moff, msize), |d|, moff, msize);
    ExecSnoc(base, d, CopyOp(moff, msize), h, base[moff..moff + msize]);
    assert trg[..data] + trg[data..data + msize] == trg[..data + msize];
  }
}
