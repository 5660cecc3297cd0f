/** The bytes of the delta format, written out: what a size header and a command say. */
module DeltaExact {
  import opened Common
  import opened DeltaFormat

  /** The low seven bits of byte i from pos on, if there are that many before the end. */
  function Low(d: seq<byte>, pos: nat, i: nat): nat { if pos + i < |d| then d[pos + i] % 128 else 0 }

  /** The bytes with the high bit set from pos on, of which only five are looked at. */
  function Continued(d: seq<byte>, pos: nat, k: nat := 0): (n: nat)
    requires pos <= |d| && k <= 5
    ensures n <= 5 - k && pos + n <= |d| && forall i :: pos <= i < pos + n ==> d[i] >= 128
    ensures k + n < 5 && pos + n < |d| ==> d[pos + n] < 128
    decreases 5 - k
  {
    if k == 5 || pos == |d| || d[pos] < 128 then 0 else 1 + Continued(d, pos + 1, k + 1)
  }

  /** The value of part i, which is taken in 32 bits. */
  function Part(d: seq<byte>, pos: nat, i: nat): nat
    requires i < 5
  {
    match i
    case 0 => Low(d, pos, 0) case 1 => Low(d, pos, 1) * 128 case 2 => Low(d, pos, 2) * 16384
    case 3 => Low(d, pos, 3) * 2097152 case _ => Low(d, pos, 4) * 268435456 % 4294967296
  }

  lemma {:induction false} SizeFrom(d: seq<byte>, pos: nat, k: nat)
    requires pos + k <= |d| && k <= 5
    ensures ReadSize(d, pos + k, k) == SizeOf(d, pos, k)
    decreases 5 - k
  {
    if pos + k < |d| && k < 5 {
      assert PLACE[k] == [1, 128, 16384, 2097152, 268435456][k];
      assert Part(d, pos, k) == d[pos + k] % 128 * PLACE[k] % 4294967296;
      SizeFrom(d, pos, k + 1);
    }
  }

  /** A header from part k on. */
  function SizeOf(d: seq<byte>, pos: nat, k: nat): SizeHeader
    requires pos + k <= |d| && k <= 5
    decreases 5 - k
  {
    if pos + k == |d| then Truncated
    else if k == 5 then ShiftUndefined
    else if d[pos + k] < 128 then Header(Part(d, pos, k), pos + k + 1)
    else
      match SizeOf(d, pos, k + 1)
      case Header(rest, next) => Header(Part(d, pos, k) + rest, next)
      case e => e
  }

  /** The parts from k up to n. */
  function Sum(d: seq<byte>, pos: nat, k: nat, n: nat): nat
    requires k <= n < 5
    decreases n - k
  {
    Part(d, pos, k) + if k < n then Sum(d, pos, k + 1, n) else 0
  }

  lemma {:induction false} SizeParts(d: seq<byte>, pos: nat, k: nat)
    requires pos + k <= |d| && k <= 5
    ensures var n := k + Continued(d, pos + k, k);
            SizeOf(d, pos, k) == if pos + n == |d| then Truncated else if n == 5 then ShiftUndefined else Header(Sum(d, pos, k, n), pos + n + 1)
    decreases 5 - k
  {
    hide Part, Continued, Sum;
    ContinuedStep(d, pos + k, k);
    if k < 5 && pos + k < |d| {
      if d[pos + k] >= 128 { SizeParts(d, pos, k + 1); }
      var n := k + Continued(d, pos + k, k);
      if n < 5 { SumStep(d, pos, k, n); }
    }
  }

  lemma ContinuedStep(d: seq<byte>, pos: nat, k: nat)
    requires pos <= |d| && k <= 5
    ensures Continued(d, pos, k) == if k == 5 || pos == |d| || d[pos] < 128 then 0 else 1 + Continued(d, pos + 1, k + 1)
  {
  }

  lemma SumStep(d: seq<byte>, pos: nat, k: nat, n: nat)
    requires k <= n < 5
    ensures Sum(d, pos, k, n) == Part(d, pos, k) + if k < n then Sum(d, pos, k + 1, n) else 0
  {
    hide Part;
  }

  /** A size header: seven bits a byte, the lowest first, up to the first byte without the high
      bit; it is cut off at the end of the delta, and has at most five bytes. */
  lemma SizeExact(d: seq<byte>, pos: nat)
    requires pos <= |d|
    ensures var n := Continued(d, pos);
            if pos + n == |d| then ReadSize(d, pos) == Truncated
            else if n == 5 then ReadSize(d, pos) == ShiftUndefined
            else ReadSize(d, pos) == Header(Part(d, pos, 0) + (if n > 0 then Part(d, pos, 1) else 0) + (if n > 1 then Part(d, pos, 2) else 0)
                                            + (if n > 2 then Part(d, pos, 3) else 0) + (if n > 3 then Part(d, pos, 4) else 0), pos + n + 1)
  {
    hide Part, ReadSize, SizeOf;
    SizeFrom(d, pos, 0);
    SizeParts(d, pos, 0);
    var n := Continued(d, pos);
    if n < 5 { SumIs(d, pos, n); }
  }

  lemma SumIs(d: seq<byte>, pos: nat, n: nat)
    requires n < 5
    ensures Sum(d, pos, 0, n) == Part(d, pos, 0) + (if n > 0 then Part(d, pos, 1) else 0) + (if n > 1 then Part(d, pos, 2) else 0)
                                 + (if n > 2 then Part(d, pos, 3) else 0) + (if n > 3 then Part(d, pos, 4) else 0)
  {
    hide Part;
    if n > 0 { assert Sum(d, pos, 0, n) == Part(d, pos, 0) + Sum(d, pos, 1, n); }
    if n > 1 { assert Sum(d, pos, 1, n) == Part(d, pos, 1) + Sum(d, pos, 2, n); }
    if n > 2 { assert Sum(d, pos, 2, n) == Part(d, pos, 2) + Sum(d, pos, 3, n); }
    if n > 3 { assert Sum(d, pos, 3, n) == Part(d, pos, 3) + Sum(d, pos, 4, n); }
  }

  // --------------------------------------------------------------------------- commands

  /** How many of the lowest k bits of a command are set: the place of argument k. */
  function Rank(cmd: byte, k: nat): (n: nat)
    requires k <= 7
    ensures n <= k
  {
    if k == 0 then 0
    else Rank(cmd, k - 1) + cmd / [1, 2, 4, 8, 16, 32, 64][k - 1] % 2
  }

  /** Argument k of the copy command at pos, zero if its bit is not set. */
  function Argument(d: seq<byte>, pos: nat, k: nat): nat
    requires pos < |d| && k < 7
  {
    if d[pos] / [1, 2, 4, 8, 16, 32, 64][k] % 2 == 1 && pos + 1 + Rank(d[pos], k) < |d| then d[pos + 1 + Rank(d[pos], k)] else 0
  }

  /** The arguments before k are read, unless they do not all fit. */
  ghost predicate ReadUpTo(d: seq<byte>, pos: nat, k: nat, a: Args)
    requires pos < |d| && k <= 7
  {
    && a.pos <= |d| && (a.ok <==> pos + 1 + Rank(d[pos], k) <= |d|)
    && (a.ok ==> && a.pos == pos + 1 + Rank(d[pos], k)
                 && a.off == (if k > 0 then Argument(d, pos, 0) else 0) + (if k > 1 then Argument(d, pos, 1) * 256 else 0)
                             + (if k > 2 then Argument(d, pos, 2) * 65536 else 0) + (if k > 3 then Argument(d, pos, 3) * 16777216 else 0)
                 && a.len == (if k > 4 then Argument(d, pos, 4) else 0) + (if k > 5 then Argument(d, pos, 5) * 256 else 0)
                             + (if k > 6 then Argument(d, pos, 6) * 65536 else 0))
  }

  lemma OneRead(d: seq<byte>, pos: nat, k: nat, a: Args)
    requires pos < |d| && k < 7 && ReadUpTo(d, pos, k, a)
    ensures ReadUpTo(d, pos, k + 1, AddDelta(d, d[pos], k, a))
  {
    assert BIT[k] == [1, 2, 4, 8, 16, 32, 64][k];
    assert k < 4 ==> WEIGHT[k] == [1, 256, 65536, 16777216][k];
    assert k >= 4 ==> WEIGHT[k - 4] == [1, 256, 65536][k - 4];
  }

  lemma AllRead(d: seq<byte>, pos: nat)
    requires pos < |d|
    ensures ReadUpTo(d, pos, 7, ReadArgs(d, d[pos], pos + 1))
  {
    hide ReadUpTo, AddDelta;
    var c := d[pos];
    var a0 := Args(true, pos + 1, 0, 0);
    NoneRead(d, pos);
    OneRead(d, pos, 0, a0);
    var a1 := AddDelta(d, c, 0, a0);
    OneRead(d, pos, 1, a1);
    var a2 := AddDelta(d, c, 1, a1);
    OneRead(d, pos, 2, a2);
    var a3 := AddDelta(d, c, 2, a2);
    OneRead(d, pos, 3, a3);
    var a4 := AddDelta(d, c, 3, a3);
    OneRead(d, pos, 4, a4);
    var a5 := AddDelta(d, c, 4, a4);
    OneRead(d, pos, 5, a5);
    var a6 := AddDelta(d, c, 5, a5);
    OneRead(d, pos, 6, a6);
  }

  lemma NoneRead(d: seq<byte>, pos: nat)
    requires pos < |d|
    ensures ReadUpTo(d, pos, 0, Args(true, pos + 1, 0, 0))
  {
  }

  /** Every command: zero is refused; below 128 it is followed by as many bytes to insert; from
      128 on bits 0 to 3 say which bytes of the offset follow and bits 4 to 6 which of the
      length, low bytes first, and a length of zero stands for 65536.  Missing bytes are
      refused, and so is a copy that leaves the base. */
  lemma CommandExact(base: seq<byte>, d: seq<byte>, pos: nat)
    requires pos < |d|
    ensures DecodeOp(base, d, pos) ==
            if d[pos] == 0 then Bad
            else if d[pos] < 128 then
              if pos + 1 + d[pos] <= |d| then Op(d[pos + 1..pos + 1 + d[pos]], 1 + d[pos]) else Bad
            else
              var off := Argument(d, pos, 0) + Argument(d, pos, 1) * 256 + Argument(d, pos, 2) * 65536 + Argument(d, pos, 3) * 16777216;
              var size := Argument(d, pos, 4) + Argument(d, pos, 5) * 256 + Argument(d, pos, 6) * 65536;
              var len := if size == 0 then 65536 else size;
              if pos + 1 + Rank(d[pos], 7) <= |d| && off + len <= |base| then Op(base[off..off + len], 1 + Rank(d[pos], 7)) else Bad
  {
    hide ReadArgs, Argument, Rank;
    AllRead(d, pos);
  }

  /** A whole delta: the two sizes come first, the first one must be that of the base, and what
      the commands write must have the second one. */
  lemma DeltaMeans(base: seq<byte>, baseSize: nat, size: nat, ops: seq<byte>)
    requires baseSize <= UINT_MAX && size <= UINT_MAX
    ensures Apply(base, EncodeSize(baseSize) + EncodeSize(size) + ops) ==
            if baseSize != |base| then Failed(WrongBaseSize)
            else
              match Exec(base, ops, 0)
              case Some(out) => if |out| == size then Patched(out) else Failed(BadDelta)
              case None => Failed(BadDelta)
  {
    hide ReadSize, EncodeSize, Exec;
    var a, b := EncodeSize(baseSize), EncodeSize(size);
    var d := a + b + ops;
    assert d == [] + a + (b + ops);
    ReadEncoded([], baseSize, b + ops);
    ReadEncoded(a, size, ops);
    ExecBehind(base, a + b, ops, 0);
  }

  lemma {:induction false} ExecBehind(base: seq<byte>, head: seq<byte>, ops: seq<byte>, pos: nat)
    requires pos <= |ops|
    ensures Exec(base, head + ops, |head| + pos) == Exec(base, ops, pos)
    decreases |ops| - pos
  {
    hide DecodeOp;
    if pos < |ops| {
      OpBehind(base, head, ops, pos);
      var r := DecodeOp(base, ops, pos);
      if r.Op? { ExecBehind(base, head, ops, pos + r.used); }
    }
  }

  lemma OpBehind(base: seq<byte>, head: seq<byte>, ops: seq<byte>, pos: nat)
    requires pos < |ops|
    ensures DecodeOp(base, head + ops, |head| + pos) == DecodeOp(base, ops, pos)
  {
    hide DecodeOp, Rank;
    var d, p := head + ops, |head| + pos;
    CommandExact(base, d, p);
    CommandExact(base, ops, pos);
    forall k: nat | k < 7 ensures Argument(d, p, k) == Argument(ops, pos, k) { }
    if pos + 1 + ops[pos] <= |ops| { assert d[p + 1..p + 1 + ops[pos]] == ops[pos + 1..pos + 1 + ops[pos]]; }
  }
}
