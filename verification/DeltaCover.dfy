/** What a delta says about each byte it writes: whether the byte is inserted, or how long
    the copy is that it comes from.  Read from the delta alone. */
module DeltaCover {
  import opened Common
  import opened DeltaFormat
  import opened DeltaEmit

  /** One operation that writes n bytes. */
  function Sent(cmd: byte, n: nat): (c: seq<nat>)
    ensures |c| == n && forall i :: 0 <= i < n ==> c[i] == if cmd < 128 then 0 else n
  {
    seq(n, _ => if cmd < 128 then 0 else n)
  }

  /** For every byte that the operations from `pos` on write: 0 if it is inserted, and the
      length of its copy otherwise. */
  ghost function Cover(base: seq<byte>, d: seq<byte>, pos: nat): seq<nat>
    requires pos <= |d|
    decreases |d| - pos
  {
    if pos == |d| then []
    else
      match DecodeOp(base, d, pos)
      case Bad => []
      case Op(out, used) => Sent(d[pos], |out|) + Cover(base, d, pos + used)
  }

  lemma {:induction false} CoverLength(base: seq<byte>, d: seq<byte>, pos: nat)
    requires pos <= |d| && Exec(base, d, pos).Some?
    ensures |Cover(base, d, pos)| == |Exec(base, d, pos).value|
    decreases |d| - pos
  {
    hide DecodeOp;
    if pos < |d| { CoverLength(base, d, pos + DecodeOp(base, d, pos).used); }
  }

  lemma {:induction false} CoverAppend(base: seq<byte>, a: seq<byte>, b: seq<byte>, pos: nat)
    requires pos <= |a| && Exec(base, a, pos).Some?
    ensures Cover(base, a + b, pos) == Cover(base, a, pos) + Cover(base, a + b, |a|)
    decreases |a| - pos
  {
    hide DecodeOp, Sent;
    if pos == |a| {
      assert Cover(base, a, pos) == [];
    } else {
      DecodeOpAppend(base, a, b, pos);
      var op := DecodeOp(base, a, pos);
      CoverAppend(base, a, b, pos + op.used);
      assert (a + b)[pos] == a[pos];
      JoinThree(Sent(a[pos], |op.out|), Cover(base, a, pos + op.used), Cover(base, a + b, |a|));
    }
  }

  lemma JoinThree(x: seq<nat>, y: seq<nat>, z: seq<nat>)
    ensures x + (y + z) == x + y + z
  {
  }

  /** Appending one well-formed operation. */
  lemma CoverSnoc(base: seq<byte>, a: seq<byte>, op: seq<byte>, pos: nat, out: seq<byte>)
    requires pos <= |a| && Exec(base, a, pos).Some? && op != []
    requires DecodeOp(base, a + op, |a|) == Op(out, |op|)
    ensures Cover(base, a + op, pos) == Cover(base, a, pos) + Sent(op[0], |out|)
  {
    hide DecodeOp;
    CoverAppend(base, a, op, pos);
    assert Cover(base, a + op, |a + op|) == [];
    assert (a + op)[|a|] == op[0];
  }

  function Zeros(n: nat): (z: seq<nat>)
    ensures |z| == n && forall i :: 0 <= i < n ==> z[i] == 0
  {
    seq(n, _ => 0)
  }

  /** The same for a delta under construction: the bytes of an open run are inserted. */
  ghost function Covers(base: seq<byte>, d: seq<byte>, h: nat, inscnt: nat): seq<nat>
    requires if inscnt == 0 then h <= |d| else h + inscnt + 1 <= |d|
  {
    if inscnt == 0 then Cover(base, d, h) else Cover(base, d[..|d| - inscnt - 1], h) + Zeros(inscnt)
  }

  lemma CoversClosed(base: seq<byte>, d: seq<byte>, h: nat, trg: seq<byte>, data: nat, inscnt: nat)
    requires Emitted(base, d, h, trg, data, inscnt) && 0 < inscnt
    ensures Covers(base, d[|d| - inscnt - 1 := inscnt], h, 0) == Covers(base, d, h, inscnt)
  {
    hide DecodeOp, Exec, Cover;
    var a, lits := d[..|d| - inscnt - 1], trg[data - inscnt..data];
    var op := [inscnt] + lits;
    assert d[|d| - inscnt - 1 := inscnt] == a + op;
    InsertDecodes(base, a, lits);
    CoverSnoc(base, a, op, h, lits);
    assert Sent(op[0], |lits|) == Zeros(inscnt);
  }

  lemma CoversOpened(base: seq<byte>, d: seq<byte>, h: nat, trg: seq<byte>, data: nat, slot: byte)
    requires Emitted(base, d, h, trg, data, 0) && data < |trg|
    ensures Covers(base, d + [slot, trg[data]], h, 1) == Covers(base, d, h, 0) + [0]
  {
    hide Exec, Cover;
    assert (d + [slot, trg[data]])[..|d|] == d;
    assert Zeros(1) == [0];
  }

  lemma CoversExtended(base: seq<byte>, d: seq<byte>, h: nat, trg: seq<byte>, data: nat, inscnt: nat)
    requires Emitted(base, d, h, trg, data, inscnt) && data < |trg| && 0 < inscnt < 127
    ensures Covers(base, d + [trg[data]], h, inscnt + 1) == Covers(base, d, h, inscnt) + [0]
  {
    hide Exec, Cover;
    var d' := d + [trg[data]];
    assert d'[..|d'| - (inscnt + 1) - 1] == d[..|d| - inscnt - 1];
    assert Zeros(inscnt + 1) == Zeros(inscnt) + [0];
  }

  lemma CoversTakenBack(base: seq<byte>, d: seq<byte>, h: nat, trg: seq<byte>, data: nat, inscnt: nat)
    requires Emitted(base, d, h, trg, data, inscnt) && 0 < inscnt
    ensures Covers(base, if inscnt == 1 then d[..|d| - 2] else d[..|d| - 1], h, inscnt - 1) + [0] == Covers(base, d, h, inscnt)
  {
    hide Exec, Cover;
    if inscnt > 1 {
      var d' := d[..|d| - 1];
      assert d'[..|d'| - (inscnt - 1) - 1] == d[..|d| - inscnt - 1];
      assert Zeros(inscnt) == Zeros(inscnt - 1) + [0];
    } else {
      assert Zeros(1) == [0];
    }
  }

  lemma CoversCopied(base: seq<byte>, d: seq<byte>, h: nat, trg: seq<byte>, data: nat, moff: nat, msize: nat)
    requires Emitted(base, d, h, trg, data, 0)
    requires moff + msize <= |base| <= UINT_MAX && 1 <= msize <= 0x1_0000
    ensures Covers(base, d + CopyOp(moff, msize), h, 0) == Covers(base, d, h, 0) + seq(msize, _ => msize)
  {
    CopyIsCopy(moff, msize);
    hide CopyOp, DecodeOp, Exec, Cover;
    var op, out := CopyOp(moff, msize), base[moff..moff + msize];
    CopyDecodes(base, d + op, |d|, moff, msize);
    CoverSnoc(base, d, op, h, out);
    assert Sent(op[0], |out|) == seq(msize, _ => msize);
  }

  lemma CopyIsCopy(moff: nat, msize: nat)
    ensures CopyOp(moff, msize)[0] >= 128
  {
    hide ByteOf;
  }
}
