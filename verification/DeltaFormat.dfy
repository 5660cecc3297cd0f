/** The binary delta format: two size headers followed by copy and insert
    operations.  `Apply` says what a delta means; `GitDeltaApply` is the decoder
    of delta.c, proved to compute exactly that. */
module DeltaFormat {
  import opened Common

  // ---------------------------------------------------------------- headers

  /** `Header(size, next)`: a size was read and reading goes on at `next`. */
  datatype SizeHeader = Header(size: nat, next: nat) | Truncated | ShiftUndefined

  /** Weight of the k-th header byte.  From the sixth byte on the decoder would
      shift a 32-bit value by 35 or more, which C leaves undefined. */
  const PLACE: seq<nat> := [1, 0x80, 0x4000, 0x20_0000, 0x1000_0000]

  function ReadSize(d: seq<byte>, pos: nat, k: nat := 0): (r: SizeHeader)
    requires pos <= |d|
    ensures r.Header? ==> pos < r.next <= |d|
    decreases |d| - pos
  {
    if pos == |d| then Truncated
    else if k >= |PLACE| then ShiftUndefined
    else
      var part := (d[pos] % 128 * PLACE[k]) % 0x1_0000_0000;
      if d[pos] < 128 then Header(part, pos + 1)
      else
        match ReadSize(d, pos + 1, k + 1)
        case Header(rest, next) => Header(part + rest, next)
        case err => err
  }

  /** The little-endian base-128 form of a size. */
  function EncodeSize(n: nat): (s: seq<byte>)
    ensures |s| >= 1
  {
    if n < 128 then [n] else [n % 128 + 128] + EncodeSize(n / 128)
  }

  lemma {:induction false} EncodeSizeLength(n: nat)
    requires n <= UINT_MAX
    ensures |EncodeSize(n)| <= 5
  {
    EncodeSizeLengthAt(n, 0x1_0000_0000 * 8, 5);
  }

  lemma {:induction false} EncodeSizeLengthAt(n: nat, bound: nat, k: nat)
    requires 1 <= k <= 5 && n < bound
    requires bound == [0x80, 0x4000, 0x20_0000, 0x1000_0000, 0x8_0000_0000][k - 1]
    ensures |EncodeSize(n)| <= k
    decreases k
  {
    if n >= 128 {
      EncodeSizeLengthAt(n / 128, bound / 128, k - 1);
    }
  }

  lemma {:induction false} ReadEncodedAt(pre: seq<byte>, n: nat, post: seq<byte>, k: nat)
    requires k < |PLACE| && n * PLACE[k] <= UINT_MAX
    ensures ReadSize(pre + EncodeSize(n) + post, |pre|, k) == Header(n * PLACE[k], |pre| + |EncodeSize(n)|)
    decreases n
  {
    var d := pre + EncodeSize(n) + post;
    if n >= 128 {
      var c := n % 128 + 128;
      assert k < 4;
      var rest := n / 128;
      assert d == (pre + [c]) + EncodeSize(rest) + post;
      assert PLACE[k + 1] == 128 * PLACE[k];
      assert n * PLACE[k] == (n % 128) * PLACE[k] + rest * PLACE[k + 1];
      ReadEncodedAt(pre + [c], rest, post, k + 1);
    }
  }

  /** A size header reads back as the size that was written. */
  lemma ReadEncoded(pre: seq<byte>, n: nat, post: seq<byte>)
    requires n <= UINT_MAX
    ensures ReadSize(pre + EncodeSize(n) + post, |pre|) == Header(n, |pre| + |EncodeSize(n)|)
  {
    ReadEncodedAt(pre, n, post, 0);
  }

  // ------------------------------------------------------------- operations

  const BIT: seq<nat> := [1, 2, 4, 8, 16, 32, 64]

  /** Bit k of an operation byte. */
  predicate BitSet(cmd: byte, k: nat)
    requires k < |BIT|
  {
    cmd / BIT[k] % 2 == 1
  }

  const WEIGHT: seq<nat> := [1, 0x100, 0x1_0000, 0x100_0000]

  /** Progress of reading the optional argument bytes of a copy operation. */
  datatype Args = Args(ok: bool, pos: nat, off: nat, len: nat)

  /** One use of the ADD_DELTA macro for argument k (0-3 offset, 4-6 length). */
  function AddDelta(d: seq<byte>, cmd: byte, k: nat, a: Args): (r: Args)
    requires k < |BIT| && a.pos <= |d|
    ensures a.pos <= r.pos <= |d|
    ensures !a.ok ==> !r.ok
  {
    if !a.ok || !BitSet(cmd, k) then a
    else if a.pos == |d| then a.(ok := false)
    else if k < 4 then a.(pos := a.pos + 1, off := a.off + d[a.pos] * WEIGHT[k])
    else a.(pos := a.pos + 1, len := a.len + d[a.pos] * WEIGHT[k - 4])
  }

  function ReadOffset(d: seq<byte>, cmd: byte, a: Args): (r: Args)
    requires a.pos <= |d|
    ensures a.pos <= r.pos <= |d|
  {
    var a := AddDelta(d, cmd, 0, a);
    var a := AddDelta(d, cmd, 1, a);
    var a := AddDelta(d, cmd, 2, a);
    AddDelta(d, cmd, 3, a)
  }

  function ReadLength(d: seq<byte>, cmd: byte, a: Args): (r: Args)
    requires a.pos <= |d|
    ensures a.pos <= r.pos <= |d|
  {
    var a := AddDelta(d, cmd, 4, a);
    var a := AddDelta(d, cmd, 5, a);
    AddDelta(d, cmd, 6, a)
  }

  function ReadArgs(d: seq<byte>, cmd: byte, pos: nat): (r: Args)
    requires pos <= |d|
    ensures pos <= r.pos <= |d|
  {
    ReadLength(d, cmd, ReadOffset(d, cmd, Args(true, pos, 0, 0)))
  }

  /** A length of zero stands for 64 KB. */
  function CopyLength(len: nat): nat { if len == 0 then 0x1_0000 else len }

  /** What the operation at the front of `d` writes, and how many bytes it takes. */
  datatype Op = Bad | Op(out: seq<byte>, used: nat)

  function DecodeOp(base: seq<byte>, d: seq<byte>, pos: nat): (r: Op)
    requires pos < |d|
    ensures r.Op? ==> 1 <= r.used <= |d| - pos
  {
    var cmd := d[pos];
    if cmd >= 128 then
      var a := ReadArgs(d, cmd, pos + 1);
      var len := CopyLength(a.len);
      if a.ok && a.off + len <= |base| then Op(base[a.off..a.off + len], a.pos - pos) else Bad
    else if cmd > 0 && |d| - (pos + 1) >= cmd then Op(d[pos + 1..pos + 1 + cmd], 1 + cmd)
    else Bad
  }

  /** The bytes that the operations from `pos` on write, or None when one is malformed. */
  function Exec(base: seq<byte>, d: seq<byte>, pos: nat): Option<seq<byte>>
    requires pos <= |d|
    decreases |d| - pos
  {
    if pos == |d| then Some([])
    else
      match DecodeOp(base, d, pos)
      case Bad => None
      case Op(out, used) =>
        match Exec(base, d, pos + used)
        case None => None
        case Some(rest) => Some(out + rest)
  }

  datatype ApplyError = WrongBaseSize | BadHeader | BadDelta
  datatype ApplyResult = Patched(data: seq<byte>) | Failed(error: ApplyError)

  /** The meaning of a whole delta against `base`. */
  function Apply(base: seq<byte>, delta: seq<byte>): ApplyResult {
    match ReadSize(delta, 0)
    case Header(baseSize, p) =>
      if baseSize != |base| then Failed(WrongBaseSize)
      else (
        match ReadSize(delta, p)
        case Header(resSize, q) =>
          (match Exec(base, delta, q)
           case Some(out) => if |out| == resSize then Patched(out) else Failed(BadDelta)
           case None => Failed(BadDelta))
        case _ => Failed(BadHeader)
      )
    case _ => Failed(WrongBaseSize)
  }

  // ---------------------------------------------------------------- decoder

  /** hdr_sz: reads a size and leaves `pos` behind it. */
  method HdrSz(d: seq<byte>, start: nat) returns (r: SizeHeader)
    requires start <= |d|
    ensures r == ReadSize(d, start)
  {
    var pos: nat, size: nat, k: nat := start, 0, 0;
    var more := true;
    while more
      invariant start <= pos <= |d| && k <= |PLACE| + 1
      invariant more ==> match ReadSize(d, pos, k)
                         case Header(rest, next) => ReadSize(d, start) == Header(size + rest, next)
                         case err => ReadSize(d, start) == err
      invariant !more ==> ReadSize(d, start) == Header(size, pos)
      decreases more, |d| - pos
    {
      if pos == |d| {
        return Truncated;
      }
      if k >= |PLACE| {
        return ShiftUndefined;
      }
      var c := d[pos];
      pos := pos + 1;
      size := size + (c % 128 * PLACE[k]) % 0x1_0000_0000;
      k := k + 1;
      more := c >= 128;
    }
    return Header(size, pos);
  }

  /** memcpy of `src` to dst[at..]; what lies before stays. */
  method Memcpy(dst: array<byte>, at: nat, src: seq<byte>)
    requires at + |src| <= dst.Length
    modifies dst
    ensures dst[..at + |src|] == old(dst[..at]) + src
  {
    forall i | 0 <= i < |src| { dst[at + i] := src[i]; }
  }

  /** Joins the bytes already written to what the rest of the delta writes. */
  ghost function Joined(written: seq<byte>, rest: Option<seq<byte>>): Option<seq<byte>> {
    match rest case None => None case Some(more) => Some(written + more)
  }

  lemma JoinStep(base: seq<byte>, d: seq<byte>, pos: nat, written: seq<byte>)
    requires pos < |d|
    ensures Joined(written, Exec(base, d, pos)) ==
            match DecodeOp(base, d, pos)
            case Bad => None
            case Op(out, used) => Joined(written + out, Exec(base, d, pos + used))
  {
    match DecodeOp(base, d, pos)
    case Bad =>
    case Op(out, used) =>
      var rest := Exec(base, d, pos + used);
      if rest.Some? {
        assert written + (out + rest.value) == written + out + rest.value;
      }
  }

  /** git_delta_apply: interprets the operations into a result buffer, checking
      every operation against the ends of the delta, the base and the result. */
  method GitDeltaApply(base: seq<byte>, delta: seq<byte>) returns (r: ApplyResult)
    ensures r == Apply(base, delta)
  {
    var h := HdrSz(delta, 0);
    if !h.Header? || h.size != |base| {
      return Failed(WrongBaseSize);
    }
    var h' := HdrSz(delta, h.next);
    if !h'.Header? {
      return Failed(BadHeader);
    }
    var ok, res := Interpret(base, delta, h'.next, h'.size);
    r := if ok then Patched(res) else Failed(BadDelta);
  }

  /** One command of the loop of git_delta_apply: checks it against the ends of
      the delta and of the base, and against the room left in the result. */
  method Command(base: seq<byte>, delta: seq<byte>, start: nat, left: nat) returns (ok: bool, out: seq<byte>, d: nat)
    requires start < |delta|
    ensures match DecodeOp(base, delta, start)
            case Bad => !ok
            case Op(o, used) => out == o && d == start + used && (ok <==> |o| <= left)
  {
    var cmd := delta[start];
    d := start + 1;
    out := [];
    if cmd >= 128 {
      var a := ReadArgs(delta, cmd, d);
      var len := CopyLength(a.len);
      if !a.ok || |base| < a.off + len {
        return false, [], d;
      }
      return left >= len, base[a.off..a.off + len], a.pos;
    } else if cmd > 0 {
      if |delta| - d < cmd {
        return false, [], d;
      }
      return left >= cmd, delta[d..d + cmd], d + cmd;
    } else {
      return false, [], d;
    }
  }

  /** The loop of git_delta_apply. */
  method Interpret(base: seq<byte>, delta: seq<byte>, start: nat, resSize: nat) returns (ok: bool, out: seq<byte>)
    requires start <= |delta|
    ensures ok <==> Exec(base, delta, start).Some? && |Exec(base, delta, start).value| == resSize
    ensures ok ==> Exec(base, delta, start) == Some(out)
  {
    hide DecodeOp;
    var res := new byte[resSize];
    out := [];
    var left: nat, dp: nat, d := resSize, 0, start;
    assert Joined([], Exec(base, delta, start)) == Exec(base, delta, start) by {
      match Exec(base, delta, start) case None => case Some(all) => assert [] + all == all;
    }
    while d < |delta|
      invariant start <= d <= |delta| && left + dp == res.Length
      invariant Exec(base, delta, start) == Joined(res[..dp], Exec(base, delta, d))
    {
      JoinStep(base, delta, d, res[..dp]);
      var fits, o, d' := Command(base, delta, d, left);
      if !fits {
        return false, [];
      }
      Memcpy(res, dp, o);
      d, dp, left := d', dp + |o|, left - |o|;
    }
    if left != 0 {
      return false, [];
    }
    assert res[..dp] + [] == res[..];
    return true, res[..];
  }
}
