/** git_buf (buffer.c): a growing byte buffer, and what its codecs share. */
module Buffer {
  import opened Common

  class Buf {
    var ptr: array<byte>
    var size: nat

    ghost predicate Valid()
      reads this
    {
      size <= ptr.Length
    }

    ghost function Text(): (s: seq<byte>)
      requires Valid()
      reads this, ptr
      ensures |s| == size
    {
      ptr[..size]
    }

    constructor ()
      ensures Valid() && Text() == [] && fresh(ptr)
    {
      ptr := new byte[0];
      size := 0;
    }

    /** ENSURE_SIZE: room for n bytes and the terminating zero. */
    method EnsureSize(n: nat)
      requires Valid()
      modifies this
      ensures Valid() && Text() == old(Text()) && n < ptr.Length
      ensures ptr == old(ptr) || fresh(ptr)
    {
      if n < ptr.Length { return; }
      var grown := new byte[Max(n, size) + 1];
      for k := 0 to size
        invariant ptr == old(ptr) && size == old(size) <= ptr.Length && size < grown.Length
        invariant grown[..k] == ptr[..k]
      {
        grown[k] := ptr[k];
        assert grown[..k + 1] == grown[..k] + [ptr[k]] == ptr[..k + 1];
      }
      ptr := grown;
    }

    /** `buf->ptr[buf->size++] = c`: the caller has made room. */
    method Store(c: byte)
      requires Valid() && size < ptr.Length
      modifies this`size, ptr
      ensures Valid() && ptr == old(ptr) && Text() == old(Text()) + [c]
    {
      ptr[size] := c;
      size := size + 1;
    }

    /** `buf->ptr[buf->size] = 0` */
    method Terminate()
      requires Valid() && size < ptr.Length
      modifies ptr
      ensures Valid() && Text() == old(Text()) && ptr[size] == 0
    {
      ptr[size] := 0;
    }

    /** `buf->size = n; buf->ptr[n] = 0` */
    method Truncate(n: nat)
      requires Valid() && n <= size && n < ptr.Length
      modifies this`size, ptr
      ensures Valid() && ptr == old(ptr) && Text() == old(Text())[..n]
    {
      size := n;
      ptr[size] := 0;
    }

    /** memcpy of s[from..to] to the end of the text: the caller has made room. */
    method Copy(s: seq<byte>, from: nat, to: nat)
      requires Valid() && from <= to <= |s| && size + (to - from) <= ptr.Length
      modifies this`size, ptr
      ensures Valid() && ptr == old(ptr) && Text() == old(Text()) + s[from..to]
    {
      for k := from to to
        invariant Valid() && ptr == old(ptr) && size == old(size) + (k - from)
        invariant Text() == old(Text()) + s[from..k]
      {
        Store(s[k]);
        assert s[from..k + 1] == s[from..k] + [s[k]];
      }
    }

    /** git_buf_put of s[from..to] */
    method Put(s: seq<byte>, from: nat, to: nat)
      requires Valid() && from <= to <= |s|
      modifies this, ptr
      ensures Valid() && Text() == old(Text()) + s[from..to] && (ptr == old(ptr) || fresh(ptr))
    {
      EnsureSize(size + (to - from) + 1);
      Copy(s, from, to);
      Terminate();
    }

    /** git_buf_set */
    method Set(s: seq<byte>)
      requires Valid()
      modifies this, ptr
      ensures Valid() && Text() == s && (ptr == old(ptr) || fresh(ptr))
    {
      EnsureSize(|s|);
      size := 0;
      Copy(s, 0, |s|);
      Terminate();
      assert s[0..|s|] == s;
    }

    /** git_buf_putc */
    method Putc(c: byte)
      requires Valid()
      modifies this, ptr
      ensures Valid() && Text() == old(Text()) + [c]
      ensures ptr == old(ptr) || fresh(ptr)
    {
      EnsureSize(size + 1);
      Store(c);
      Terminate();
    }
  }

  /** memchr in s from `from` on. */
  method FindByte(s: seq<byte>, from: nat, c: byte) returns (next: Option<nat>)
    requires from <= |s|
    ensures next.None? ==> forall k :: from <= k < |s| ==> s[k] != c
    ensures next.Some? ==> from <= next.value < |s| && s[next.value] == c && forall k :: from <= k < next.value ==> s[k] != c
  {
    for k := from to |s|
      invariant forall i :: from <= i < k ==> s[i] != c
    {
      if s[k] == c { return Some(k); }
    }
    next := None;
  }

  // ------------------------------------------------------------ decoding in steps

  /** All that is to be decoded is what is done followed by what is left, if that can be decoded. */
  ghost predicate Continues(all: Option<seq<byte>>, done: seq<byte>, left: Option<seq<byte>>) {
    all == match left case None => None case Some(rest) => Some(done + rest)
  }

  lemma ContinuesDone(all: Option<seq<byte>>, done: seq<byte>)
    requires Continues(all, done, Some([]))
    ensures all == Some(done)
  {
    assert done + [] == done;
  }

  lemma ContinuesNone(all: Option<seq<byte>>, done: seq<byte>)
    requires Continues(all, done, None)
    ensures all == None
  {
  }

  lemma ContinuesStart(all: Option<seq<byte>>)
    ensures Continues(all, [], all)
  {
    if all.Some? { assert [] + all.value == all.value; }
  }

  lemma ContinuesNext(all: Option<seq<byte>>, done: seq<byte>, now: seq<byte>, left: Option<seq<byte>>)
    requires Continues(all, done, match left case None => None case Some(rest) => Some(now + rest))
    ensures Continues(all, done + now, left)
  {
    if left.Some? { assert done + now + left.value == done + (now + left.value); }
  }
}
