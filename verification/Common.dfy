/** Types shared by the models of the libgit2 components. */
module Common {

  /** An `unsigned char`. */
  type byte = x: int | 0 <= x < 256

  const UINT_MAX: nat := 0xffff_ffff

  datatype Option<+T> = None | Some(value: T)

  function Min(a: int, b: int): int { if a <= b then a else b }

  function Max(a: int, b: int): int { if a >= b then a else b }

  /** git__isspace */
  predicate IsSpace(c: byte) { c == 32 || 9 <= c <= 13 }

  function Rtrim(s: seq<byte>): (t: seq<byte>)
    ensures t <= s && (t == [] || !IsSpace(t[|t| - 1]))
  {
    if s != [] && IsSpace(s[|s| - 1]) then Rtrim(s[..|s| - 1]) else s
  }
}
