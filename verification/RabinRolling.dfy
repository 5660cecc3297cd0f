/** The rolling fingerprint of delta.c: both tables are linear over exclusive or, and so
    taking out the oldest byte and shifting in a new one gives the fingerprint of the
    window that has moved on by one byte. */
module RabinRolling {
  import opened Common
  import opened Rabin

  // -------------------------------------------------------------- the tables are linear

  /** What one bit of the index adds. */
  function Term(k: bv32, bit: bv32, x: bv32): bv32 { if k & bit == 0 then 0 else x }

  function Xor(a: bv32, b: bv32): bv32 { a ^ b }

  function Sum(a: bv32, b: bv32, c: bv32, d: bv32, e: bv32, f: bv32, g: bv32, h: bv32): bv32 {
    Half(a, b, c, d) ^ Half(e, f, g, h)
  }

  function Half(a: bv32, b: bv32, c: bv32, d: bv32): bv32 { (a ^ b) ^ (c ^ d) }

  function LinearT(k: bv32): bv32 {
    Sum(Term(k, 1, 0xab59b4d1), Term(k, 2, 0x56b369a2), Term(k, 4, 0x063f6795), Term(k, 8, 0x0c7ecf2a),
        Term(k, 16, 0x18fd9e54), Term(k, 32, 0x31fb3ca8), Term(k, 64, 0x63f67950), Term(k, 128, 0x6cb54671))
  }

  function LinearU(k: bv32): bv32 {
    Sum(Term(k, 1, 0x7eb5200d), Term(k, 2, 0x5633f4cb), Term(k, 4, 0x073e5d47), Term(k, 8, 0x0e7cba8e),
        Term(k, 16, 0x1cf9751c), Term(k, 32, 0x39f2ea38), Term(k, 64, 0x73e5d470), Term(k, 128, 0x4c921c31))
  }

  lemma T0First(k: bv32)
    requires k < 16
    ensures T0(k) == LinearT(k)
  {
  }

  lemma T0Second(k: bv32)
    requires 16 <= k < 32
    ensures T0(k) == LinearT(k)
  {
  }

  lemma T0High(k: bv32)
    requires 32 <= k < 64
    ensures T0(k) == LinearT(k)
  {
  }

  lemma T0Linear(k: bv32)
    requires k < 64
    ensures T0(k) == LinearT(k)
  {
    hide T0, LinearT;
    if k < 16 { T0First(k); } else if k < 32 { T0Second(k); } else { T0High(k); }
  }

  lemma T1First(k: bv32)
    requires k < 16
    ensures T1(k) == LinearT(k + 64)
  {
  }

  lemma T1Second(k: bv32)
    requires 16 <= k < 32
    ensures T1(k) == LinearT(k + 64)
  {
  }

  lemma T1High(k: bv32)
    requires 32 <= k < 64
    ensures T1(k) == LinearT(k + 64)
  {
  }

  lemma T1Linear(k: bv32)
    requires k < 64
    ensures T1(k) == LinearT(k + 64)
  {
    hide T1, LinearT;
    if k < 16 { T1First(k); } else if k < 32 { T1Second(k); } else { T1High(k); }
  }

  lemma T2First(k: bv32)
    requires k < 16
    ensures T2(k) == LinearT(k + 128)
  {
  }

  lemma T2Second(k: bv32)
    requires 16 <= k < 32
    ensures T2(k) == LinearT(k + 128)
  {
  }

  lemma T2High(k: bv32)
    requires 32 <= k < 64
    ensures T2(k) == LinearT(k + 128)
  {
  }

  lemma T2Linear(k: bv32)
    requires k < 64
    ensures T2(k) == LinearT(k + 128)
  {
    hide T2, LinearT;
    if k < 16 { T2First(k); } else if k < 32 { T2Second(k); } else { T2High(k); }
  }

  lemma T3First(k: bv32)
    requires k < 16
    ensures T3(k) == LinearT(k + 192)
  {
  }

  lemma T3Second(k: bv32)
    requires 16 <= k < 32
    ensures T3(k) == LinearT(k + 192)
  {
  }

  lemma T3High(k: bv32)
    requires 32 <= k < 64
    ensures T3(k) == LinearT(k + 192)
  {
  }

  lemma T3Linear(k: bv32)
    requires k < 64
    ensures T3(k) == LinearT(k + 192)
  {
    hide T3, LinearT;
    if k < 16 { T3First(k); } else if k < 32 { T3Second(k); } else { T3High(k); }
  }

  /** Every entry of T is the sum of the entries for the bits of its index. */
  lemma TLinear(k: bv32)
    requires k < 256
    ensures T(k) == LinearT(k)
  {
    hide T0, T1, T2, T3, LinearT;
    if k < 64 {
      T0Linear(k);
    } else if k < 128 {
      assert (k & 63) + 64 == k;
      T1Linear(k & 63);
    } else if k < 192 {
      assert (k & 63) + 128 == k;
      T2Linear(k & 63);
    } else {
      assert (k & 63) + 192 == k;
      T3Linear(k & 63);
    }
  }

  lemma U0First(k: bv32)
    requires k < 16
    ensures U0(k) == LinearU(k)
  {
  }

  lemma U0Second(k: bv32)
    requires 16 <= k < 32
    ensures U0(k) == LinearU(k)
  {
  }

  lemma U0High(k: bv32)
    requires 32 <= k < 64
    ensures U0(k) == LinearU(k)
  {
  }

  lemma U0Linear(k: bv32)
    requires k < 64
    ensures U0(k) == LinearU(k)
  {
    hide U0, LinearU;
    if k < 16 { U0First(k); } else if k < 32 { U0Second(k); } else { U0High(k); }
  }

  lemma U1First(k: bv32)
    requires k < 16
    ensures U1(k) == LinearU(k + 64)
  {
  }

  lemma U1Second(k: bv32)
    requires 16 <= k < 32
    ensures U1(k) == LinearU(k + 64)
  {
  }

  lemma U1High(k: bv32)
    requires 32 <= k < 64
    ensures U1(k) == LinearU(k + 64)
  {
  }

  lemma U1Linear(k: bv32)
    requires k < 64
    ensures U1(k) == LinearU(k + 64)
  {
    hide U1, LinearU;
    if k < 16 { U1First(k); } else if k < 32 { U1Second(k); } else { U1High(k); }
  }

  lemma U2First(k: bv32)
    requires k < 16
    ensures U2(k) == LinearU(k + 128)
  {
  }

  lemma U2Second(k: bv32)
    requires 16 <= k < 32
    ensures U2(k) == LinearU(k + 128)
  {
  }

  lemma U2High(k: bv32)
    requires 32 <= k < 64
    ensures U2(k) == LinearU(k + 128)
  {
  }

  lemma U2Linear(k: bv32)
    requires k < 64
    ensures U2(k) == LinearU(k + 128)
  {
    hide U2, LinearU;
    if k < 16 { U2First(k); } else if k < 32 { U2Second(k); } else { U2High(k); }
  }

  lemma U3First(k: bv32)
    requires k < 16
    ensures U3(k) == LinearU(k + 192)
  {
  }

  lemma U3Second(k: bv32)
    requires 16 <= k < 32
    ensures U3(k) == LinearU(k + 192)
  {
  }

  lemma U3High(k: bv32)
    requires 32 <= k < 64
    ensures U3(k) == LinearU(k + 192)
  {
  }

  lemma U3Linear(k: bv32)
    requires k < 64
    ensures U3(k) == LinearU(k + 192)
  {
    hide U3, LinearU;
    if k < 16 { U3First(k); } else if k < 32 { U3Second(k); } else { U3High(k); }
  }

  /** Every entry of U is the sum of the entries for the bits of its index. */
  lemma ULinear(k: bv32)
    requires k < 256
    ensures U(k) == LinearU(k)
  {
    hide U0, U1, U2, U3, LinearU;
    if k < 64 {
      U0Linear(k);
    } else if k < 128 {
      assert (k & 63) + 64 == k;
      U1Linear(k & 63);
    } else if k < 192 {
      assert (k & 63) + 128 == k;
      U2Linear(k & 63);
    } else {
      assert (k & 63) + 192 == k;
      U3Linear(k & 63);
    }
  }

  lemma XorZero(x: bv32)
    ensures Xor(x, 0) == x && Xor(0, x) == x && Xor(x, x) == 0
  {
  }

  lemma XorCommutes(a: bv32, b: bv32)
    ensures Xor(a, b) == Xor(b, a)
  {
  }

  lemma XorAssociates(a: bv32, b: bv32, c: bv32)
    ensures Xor(Xor(a, b), c) == Xor(a, Xor(b, c))
  {
    AssociatesOfBits(a, b, c);
  }

  lemma AssociatesOfBits(a: bv32, b: bv32, c: bv32)
    ensures (a ^ b) ^ c == a ^ (b ^ c)
  {
  }

  lemma Pairs(a: bv32, b: bv32, c: bv32, d: bv32)
    ensures Xor(Xor(a, b), Xor(c, d)) == Xor(Xor(a, c), Xor(b, d))
  {
    hide Xor;
    XorAssociates(a, b, Xor(c, d));
    XorAssociates(b, c, d);
    XorCommutes(b, c);
    XorAssociates(c, b, d);
    XorAssociates(a, c, Xor(b, d));
  }

  lemma XorIs(a: bv32, b: bv32)
    ensures Xor(a, b) == a ^ b
  {
  }

  lemma HalfIsXor(a: bv32, b: bv32, c: bv32, d: bv32)
    ensures Half(a, b, c, d) == Xor(Xor(a, b), Xor(c, d))
  {
    hide Xor;
    XorIs(a, b);
    XorIs(c, d);
    XorIs(Xor(a, b), Xor(c, d));
  }

  lemma SumIsXor(a: bv32, b: bv32, c: bv32, d: bv32, e: bv32, f: bv32, g: bv32, h: bv32)
    ensures Sum(a, b, c, d, e, f, g, h) == Xor(Xor(Xor(a, b), Xor(c, d)), Xor(Xor(e, f), Xor(g, h)))
  {
    hide Xor, Half;
    HalfIsXor(a, b, c, d);
    HalfIsXor(e, f, g, h);
    XorIs(Half(a, b, c, d), Half(e, f, g, h));
  }

  lemma BitXor(a: bv32, b: bv32, bit: bv32)
    requires bit in {1, 2, 4, 8, 16, 32, 64, 128}
    ensures Xor(a, b) & bit == 0 <==> (a & bit == 0) == (b & bit == 0)
  {
  }

  lemma TermXor(a: bv32, b: bv32, bit: bv32, x: bv32)
    requires bit in {1, 2, 4, 8, 16, 32, 64, 128}
    ensures Term(Xor(a, b), bit, x) == Xor(Term(a, bit, x), Term(b, bit, x))
  {
    hide Xor;
    BitXor(a, b, bit);
    XorZero(0);
    XorZero(x);
  }

  lemma SumXor(a0: bv32, a1: bv32, a2: bv32, a3: bv32, a4: bv32, a5: bv32, a6: bv32, a7: bv32,
               b0: bv32, b1: bv32, b2: bv32, b3: bv32, b4: bv32, b5: bv32, b6: bv32, b7: bv32)
    ensures Sum(Xor(a0, b0), Xor(a1, b1), Xor(a2, b2), Xor(a3, b3), Xor(a4, b4), Xor(a5, b5), Xor(a6, b6), Xor(a7, b7))
            == Xor(Sum(a0, a1, a2, a3, a4, a5, a6, a7), Sum(b0, b1, b2, b3, b4, b5, b6, b7))
  {
    hide Xor, Sum;
    SumIsXor(Xor(a0, b0), Xor(a1, b1), Xor(a2, b2), Xor(a3, b3), Xor(a4, b4), Xor(a5, b5), Xor(a6, b6), Xor(a7, b7));
    SumIsXor(a0, a1, a2, a3, a4, a5, a6, a7);
    SumIsXor(b0, b1, b2, b3, b4, b5, b6, b7);
    Pairs(a0, b0, a1, b1);
    Pairs(a2, b2, a3, b3);
    Pairs(a4, b4, a5, b5);
    Pairs(a6, b6, a7, b7);
    Pairs(Xor(a0, a1), Xor(b0, b1), Xor(a2, a3), Xor(b2, b3));
    Pairs(Xor(a4, a5), Xor(b4, b5), Xor(a6, a7), Xor(b6, b7));
    Pairs(Xor(Xor(a0, a1), Xor(a2, a3)), Xor(Xor(b0, b1), Xor(b2, b3)), Xor(Xor(a4, a5), Xor(a6, a7)), Xor(Xor(b4, b5), Xor(b6, b7)));
  }

  lemma LinearTXor(a: bv32, b: bv32)
    ensures LinearT(Xor(a, b)) == Xor(LinearT(a), LinearT(b))
  {
    hide Term, Sum, Xor;
    TermXor(a, b, 1, 0xab59b4d1);
    TermXor(a, b, 2, 0x56b369a2);
    TermXor(a, b, 4, 0x063f6795);
    TermXor(a, b, 8, 0x0c7ecf2a);
    TermXor(a, b, 16, 0x18fd9e54);
    TermXor(a, b, 32, 0x31fb3ca8);
    TermXor(a, b, 64, 0x63f67950);
    TermXor(a, b, 128, 0x6cb54671);
    SumXor(Term(a, 1, 0xab59b4d1), Term(a, 2, 0x56b369a2), Term(a, 4, 0x063f6795), Term(a, 8, 0x0c7ecf2a),
           Term(a, 16, 0x18fd9e54), Term(a, 32, 0x31fb3ca8), Term(a, 64, 0x63f67950), Term(a, 128, 0x6cb54671),
           Term(b, 1, 0xab59b4d1), Term(b, 2, 0x56b369a2), Term(b, 4, 0x063f6795), Term(b, 8, 0x0c7ecf2a),
           Term(b, 16, 0x18fd9e54), Term(b, 32, 0x31fb3ca8), Term(b, 64, 0x63f67950), Term(b, 128, 0x6cb54671));
  }

  // ------------------------------------------------------------- shifting is linear

  /** Shifting in a zero byte. */
  function Reduce(v: bv32): bv32 { Xor(v << 8, LinearT(v >> 23)) }

  function Bits(c: byte): (b: bv32)
    ensures b < 256
  {
    c as bv32
  }

  lemma ShiftBits(v: fingerprint, c: byte)
    ensures v >> 23 < 256 && Shift(v, c) == ((v << 8) | Bits(c)) ^ T(v >> 23)
  {
    hide T;
    TopBitCancels(v, c as bv32);
  }

  lemma ShiftIs(v: fingerprint, c: byte)
    ensures Shift(v, c) == Xor(Reduce(v), Bits(c))
  {
    hide Shift, T, LinearT, Bits, Xor, Reduce;
    ShiftBits(v, c);
    OrIsXor(v, c);
    ReduceIs(v);
    XorIs(Reduce(v), Bits(c));
  }

  lemma ReduceIs(v: fingerprint)
    ensures v >> 23 < 256 && Reduce(v) == (v << 8) ^ T(v >> 23)
  {
    assert v >> 23 < 256;
    TLinear(v >> 23);
    hide T, LinearT, Xor;
    XorIs(v << 8, LinearT(v >> 23));
  }

  lemma OrIsXor(v: fingerprint, c: byte)
    ensures v >> 23 < 256 && ((v << 8) | Bits(c)) ^ T(v >> 23) == ((v << 8) ^ T(v >> 23)) ^ Bits(c)
  {
    assert v >> 23 < 256;
    hide T, Bits;
    OrOfBits(v, Bits(c), T(v >> 23));
  }

  lemma OrOfBits(v: bv32, b: bv32, t: bv32)
    requires b < 256
    ensures ((v << 8) | b) ^ t == ((v << 8) ^ t) ^ b
  {
  }

  lemma ReduceXor(a: bv32, b: bv32)
    ensures Reduce(Xor(a, b)) == Xor(Reduce(a), Reduce(b))
  {
    LeftXor(a, b);
    RightXor(a, b);
    hide LinearT, Xor;
    LinearTXor(a >> 23, b >> 23);
    Pairs(a << 8, b << 8, LinearT(a >> 23), LinearT(b >> 23));
  }

  lemma LeftXor(a: bv32, b: bv32)
    ensures Xor(a, b) << 8 == Xor(a << 8, b << 8)
  {
    hide Xor;
    XorIs(a, b);
    ShiftsOfBits(a, b, Xor(a, b));
    XorIs(a << 8, b << 8);
  }

  lemma RightXor(a: bv32, b: bv32)
    ensures Xor(a, b) >> 23 == Xor(a >> 23, b >> 23)
  {
    hide Xor;
    XorIs(a, b);
    ShiftsOfBits(a, b, Xor(a, b));
    XorIs(a >> 23, b >> 23);
  }

  lemma ShiftsOfBits(a: bv32, b: bv32, c: bv32)
    requires c == a ^ b
    ensures c << 8 == (a << 8) ^ (b << 8) && c >> 23 == (a >> 23) ^ (b >> 23)
  {
  }

  /** Shifting in n zero bytes. */
  function Reduced(v: bv32, n: nat): bv32 { if n == 0 then v else Reduce(Reduced(v, n - 1)) }

  lemma {:induction false} ReducedXor(a: bv32, b: bv32, n: nat)
    ensures Reduced(Xor(a, b), n) == Xor(Reduced(a, n), Reduced(b, n))
  {
    hide Reduce, Xor;
    if n > 0 {
      ReducedXor(a, b, n - 1);
      ReduceXor(Reduced(a, n - 1), Reduced(b, n - 1));
    }
  }

  /** The first byte of a window adds what it becomes by the shifts behind it. */
  lemma {:induction false} FirstByte(w: seq<byte>)
    requires w != []
    ensures Fingerprint(w) == Xor(Reduced(Bits(w[0]), |w| - 1), Fingerprint(w[1..]))
  {
    hide Reduce, Shift, Xor, Bits;
    var n := |w| - 1;
    var v := w[..n];
    ShiftIs(Fingerprint(v), w[n]);
    if n == 0 {
      ReduceNothing();
      XorZero(Bits(w[0]));
    } else {
      FirstByte(v);
      assert v[1..] == w[1..][..n - 1] && w[1..][n - 1] == w[n] && v[0] == w[0];
      var a, b := Reduced(Bits(w[0]), n - 1), Fingerprint(w[1..][..n - 1]);
      ReduceXor(a, b);
      ShiftIs(b, w[n]);
      XorAssociates(Reduce(a), Reduce(b), Bits(w[n]));
    }
  }

  lemma ReduceNothing()
    ensures Reduce(0) == 0
  {
  }

  // ------------------------------------------------------- the table that takes a byte out

  /** Five shifts. */
  function Reduce5(v: bv32): bv32 { Reduce(Reduce(Reduce(Reduce(Reduce(v))))) }

  lemma ReducedFive(v: bv32, n: nat)
    ensures Reduced(v, n + 5) == Reduce5(Reduced(v, n))
  {
    hide Reduce;
    assert Reduced(v, n + 1) == Reduce(Reduced(v, n));
    assert Reduced(v, n + 2) == Reduce(Reduced(v, n + 1));
    assert Reduced(v, n + 3) == Reduce(Reduced(v, n + 2));
    assert Reduced(v, n + 4) == Reduce(Reduced(v, n + 3));
    assert Reduced(v, n + 5) == Reduce(Reduced(v, n + 4));
  }

  lemma ReducedNone(v: bv32)
    ensures Reduced(v, 0) == v
  {
  }

  lemma ReducedFifteen(v: bv32)
    ensures Reduced(v, 15) == Reduce5(Reduce5(Reduce5(v)))
  {
    hide Reduce5, Reduced;
    ReducedNone(v);
    ReducedFive(v, 0);
    ReducedFive(v, 5);
    ReducedFive(v, 10);
  }

  lemma Bit0Reduced()
    ensures Reduced(1, 15) == 0x7eb5200d
  {
    ReducedFifteen(1);
    hide Reduced;
  }

  lemma Bit1Reduced()
    ensures Reduced(2, 15) == 0x5633f4cb
  {
    ReducedFifteen(2);
    hide Reduced;
  }

  lemma Bit2Reduced()
    ensures Reduced(4, 15) == 0x073e5d47
  {
    ReducedFifteen(4);
    hide Reduced;
  }

  lemma Bit3Reduced()
    ensures Reduced(8, 15) == 0x0e7cba8e
  {
    ReducedFifteen(8);
    hide Reduced;
  }

  lemma Bit4Reduced()
    ensures Reduced(16, 15) == 0x1cf9751c
  {
    ReducedFifteen(16);
    hide Reduced;
  }

  lemma Bit5Reduced()
    ensures Reduced(32, 15) == 0x39f2ea38
  {
    ReducedFifteen(32);
    hide Reduced;
  }

  lemma Bit6Reduced()
    ensures Reduced(64, 15) == 0x73e5d470
  {
    ReducedFifteen(64);
    hide Reduced;
  }

  lemma Bit7Reduced()
    ensures Reduced(128, 15) == 0x4c921c31
  {
    ReducedFifteen(128);
    hide Reduced;
  }

  lemma {:induction false} NothingReduced(n: nat)
    ensures Reduced(0, n) == 0
  {
    ReduceNothing();
    hide Reduce;
    if n > 0 { NothingReduced(n - 1); }
  }

  lemma TermReduced(k: bv32, bit: bv32)
    ensures Reduced(Term(k, bit, bit), 15) == Term(k, bit, Reduced(bit, 15))
  {
    NothingReduced(15);
    hide Reduced;
  }

  lemma SumReduced(a: bv32, b: bv32, c: bv32, d: bv32, e: bv32, f: bv32, g: bv32, h: bv32)
    ensures Reduced(Sum(a, b, c, d, e, f, g, h), 15)
            == Sum(Reduced(a, 15), Reduced(b, 15), Reduced(c, 15), Reduced(d, 15),
                   Reduced(e, 15), Reduced(f, 15), Reduced(g, 15), Reduced(h, 15))
  {
    hide Reduced, Xor, Sum;
    SumIsXor(a, b, c, d, e, f, g, h);
    SumIsXor(Reduced(a, 15), Reduced(b, 15), Reduced(c, 15), Reduced(d, 15), Reduced(e, 15), Reduced(f, 15), Reduced(g, 15), Reduced(h, 15));
    ReducedXor(a, b, 15);
    ReducedXor(c, d, 15);
    ReducedXor(e, f, 15);
    ReducedXor(g, h, 15);
    ReducedXor(Xor(a, b), Xor(c, d), 15);
    ReducedXor(Xor(e, f), Xor(g, h), 15);
    ReducedXor(Xor(Xor(a, b), Xor(c, d)), Xor(Xor(e, f), Xor(g, h)), 15);
  }

  lemma BitsOf(k: bv32)
    requires k < 256
    ensures k == Sum(Term(k, 1, 1), Term(k, 2, 2), Term(k, 4, 4), Term(k, 8, 8), Term(k, 16, 16), Term(k, 32, 32), Term(k, 64, 64), Term(k, 128, 128))
  {
  }

  /** U[b] is what a byte b has become after fifteen more shifts. */
  lemma UIsReduced(k: bv32)
    requires k < 256
    ensures U(k) == Reduced(k, 15)
  {
    hide U, Reduced, Sum, Term, Xor;
    ULinear(k);
    BitsOf(k);
    SumReduced(Term(k, 1, 1), Term(k, 2, 2), Term(k, 4, 4), Term(k, 8, 8), Term(k, 16, 16), Term(k, 32, 32), Term(k, 64, 64), Term(k, 128, 128));
    Bit0Reduced();
    TermReduced(k, 1);
    Bit1Reduced();
    TermReduced(k, 2);
    Bit2Reduced();
    TermReduced(k, 4);
    Bit3Reduced();
    TermReduced(k, 8);
    Bit4Reduced();
    TermReduced(k, 16);
    Bit5Reduced();
    TermReduced(k, 32);
    Bit6Reduced();
    TermReduced(k, 64);
    Bit7Reduced();
    TermReduced(k, 128);
  }

  /** Taking out the oldest byte leaves the fingerprint of the others. */
  lemma DropOldest(w: seq<byte>)
    requires |w| == RABIN_WINDOW
    ensures Drop(Fingerprint(w), w[0]) == Fingerprint(w[1..])
  {
    hide Fingerprint, U, Reduced;
    FirstByte(w);
    UIsReduced(Bits(w[0]));
    Cancels(U(Bits(w[0])), Fingerprint(w[1..]));
  }

  lemma Cancels(a: bv32, b: bv32)
    ensures Xor(a, b) ^ a == b
  {
  }

  /** The rolling step gives the fingerprint of the window that has moved on. */
  lemma Rolls(w: seq<byte>, c: byte)
    requires |w| == RABIN_WINDOW
    ensures Shift(Drop(Fingerprint(w), w[0]), c) == Fingerprint(w[1..] + [c])
  {
    hide Shift, Drop;
    DropOldest(w);
    var v := w[1..] + [c];
    assert v[..|v| - 1] == w[1..] && v[|v| - 1] == c;
  }
}
