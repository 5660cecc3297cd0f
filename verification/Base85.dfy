/** The base-85 codec of buffer.c: groups of five characters stand for 32-bit words. */
module Base85 {
  import opened Common
  import opened Buffer

  const WORD: nat := 0x1_0000_0000

  // ------------------------------------------------------------------- alphabet

  /** base85_encode: digits, capital letters, small letters, and 23 other characters. */
  function Letter(v: nat): (c: byte)
    requires v < 85
  {
    if v < 10 then v + 48
    else if v < 36 then v - 10 + 65
    else if v < 62 then v - 36 + 97
    else Other(v - 62)
  }

  /** The characters !#$%&()*+-;<=>?@^_`{|}~ */
  function Other(k: nat): (c: byte)
    requires k < 23
  {
    match k
    case 0 => 33 case 1 => 35 case 2 => 36 case 3 => 37 case 4 => 38 case 5 => 40 case 6 => 41 case 7 => 42
    case 8 => 43 case 9 => 45 case 10 => 59 case 11 => 60 case 12 => 61 case 13 => 62 case 14 => 63 case 15 => 64
    case 16 => 94 case 17 => 95 case 18 => 96 case 19 => 123 case 20 => 124 case 21 => 125 case _ => 126
  }

  /** base85_decode: one more than the value of a letter, -1 for every other character. */
  function Digit(c: byte): (d: int) {
    if 48 <= c < 58 then c - 48 + 1
    else if 65 <= c < 91 then c - 65 + 11
    else if 97 <= c < 123 then c - 97 + 37
    else
      match c
      case 33 => 63 case 35 => 64 case 36 => 65 case 37 => 66 case 38 => 67 case 40 => 68 case 41 => 69 case 42 => 70
      case 43 => 71 case 45 => 72 case 59 => 73 case 60 => 74 case 61 => 75 case 62 => 76 case 63 => 77 case 64 => 78
      case 94 => 79 case 95 => 80 case 96 => 81 case 123 => 82 case 124 => 83 case 125 => 84 case 126 => 85 case _ => -1
  }

  lemma DigitOfLetter(v: nat)
    requires v < 85
    ensures Digit(Letter(v)) == v + 1
  {
  }

  lemma LetterOfDigit(c: byte)
    ensures -1 == Digit(c) || (1 <= Digit(c) <= 85 && Letter(Digit(c) - 1) == c)
  {
  }

  // -------------------------------------------------------------------- one group

  function Pow85(k: nat): (p: nat)
    ensures p > 0
  {
    if k == 0 then 1 else 85 * Pow85(k - 1)
  }

  /** The last k digits of w as letters, the most significant first. */
  function Letters(w: nat, k: nat): (g: seq<byte>)
    ensures |g| == k
  {
    if k == 0 then [] else Letters(w / 85, k - 1) + [Letter(w % 85)]
  }

  ghost predicate InAlphabet(g: seq<byte>) {
    forall i :: 0 <= i < |g| ==> Digit(g[i]) > 0
  }

  function Value(g: seq<byte>): nat
    requires InAlphabet(g)
  {
    if g == [] then 0 else Value(g[..|g| - 1]) * 85 + Digit(g[|g| - 1]) - 1
  }

  lemma {:induction false} ValueOfLetters(w: nat, k: nat)
    requires w < Pow85(k)
    ensures InAlphabet(Letters(w, k)) && Value(Letters(w, k)) == w
  {
    if k > 0 {
      ValueOfLetters(w / 85, k - 1);
      DigitOfLetter(w % 85);
      assert Letters(w, k)[..k - 1] == Letters(w / 85, k - 1);
    }
  }

  lemma {:induction false} LettersOfValue(g: seq<byte>)
    requires InAlphabet(g)
    ensures Letters(Value(g), |g|) == g && Value(g) < Pow85(|g|)
  {
    if g != [] {
      var c := g[|g| - 1];
      LettersOfValue(g[..|g| - 1]);
      LetterOfDigit(c);
      assert Value(g) / 85 == Value(g[..|g| - 1]) && Value(g) % 85 == Digit(c) - 1;
      assert g == g[..|g| - 1] + [c];
    }
  }

  /** Byte i of a block, or the zero it is padded with. */
  function At(b: seq<byte>, i: nat): byte { if i < |b| then b[i] else 0 }

  function Compose(b0: byte, b1: byte, b2: byte, b3: byte): (w: nat)
    ensures w < WORD
  {
    b0 * 0x100_0000 + b1 * 0x1_0000 + b2 * 0x100 + b3
  }

  function Word(b: seq<byte>): (w: nat)
    ensures w < WORD
  {
    Compose(At(b, 0), At(b, 1), At(b, 2), At(b, 3))
  }

  function Bytes(w: nat): (b: seq<byte>)
    ensures |b| == 4
  {
    [w / 0x100_0000 % 256, w / 0x1_0000 % 256, w / 0x100 % 256, w % 256]
  }

  lemma ComposedBytes(b0: byte, b1: byte, b2: byte, b3: byte)
    ensures Bytes(Compose(b0, b1, b2, b3)) == [b0, b1, b2, b3]
  {
    var w := Compose(b0, b1, b2, b3);
    assert w / 0x100_0000 == b0 && w / 0x1_0000 == b0 * 256 + b1 && w / 0x100 == (b0 * 256 + b1) * 256 + b2;
  }

  lemma BytesOfWord(b: seq<byte>)
    requires |b| <= 4
    ensures Bytes(Word(b))[..|b|] == b
  {
    hide Bytes, Compose;
    ComposedBytes(At(b, 0), At(b, 1), At(b, 2), At(b, 3));
  }

  lemma WordOfBytes(w: nat)
    requires w < WORD
    ensures Word(Bytes(w)) == w
  {
    var a, b, c := w / 0x100, w / 0x1_0000, w / 0x100_0000;
    assert w == a * 256 + w % 256;
    assert b == a / 256 && a == b * 256 + a % 256;
    assert c == b / 256 && b == c * 256 + b % 256;
  }

  // ------------------------------------------------------------------- the codec

  function Encode(d: seq<byte>): (s: seq<byte>)
    ensures |s| == (|d| + 3) / 4 * 5
  {
    if d == [] then [] else
      var n := Min(4, |d|);
      assert |d| >= 4 ==> (|d| + 3) / 4 == (|d| - 4 + 3) / 4 + 1;
      Letters(Word(d[..n]), 5) + Encode(d[n..])
  }

  /** What the decoder accepts as one group. */
  ghost predicate Accepted(g: seq<byte>) { |g| == 5 && InAlphabet(g) && Value(g) < WORD }

  ghost function DecodeGroups(s: seq<byte>, n: nat): (r: Option<seq<byte>>)
    ensures r.Some? ==> |r.value| == n
    decreases n
  {
    if n == 0 then Some([])
    else if |s| < 5 || !Accepted(s[..5]) then None
    else
      var k := Min(4, n);
      match DecodeGroups(s[5..], n - k)
      case None => None
      case Some(rest) => Some(Bytes(Value(s[..5]))[..k] + rest)
  }

  ghost function Decode(s: seq<byte>, n: nat): (r: Option<seq<byte>>)
    ensures r.Some? ==> |r.value| == n
  {
    if |s| % 5 != 0 || n > |s| * 4 / 5 then None else DecodeGroups(s, n)
  }

  lemma LettersAccepted(w: nat)
    requires w < WORD
    ensures Accepted(Letters(w, 5)) && Value(Letters(w, 5)) == w
  {
    assert Pow85(5) == 4437053125;
    hide Letters;
    ValueOfLetters(w, 5);
  }

  lemma EncodeFirst(d: seq<byte>)
    requires d != []
    ensures var n := Min(4, |d|);
            Encode(d)[..5] == Letters(Word(d[..n]), 5) && Encode(d)[5..] == Encode(d[n..])
  {
    hide Word, Letters;
  }

  /** decode(encode(d)) == d for all byte strings, partial last blocks included. */
  lemma {:induction false} RoundTrip(d: seq<byte>)
    ensures Decode(Encode(d), |d|) == Some(d)
  {
    hide Letters, Word, Bytes, Value, Accepted, Encode;
    if d != [] {
      var n := Min(4, |d|);
      RoundTrip(d[n..]);
      LettersAccepted(Word(d[..n]));
      BytesOfWord(d[..n]);
      EncodeFirst(d);
      assert d == d[..n] + d[n..];
    }
  }

  /** Group k of s exists and can be decoded. */
  ghost predicate GroupAccepted(s: seq<byte>, k: nat) { 5 * k + 5 <= |s| && Accepted(s[5 * k..5 * k + 5]) }

  lemma GroupBehind(s: seq<byte>, k: nat)
    requires |s| >= 5
    ensures GroupAccepted(s[5..], k) == GroupAccepted(s, k + 1)
  {
    hide Accepted;
    if 5 * k + 10 <= |s| { assert s[5..][5 * k..5 * k + 5] == s[5 * (k + 1)..5 * (k + 1) + 5]; }
  }

  /** The decoder accepts exactly: whole groups, enough of them, and each group that is
      needed made of letters and of a value below 2^32. */
  lemma {:induction false} DecodeAccepts(s: seq<byte>, n: nat)
    ensures Decode(s, n).Some? <==>
            |s| % 5 == 0 && n <= |s| * 4 / 5 && forall k: nat :: k < (n + 3) / 4 ==> GroupAccepted(s, k)
    decreases n
  {
    if |s| % 5 == 0 && n <= |s| * 4 / 5 && n > 0 {
      var m := n - Min(4, n);
      DecodeAccepts(s[5..], m);
      hide Accepted, Value, Bytes;
      assert s[5 * 0..5 * 0 + 5] == s[..5];
      assert GroupAccepted(s, 0) == Accepted(s[..5]);
      assert Decode(s, n).Some? == (GroupAccepted(s, 0) && Decode(s[5..], m).Some?);
      hide GroupAccepted, Decode;
      if Decode(s, n).Some? {
        forall k: nat | k < (n + 3) / 4 ensures GroupAccepted(s, k) {
          if k > 0 { GroupBehind(s, k - 1); }
        }
      } else if forall k: nat :: k < (n + 3) / 4 ==> GroupAccepted(s, k) {
        forall k: nat | k < (m + 3) / 4 ensures GroupAccepted(s[5..], k) { GroupBehind(s, k); }
        assert false;
      }
    }
  }

  /** On whole blocks the decoder is injective: encoding what it returns gives its input. */
  lemma {:induction false} DecodeEncodes(s: seq<byte>, d: seq<byte>)
    requires Decode(s, |d|) == Some(d) && |d| == |s| / 5 * 4
    ensures Encode(d) == s
  {
    if d != [] {
      var g := s[..5];
      DecodeEncodes(s[5..], d[4..]);
      assert d[..4] == Bytes(Value(g));
      WordOfBytes(Value(g));
      LettersOfValue(g);
      assert s == g + s[5..];
    }
  }

  // ------------------------------------------------------------ groups, written out

  /** The digits, the capital and the small letters, and 23 other characters. */
  function Sign(v: nat): nat
    requires v < 85
  {
    if v < 10 then 48 + v else if v < 36 then 55 + v else if v < 62 then 61 + v
    else "!#$%&()*+-;<=>?@^_`{|}~"[v - 62] as int
  }

  lemma SignIs(v: nat)
    requires v < 85
    ensures Sign(v) == Letter(v)
  {
  }

  /** Five characters of the alphabet, and the digits they stand for. */
  ghost predicate Stands(g: seq<byte>, vs: seq<nat>) {
    |g| == |vs| == 5 && forall i :: 0 <= i < 5 ==> vs[i] < 85 && g[i] as int == Sign(vs[i])
  }

  /** The number that five digits to the base 85 make, the first one the most significant. */
  function Number(vs: seq<nat>): nat
    requires |vs| == 5
  {
    vs[0] * 52200625 + vs[1] * 614125 + vs[2] * 7225 + vs[3] * 85 + vs[4]
  }

  lemma StandsDigits(g: seq<byte>, vs: seq<nat>)
    requires Stands(g, vs)
    ensures InAlphabet(g) && Value(g) == Number(vs)
  {
    hide Digit, Letter, Value, Sign;
    forall i | 0 <= i < 5 ensures Digit(g[i]) == vs[i] + 1 {
      SignIs(vs[i]);
      DigitOfLetter(vs[i]);
    }
    ValueOfFive(g);
  }

  lemma ValueOfFive(g: seq<byte>)
    requires |g| == 5 && InAlphabet(g)
    ensures Value(g) == (Digit(g[0]) - 1) * 52200625 + (Digit(g[1]) - 1) * 614125 + (Digit(g[2]) - 1) * 7225 + (Digit(g[3]) - 1) * 85 + Digit(g[4]) - 1
  {
    hide Digit;
    assert g[..4][..3] == g[..3] && g[..3][..2] == g[..2] && g[..2][..1] == g[..1] && g[..1][..0] == [];
    assert Value(g[..1]) == Digit(g[0]) - 1;
    assert Value(g[..2]) == Value(g[..1]) * 85 + Digit(g[1]) - 1;
    assert Value(g[..3]) == Value(g[..2]) * 85 + Digit(g[2]) - 1;
    assert Value(g[..4]) == Value(g[..3]) * 85 + Digit(g[3]) - 1;
  }

  lemma DigitsOf(g: seq<byte>) returns (vs: seq<nat>)
    requires |g| == 5 && InAlphabet(g)
    ensures Stands(g, vs)
  {
    forall i | 0 <= i < 5 ensures 0 < Digit(g[i]) <= 85 && Letter(Digit(g[i]) - 1) == g[i] { LetterOfDigit(g[i]); }
    hide Digit, Letter, Sign;
    vs := seq(5, i requires 0 <= i < 5 => Digit(g[i]) - 1);
    forall i | 0 <= i < 5 ensures vs[i] < 85 && g[i] as int == Sign(vs[i]) { SignIs(vs[i]); }
  }

  /** The encoding of a block of four bytes, or of a last one that is filled up with zeros:
      five characters for the number that the bytes make, the first one the most significant. */
  lemma BlockEncoded(b: seq<byte>, rest: seq<byte>) returns (vs: seq<nat>)
    requires |b| == 4 || (0 < |b| < 4 && rest == [])
    ensures Encode(b + rest)[5..] == Encode(rest) && Stands(Encode(b + rest)[..5], vs)
    ensures Number(vs) == b[0] as int * 16777216 + (if |b| > 1 then b[1] as int * 65536 else 0)
                          + (if |b| > 2 then b[2] as int * 256 else 0) + (if |b| > 3 then b[3] as int else 0)
  {
    hide Letters, Value, Word, Number, Stands, Encode, InAlphabet;
    var d := b + rest;
    EncodeFirst(d);
    assert d[..Min(4, |d|)] == b && d[Min(4, |d|)..] == rest;
    LettersAccepted(Word(b));
    vs := DigitsOf(Letters(Word(b), 5));
    StandsDigits(Letters(Word(b), 5), vs);
    WordIs(b);
  }

  lemma WordIs(b: seq<byte>)
    requires 0 < |b| <= 4
    ensures Word(b) == b[0] as int * 16777216 + (if |b| > 1 then b[1] as int * 65536 else 0)
                       + (if |b| > 2 then b[2] as int * 256 else 0) + (if |b| > 3 then b[3] as int else 0)
  {
  }

  /** A group is accepted exactly if it is five characters of the alphabet whose number is less
      than 2 to the 32nd. */
  lemma AcceptedExact(g: seq<byte>)
    ensures Accepted(g) <==> exists vs: seq<nat> :: Stands(g, vs) && Number(vs) < 4294967296
  {
    hide Value, Digit;
    if Accepted(g) {
      var vs := DigitsOf(g);
      StandsDigits(g, vs);
    }
    if vs: seq<nat> :| Stands(g, vs) && Number(vs) < 4294967296 { StandsDigits(g, vs); }
  }

  // --------------------------------------------------------------------- the code

  /** What is left to encode after k bytes of the data. */
  lemma EncodeNext(data: seq<byte>, p: nat, n: nat)
    requires p + n <= |data| && n == Min(4, |data| - p) && n > 0
    ensures Encode(data[p..]) == Letters(Word(data[p..p + n]), 5) + Encode(data[p + n..])
  {
    hide Letters, Word;
    assert data[p..][..n] == data[p..p + n] && data[p..][n..] == data[p + n..];
  }

  function Shifted(ch: byte, i: nat): nat
    requires i == 0 || i == 8 || i == 16 || i == 24
  {
    if i == 0 then ch else if i == 8 then ch * 0x100 else if i == 16 then ch * 0x1_0000 else ch * 0x100_0000
  }

  lemma WordSnoc(b: seq<byte>, ch: byte)
    requires |b| < 4
    ensures Word(b + [ch]) == Word(b) + Shifted(ch, 24 - 8 * |b|)
  {
    AtSnoc(b, ch, 0);
    AtSnoc(b, ch, 1);
    AtSnoc(b, ch, 2);
    AtSnoc(b, ch, 3);
    AtPadding(b, |b|);
    hide At;
  }

  lemma AtSnoc(b: seq<byte>, ch: byte, i: nat)
    ensures At(b + [ch], i) == if i == |b| then ch else At(b, i)
  {
  }

  lemma AtPadding(b: seq<byte>, i: nat)
    requires |b| <= i
    ensures At(b, i) == 0
  {
  }

  /** Collects up to four bytes in a word, the first one in the highest place. */
  method ReadWord(data: seq<byte>, p: nat) returns (acc: nat, n: nat)
    requires p < |data|
    ensures n == Min(4, |data| - p) && acc == Word(data[p..p + n])
  {
    hide Word, Shifted;
    var len := |data| - p;
    acc, n := 0, 0;
    var i := 24;
    WordEmpty();
    assert data[p..p] == [];
    while i >= 0
      invariant i == 24 - 8 * n && n <= 4 && n + len == |data| - p && (n == 4 || len > 0) && p + n <= |data|
      invariant acc == Word(data[p..p + n])
    {
      var ch := data[p + n];
      assert data[p..p + n] + [ch] == data[p..p + n + 1];
      WordSnoc(data[p..p + n], ch);
      acc := acc + Shifted(ch, i);
      n, len := n + 1, len - 1;
      if len == 0 { break; }
      i := i - 8;
    }
  }

  lemma WordEmpty()
    ensures Word([]) == 0
  {
  }

  /** The letters of a word, from the last one on. */
  method FiveLetters(word: nat) returns (b85: array<byte>)
    ensures fresh(b85) && b85.Length == 5 && b85[..] == Letters(word, 5)
  {
    var acc := word;
    b85 := new byte[5];
    var i := 4;
    while i >= 0
      invariant -1 <= i <= 4 && Letters(word, 5) == Letters(acc, i + 1) + b85[i + 1..]
    {
      b85[i] := Letter(acc % 85);
      assert b85[i..] == [Letter(acc % 85)] + b85[i + 1..];
      acc := acc / 85;
      i := i - 1;
    }
    assert b85[..] == Letters(word, 5);
  }

  /** Appends the five letters of a word. */
  method WriteGroup(buf: Buf, word: nat)
    requires buf.Valid() && buf.size + 5 < buf.ptr.Length
    modifies buf`size, buf.ptr
    ensures buf.Valid() && buf.ptr == old(buf.ptr) && buf.Text() == old(buf.Text()) + Letters(word, 5)
  {
    var b85 := FiveLetters(word);
    hide Letters;
    for k := 0 to 5
      invariant buf.Valid() && buf.ptr == old(buf.ptr) && b85[..] == Letters(word, 5)
      invariant buf.size == old(buf.size) + k && buf.Text() == old(buf.Text()) + b85[..k]
    {
      buf.Store(b85[k]);
      assert b85[..k + 1] == b85[..k] + [b85[k]];
    }
    assert b85[..5] == b85[..];
  }

  /** git_buf_encode_base85 */
  method GitBufEncodeBase85(buf: Buf, data: seq<byte>)
    requires buf.Valid()
    modifies buf, buf.ptr
    ensures buf.Valid() && buf.Text() == old(buf.Text()) + Encode(data)
  {
    hide Encode, Letters, Word;
    var blocks := |data| / 4 + if |data| % 4 == 0 then 0 else 1;
    buf.EnsureSize(blocks * 5 + buf.size + 1);
    ghost var start := buf.Text();
    var p := 0;
    assert data[0..] == data;
    while p < |data|
      invariant p <= |data| && buf.Valid() && (buf.ptr == old(buf.ptr) || fresh(buf.ptr))
      invariant buf.size + (|data| - p + 3) / 4 * 5 + 1 < buf.ptr.Length
      invariant start + Encode(data) == buf.Text() + Encode(data[p..])
    {
      var acc, n := ReadWord(data, p);
      EncodeNext(data, p, n);
      ghost var before := buf.Text();
      WriteGroup(buf, acc);
      Regroup(before, Letters(acc, 5), Encode(data[p + n..]));
      p := p + n;
    }
    assert data[p..] == [];
    EncodeNothing();
    buf.Terminate();
  }

  lemma Regroup(a: seq<byte>, b: seq<byte>, c: seq<byte>)
    ensures a + b + c == a + (b + c)
  {
  }

  lemma EncodeNothing()
    ensures Encode([]) == []
  {
  }

  lemma ValueSnoc(g: seq<byte>, c: byte)
    ensures InAlphabet(g + [c]) == (InAlphabet(g) && Digit(c) > 0)
    ensures InAlphabet(g + [c]) ==> Value(g + [c]) == Value(g) * 85 + Digit(c) - 1
  {
    hide Digit;
    assert (g + [c])[|g|] == c && (g + [c])[..|g|] == g;
    if InAlphabet(g + [c]) {
      forall i | 0 <= i < |g| ensures Digit(g[i]) > 0 { assert (g + [c])[i] == g[i]; }
    }
  }

  lemma PrefixInAlphabet(g: seq<byte>, k: nat)
    requires k <= |g| && InAlphabet(g)
    ensures InAlphabet(g[..k])
  {
  }

  /** Four letters fit in a word; the fifth is added only if the result does. */
  method ReadGroup(s: seq<byte>, p: nat) returns (ok: bool, acc: nat)
    requires p + 5 <= |s|
    ensures ok == Accepted(s[p..p + 5]) && (ok ==> acc == Value(s[p..p + 5]))
  {
    hide InAlphabet, Value, Digit;
    ghost var g := s[p..p + 5];
    acc := 0;
    ok := true;
    assert InAlphabet(g[..0]) && Value(g[..0]) == 0 by { ValueEmpty(); assert g[..0] == []; }
    for k := 0 to 4
      invariant InAlphabet(g[..k]) && acc == Value(g[..k])
    {
      var de := Digit(s[p + k]) - 1;
      assert g[..k + 1] == g[..k] + [s[p + k]];
      ValueSnoc(g[..k], s[p + k]);
      if de < 0 {
        if InAlphabet(g) { PrefixInAlphabet(g, k + 1); }
        return false, 0;
      }
      acc := (acc * 85 + de) % WORD;
      ValueFits(g[..k + 1]);
    }
    var de := Digit(s[p + 4]) - 1;
    assert g == g[..4] + [s[p + 4]];
    ValueSnoc(g[..4], s[p + 4]);
    if de < 0 { return false, 0; }
    if UINT_MAX / 85 < acc || UINT_MAX - de < acc * 85 { return false, 0; }
    acc := acc * 85 + de;
  }

  lemma ValueEmpty()
    ensures InAlphabet([]) && Value([]) == 0
  {
  }

  lemma {:induction false} ValueFits(g: seq<byte>)
    requires |g| <= 4 && InAlphabet(g)
    ensures Value(g) < Pow85(4) < WORD
  {
    LettersOfValue(g);
    assert Pow85(4) == 52200625 && Pow85(3) == 614125 && Pow85(2) == 7225 && Pow85(1) == 85;
  }

  /** `acc << 8 | acc >> 24` */
  function Turn(acc: nat): nat { acc * 256 % WORD + acc / 0x100_0000 }

  function Turned(w: nat, k: nat): nat { if k == 0 then w else Turn(Turned(w, k - 1)) }

  lemma TurnComposed(b0: byte, b1: byte, b2: byte, b3: byte)
    ensures Turn(Compose(b0, b1, b2, b3)) == Compose(b1, b2, b3, b0) && Compose(b1, b2, b3, b0) % 256 == b0
  {
    var low: nat := b1 * 0x1_0000 + b2 * 0x100 + b3;
    TurnHigh(b0, low);
    assert Compose(b0, b1, b2, b3) == b0 * 0x100_0000 + low && Compose(b1, b2, b3, b0) == low * 256 + b0;
  }

  lemma TurnHigh(high: byte, low: nat)
    requires low < 0x100_0000
    ensures Turn(high * 0x100_0000 + low) == low * 256 + high && (low * 256 + high) % 256 == high
  {
    var w := high * 0x100_0000 + low;
    assert w * 256 == high * WORD + low * 256;
  }

  /** Turning brings the bytes of a word to the lowest place one after the other. */
  lemma TurnedByte(w: nat, k: nat)
    requires w < WORD && k < 4
    ensures Turned(w, k + 1) % 256 == Bytes(w)[k]
  {
    var b := Bytes(w);
    WordOfBytes(w);
    assert w == Compose(b[0], b[1], b[2], b[3]);
    hide Compose, Turn, Bytes;
    TurnComposed(b[0], b[1], b[2], b[3]);
    TurnComposed(b[1], b[2], b[3], b[0]);
    TurnComposed(b[2], b[3], b[0], b[1]);
    TurnComposed(b[3], b[0], b[1], b[2]);
    assert Turned(w, 0) == w;
    assert Turned(w, 1) == Compose(b[1], b[2], b[3], b[0]);
    assert Turned(w, 2) == Compose(b[2], b[3], b[0], b[1]);
    assert Turned(w, 3) == Compose(b[3], b[0], b[1], b[2]);
  }

  /** Appends the first cnt bytes of a word, the highest first. */
  method WriteBytes(buf: Buf, word: nat, cnt: nat)
    requires buf.Valid() && word < WORD && 0 < cnt <= 4 && buf.size + cnt < buf.ptr.Length
    modifies buf`size, buf.ptr
    ensures buf.Valid() && buf.ptr == old(buf.ptr) && buf.Text() == old(buf.Text()) + Bytes(word)[..cnt]
  {
    hide Bytes, Turn;
    var acc := word;
    for k := 0 to cnt
      invariant buf.Valid() && buf.ptr == old(buf.ptr) && buf.size == old(buf.size) + k
      invariant acc == Turned(word, k) && buf.Text() == old(buf.Text()) + Bytes(word)[..k]
    {
      acc := Turn(acc);
      TurnedByte(word, k);
      buf.Store(acc % 256);
      assert Bytes(word)[..k + 1] == Bytes(word)[..k] + [Bytes(word)[k]];
    }
  }

  lemma DecodeNext(s: seq<byte>, p: nat, n: nat, groups: nat)
    requires |s| == p + 5 * groups && 0 < n <= 4 * groups
    ensures var k := Min(4, n);
            DecodeGroups(s[p..], n) ==
                 if !Accepted(s[p..p + 5]) then None
                 else match DecodeGroups(s[p + 5..], n - k)
                      case None => None
                      case Some(rest) => Some(Bytes(Value(s[p..p + 5]))[..k] + rest)
  {
    hide Accepted, Bytes, Value;
    assert s[p..][..5] == s[p..p + 5] && s[p..][5..] == s[p + 5..];
  }

  /** git_buf_decode_base85: appends the decoded bytes, or leaves the text as it was. */
  method GitBufDecodeBase85(buf: Buf, base85: seq<byte>, outputLen: nat) returns (ok: bool)
    requires buf.Valid()
    modifies buf, buf.ptr
    ensures buf.Valid() && ok == Decode(base85, outputLen).Some?
    ensures buf.Text() == old(buf.Text()) + if ok then Decode(base85, outputLen).value else []
  {
    hide Accepted, Bytes, Value, DecodeGroups, Continues, InAlphabet, Number, Stands;
    if |base85| % 5 != 0 || outputLen > |base85| * 4 / 5 { return false; }
    ghost var start := buf.Text();
    var origSize := buf.size;
    buf.EnsureSize(outputLen + buf.size + 1);
    var p: nat, left: nat := 0, outputLen;
    assert base85[0..] == base85;
    ghost var done: seq<byte> := [];
    ContinuesStart(DecodeGroups(base85, outputLen));
    ghost var groups: nat := |base85| / 5;
    while left > 0
      invariant |base85| == p + 5 * groups && left <= 4 * groups
      invariant buf.Valid() && (buf.ptr == old(buf.ptr) || fresh(buf.ptr)) && buf.size + left + 1 < buf.ptr.Length
      invariant origSize == |start| && buf.Text() == start + done
      invariant Continues(DecodeGroups(base85, outputLen), done, DecodeGroups(base85[p..], left))
    {
      var r, acc := ReadGroup(base85, p);
      DecodeNext(base85, p, left, groups);
      groups := groups - 1;
      if !r {
        ContinuesNone(DecodeGroups(base85, outputLen), done);
        buf.Truncate(origSize);
        return false;
      }
      var cnt: nat := if left < 4 then left else 4;
      AcceptedFits(base85[p..p + 5]);
      ContinuesNext(DecodeGroups(base85, outputLen), done, Bytes(acc)[..cnt], DecodeGroups(base85[p + 5..], left - cnt));
      done := done + Bytes(acc)[..cnt];
      WriteBytes(buf, acc, cnt);
      left := left - cnt;
      p := p + 5;
    }
    DecodeDone(base85[p..]);
    ContinuesDone(DecodeGroups(base85, outputLen), done);
    buf.Terminate();
    return true;
  }

  lemma AcceptedFits(g: seq<byte>)
    ensures Accepted(g) ==> Value(g) < WORD
  {
  }

  lemma DecodeDone(s: seq<byte>)
    ensures DecodeGroups(s, 0) == Some([])
  {
  }
}
