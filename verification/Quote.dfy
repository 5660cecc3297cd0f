/** C-style quoting of paths (buffer.c): quoting, and unquoting in place. */
module Quote {
  import opened Common
  import opened Buffer

  const DQUOTE: byte := 34
  const BACKSLASH: byte := 92

  // --------------------------------------------------------------------- quoting

  /** A byte as the `char` that the code compares. */
  function Signed(c: byte): int { if c < 128 then c else c - 256 }

  predicate Quotable(c: byte) { c == DQUOTE || c == BACKSLASH || c < 32 || c > 126 }

  ghost predicate NeedsQuote(s: seq<byte>) {
    (s != [] && s[0] == 33) || exists i :: 0 <= i < |s| && Quotable(s[i])
  }

  /** The letters for the bytes 7 to 13: abtnvfr. */
  function Whitespace(k: nat): (c: byte)
    requires k < 7
  {
    match k case 0 => 97 case 1 => 98 case 2 => 116 case 3 => 110 case 4 => 118 case 5 => 102 case _ => 114
  }

  function Escape(c: byte): (e: seq<byte>) {
    if 7 <= c <= 13 then [BACKSLASH, Whitespace(c - 7)]
    else if c == DQUOTE || c == BACKSLASH then [BACKSLASH, c]
    else if c < 32 || c > 126 then [BACKSLASH, 48 + c / 64, 48 + c / 8 % 8, 48 + c % 8]
    else [c]
  }

  function EscapeAll(s: seq<byte>): seq<byte> {
    if s == [] then [] else Escape(s[0]) + EscapeAll(s[1..])
  }

  ghost function Quoted(s: seq<byte>): seq<byte> {
    if NeedsQuote(s) then [DQUOTE] + EscapeAll(s) + [DQUOTE] else s
  }

  // ------------------------------------------------------------------- unquoting

  predicate IsOctal(c: byte) { 48 <= c <= 55 }

  /** The byte that the head of b stands for, and the length of that head. */
  function Next(b: seq<byte>): (r: Option<(byte, nat)>)
    requires b != []
    ensures r.Some? ==> 0 < r.value.1 <= |b|
  {
    if b[0] != BACKSLASH then Some((b[0], 1))
    else if |b| == 1 then None
    else if b[1] == DQUOTE || b[1] == BACKSLASH then Some((b[1], 2))
    else if 48 <= b[1] <= 51 then
      if |b| < 4 || !IsOctal(b[2]) || !IsOctal(b[3]) then None
      else Some(((b[1] - 48) * 64 + (b[2] - 48) * 8 + (b[3] - 48), 4))
    else
      match b[1]
      case 97 => Some((7, 2)) case 98 => Some((8, 2)) case 102 => Some((12, 2)) case 110 => Some((10, 2))
      case 114 => Some((13, 2)) case 116 => Some((9, 2)) case 118 => Some((11, 2)) case _ => None
  }

  function Unescape(b: seq<byte>): (r: Option<seq<byte>>) {
    if b == [] then Some([])
    else
      match Next(b)
      case None => None
      case Some((c, n)) =>
        match Unescape(b[n..])
        case None => None
        case Some(rest) => Some([c] + rest)
  }

  function Unquoted(s: seq<byte>): Option<seq<byte>> {
    var t := Rtrim(s);
    if |t| < 2 || t[0] != DQUOTE || t[|t| - 1] != DQUOTE then None else Unescape(t[1..|t| - 1])
  }

  /** The characters that can be read before the first invalid escape sequence. */
  function Readable(b: seq<byte>): (r: seq<byte>)
    ensures |r| <= |b|
  {
    if b == [] then []
    else
      match Next(b)
      case None => []
      case Some((c, n)) => [c] + Readable(b[n..])
  }

  /** What a text is left as that cannot be unquoted: trimmed, and with the readable
      characters written over its beginning. */
  function Spoiled(s: seq<byte>): seq<byte> {
    var t := Rtrim(s);
    if |t| < 2 || t[0] != DQUOTE || t[|t| - 1] != DQUOTE then t
    else
      var d := Readable(t[1..|t| - 1]);
      d + t[|d|..]
  }

  // ------------------------------------------------------------------ round trip

  lemma NextOfEscape(c: byte, rest: seq<byte>)
    ensures Next(Escape(c) + rest) == Some((c, |Escape(c)|))
  {
    if 7 <= c <= 13 {
    } else if c == DQUOTE || c == BACKSLASH {
    } else if c < 32 || c > 126 {
      var e := Escape(c) + rest;
      assert e[1] == 48 + c / 64 && e[2] == 48 + c / 8 % 8 && e[3] == 48 + c % 8;
      OctalDigits(c);
    }
  }

  lemma OctalDigits(c: byte)
    ensures c == c / 64 * 64 + c / 8 % 8 * 8 + c % 8
  {
    var h := c / 8;
    assert c == h * 8 + c % 8 && h == h / 8 * 8 + h % 8 && h / 8 == c / 64;
  }

  lemma {:induction false} UnescapeEscaped(s: seq<byte>)
    ensures Unescape(EscapeAll(s)) == Some(s)
  {
    if s != [] {
      var rest := EscapeAll(s[1..]);
      UnescapeEscaped(s[1..]);
      NextOfEscape(s[0], rest);
      hide Escape, Next;
      assert (Escape(s[0]) + rest)[|Escape(s[0])|..] == rest;
      assert s == [s[0]] + s[1..];
    }
  }

  /** Whatever quoting changes, unquoting restores. */
  lemma RoundTrip(s: seq<byte>)
    requires NeedsQuote(s)
    ensures Unquoted(Quoted(s)) == Some(s)
  {
    hide Escape, Next, EscapeAll;
    var q := Quoted(s);
    assert q[|q| - 1] == DQUOTE && Rtrim(q) == q;
    assert q[1..|q| - 1] == EscapeAll(s);
    UnescapeEscaped(s);
  }

  lemma QuotedNeedsQuote(s: seq<byte>)
    requires NeedsQuote(s)
    ensures NeedsQuote(Quoted(s))
  {
    hide EscapeAll;
    assert Quoted(s)[0] == DQUOTE && Quotable(Quoted(s)[0]);
  }

  /** Quoting is injective, although it leaves some texts alone. */
  lemma QuotedInjective(a: seq<byte>, b: seq<byte>)
    requires Quoted(a) == Quoted(b)
    ensures a == b
  {
    hide Unquoted, EscapeAll;
    if NeedsQuote(a) { RoundTrip(a); QuotedNeedsQuote(a); }
    if NeedsQuote(b) { RoundTrip(b); QuotedNeedsQuote(b); }
    hide NeedsQuote;
  }

  // ------------------------------------------------------------- quoting, written out

  /** Printable ASCII. */
  predicate Visible(c: byte) { 32 <= c <= 126 }

  lemma {:induction false} EscapedVisible(s: seq<byte>)
    ensures forall i :: 0 <= i < |EscapeAll(s)| ==> Visible(EscapeAll(s)[i])
  {
    if s != [] {
      EscapedVisible(s[1..]);
      OneVisible(s[0]);
      hide Escape, Visible;
    }
  }

  lemma OneVisible(c: byte)
    ensures forall i :: 0 <= i < |Escape(c)| ==> Visible(Escape(c)[i])
  {
  }

  /** A text is left alone exactly if all its characters are printable ASCII, none of them a
      double quote or a backslash, and the first one no exclamation mark; whatever is quoted
      is printable ASCII. */
  lemma QuotedExact(s: seq<byte>)
    ensures Quoted(s) == s <==>
            (forall i :: 0 <= i < |s| ==> 32 <= s[i] <= 126 && s[i] != 34 && s[i] != 92) && (s == [] || s[0] != 33)
    ensures Quoted(s) != s ==> |Quoted(s)| >= 2 && Quoted(s)[0] == 34 == Quoted(s)[|Quoted(s)| - 1]
    ensures forall i :: 0 <= i < |Quoted(s)| ==> 32 <= Quoted(s)[i] <= 126
  {
    hide EscapeAll, Escape;
    EscapedVisible(s);
    EscapedLength(s);
    if NeedsQuote(s) { assert |Quoted(s)| > |s|; }
  }

  lemma {:induction false} EscapedLength(s: seq<byte>)
    ensures |EscapeAll(s)| >= |s|
  {
    if s != [] { EscapedLength(s[1..]); }
  }

  /** Wherever it stands, a control character of C has its letter, a quote and a backslash have
      a backslash before them, and every other byte outside printable ASCII has three octal
      digits. */
  lemma EscapedInside(a: seq<byte>, c: byte, b: seq<byte>) returns (e: seq<byte>)
    ensures EscapeAll(a + [c] + b) == EscapeAll(a) + e + EscapeAll(b)
    ensures if 7 <= c <= 13 then e == [92, "abtnvfr"[c - 7] as int % 256]
            else if c == 34 || c == 92 then e == [92, c]
            else if 32 <= c <= 126 then e == [c]
            else OctalOf(e, c)
  {
    e := Escape(c);
    EscapeIs(c);
    hide Escape, EscapeAll, OctalOf;
    EscapeConcat(a + [c], b);
    EscapeSnoc(a, c);
  }

  /** A backslash and three octal digits. */
  ghost predicate OctalOf(e: seq<byte>, c: byte) {
    && |e| == 4 && e[0] == 92 && (forall i :: 1 <= i < 4 ==> 48 <= e[i] < 56)
    && (e[1] as int - 48) * 64 + (e[2] as int - 48) * 8 + (e[3] as int - 48) == c as int
  }

  lemma EscapeIs(c: byte)
    ensures var e := Escape(c);
            if 7 <= c <= 13 then e == [92, "abtnvfr"[c - 7] as int % 256]
            else if c == 34 || c == 92 then e == [92, c]
            else if 32 <= c <= 126 then e == [c]
            else OctalOf(e, c)
  {
    OctalDigits(c);
  }

  lemma {:induction false} EscapeConcat(a: seq<byte>, b: seq<byte>)
    ensures EscapeAll(a + b) == EscapeAll(a) + EscapeAll(b)
  {
    hide Escape;
    if a == [] {
      assert a + b == b;
    } else {
      assert (a + b)[1..] == a[1..] + b;
      EscapeConcat(a[1..], b);
    }
  }

  /** The ways to write a character between quotes. */
  ghost predicate Spells(e: seq<byte>, c: byte) {
    || (e == [c] && c != 92)
    || (e == [92, c] && (c == 34 || c == 92))
    || (7 <= c <= 13 && e == [92, "abtnvfr"[c - 7] as int % 256])
    || OctalOf(e, c)
  }

  /** What is read next is one of them, and if there is none, the text is not well formed. */
  lemma NextExact(b: seq<byte>, c: byte, n: nat)
    requires 0 < n <= |b|
    ensures Next(b) == Some((c, n)) <==> Spells(b[..n], c)
  {
    var e := b[..n];
    assert forall i :: 0 <= i < n ==> e[i] == b[i];
    if e == [92, c] { assert e[1] == b[1]; }
  }

  // -------------------------------------------------------------------- the code

  lemma {:induction false} PlainEscaped(s: seq<byte>)
    requires forall i :: 0 <= i < |s| ==> !Quotable(s[i])
    ensures EscapeAll(s) == s
  {
    if s != [] {
      PlainEscaped(s[1..]);
      assert s == [s[0]] + s[1..];
    }
  }

  lemma {:induction false} EscapeSnoc(s: seq<byte>, c: byte)
    ensures EscapeAll(s + [c]) == EscapeAll(s) + Escape(c)
  {
    hide Escape;
    if s == [] {
      assert s + [c] == [c];
    } else {
      EscapeSnoc(s[1..], c);
      assert (s + [c])[1..] == s[1..] + [c];
    }
  }

  /** The walk to the first character that needs quoting. */
  method FirstQuotable(buf: Buf) returns (quote: bool, i: nat)
    requires buf.Valid()
    ensures quote == NeedsQuote(buf.Text()) && i <= buf.size
    ensures forall k :: 0 <= k < i ==> !Quotable(buf.ptr[k])
  {
    quote, i := false, 0;
    if buf.size > 0 && Signed(buf.ptr[0]) == 33 { return true, 0; }
    while i < buf.size
      invariant i <= buf.size && forall k :: 0 <= k < i ==> !Quotable(buf.ptr[k])
    {
      var c := Signed(buf.ptr[i]);
      if c == 34 || c == 92 || c < 32 || c > 126 {
        assert Quotable(buf.Text()[i]);
        return true, i;
      }
      i := i + 1;
    }
  }

  /** Appends a character as a backslash and three octal digits. */
  method PutOctal(quoted: Buf, ch: byte)
    requires quoted.Valid()
    modifies quoted, quoted.ptr
    ensures quoted.Valid() && quoted.Text() == old(quoted.Text()) + [BACKSLASH, 48 + ch / 64, 48 + ch / 8 % 8, 48 + ch % 8]
    ensures quoted.ptr == old(quoted.ptr) || fresh(quoted.ptr)
  {
    ghost var before := quoted.Text();
    quoted.Putc(BACKSLASH);
    quoted.Putc(48 + ch / 64);
    assert quoted.Text() == before + [BACKSLASH, 48 + ch / 64];
    quoted.Putc(48 + ch / 8 % 8);
    quoted.Putc(48 + ch % 8);
  }

  /** Appends one quoted character. */
  method PutEscaped(quoted: Buf, ch: byte)
    requires quoted.Valid()
    modifies quoted, quoted.ptr
    ensures quoted.Valid() && quoted.Text() == old(quoted.Text()) + Escape(ch)
    ensures quoted.ptr == old(quoted.ptr) || fresh(quoted.ptr)
  {
    var c := Signed(ch);
    ghost var before := quoted.Text();
    if 7 <= c <= 13 {
      quoted.Putc(BACKSLASH);
      quoted.Putc(Whitespace(c - 7));
      assert quoted.Text() == before + [BACKSLASH, Whitespace(c - 7)];
    } else if c == 34 || c == 92 {
      quoted.Putc(BACKSLASH);
      quoted.Putc(ch);
      assert quoted.Text() == before + [BACKSLASH, ch];
    } else if c != 32 && (c < 33 || c > 126) {
      PutOctal(quoted, ch);
    } else {
      quoted.Putc(ch);
    }
  }

  /** Appends the quoted characters from i on. */
  method PutEscapedFrom(quoted: Buf, buf: Buf, from: nat)
    requires quoted.Valid() && buf.Valid() && quoted != buf && quoted.ptr != buf.ptr && from <= buf.size
    modifies quoted, quoted.ptr
    ensures quoted.Valid() && (quoted.ptr == old(quoted.ptr) || fresh(quoted.ptr))
    ensures quoted.Text() == old(quoted.Text()) + EscapeAll(buf.Text()[from..])
  {
    hide Escape, EscapeAll;
    ghost var s, before := buf.Text(), quoted.Text();
    EscapeNothing();
    assert s[from..from] == [];
    for i := from to buf.size
      invariant quoted.Valid() && (quoted.ptr == old(quoted.ptr) || fresh(quoted.ptr)) && quoted.ptr != buf.ptr
      invariant quoted.Text() == before + EscapeAll(s[from..i])
    {
      EscapeSnoc(s[from..i], s[i]);
      assert s[from..i + 1] == s[from..i] + [s[i]];
      PutEscaped(quoted, buf.ptr[i]);
    }
    assert s[from..buf.size] == s[from..];
  }

  lemma EscapeNothing()
    ensures EscapeAll([]) == []
  {
  }

  /** git_buf_quote */
  method GitBufQuote(buf: Buf)
    requires buf.Valid()
    modifies buf
    ensures buf.Valid() && buf.Text() == Quoted(old(buf.Text()))
  {
    hide Escape, EscapeAll, NeedsQuote, Quotable;
    ghost var s := buf.Text();
    var quote, i := FirstQuotable(buf);
    if !quote { return; }
    var quoted := new Buf();
    quoted.Putc(DQUOTE);
    PlainEscaped(s[..i]);
    quoted.Put(buf.ptr[..buf.size], 0, i);
    assert s[0..i] == s[..i] && quoted.Text() == [DQUOTE] + EscapeAll(s[..i]);
    PutEscapedFrom(quoted, buf, i);
    EscapeSplit(s, i);
    assert quoted.Text() == [DQUOTE] + (EscapeAll(s[..i]) + EscapeAll(s[i..])) == [DQUOTE] + EscapeAll(s);
    quoted.Putc(DQUOTE);
    buf.ptr, buf.size := quoted.ptr, quoted.size;
  }

  lemma {:induction false} EscapeSplit(s: seq<byte>, i: nat)
    requires i <= |s|
    ensures EscapeAll(s) == EscapeAll(s[..i]) + EscapeAll(s[i..])
  {
    hide Escape;
    if i == 0 {
      assert s[0..] == s;
    } else {
      EscapeSplit(s[1..], i - 1);
      assert s[..i][1..] == s[1..][..i - 1] && s[i..] == s[1..][i - 1..];
    }
  }

  /** git_buf_rtrim */
  method GitBufRtrim(buf: Buf)
    requires buf.Valid()
    modifies buf`size, buf.ptr
    ensures buf.Valid() && buf.ptr == old(buf.ptr) && buf.Text() == Rtrim(old(buf.Text()))
  {
    while buf.size > 0
      invariant buf.Valid() && buf.ptr == old(buf.ptr)
      invariant Rtrim(buf.Text()) == Rtrim(old(buf.Text()))
    {
      if !IsSpace(buf.ptr[buf.size - 1]) { break; }
      assert buf.Text()[..buf.size - 1] == buf.ptr[..buf.size - 1];
      buf.size := buf.size - 1;
    }
    if buf.ptr.Length > buf.size { buf.Terminate(); }
  }

  /** Reads the character at j, which may be an escape sequence; j moves to its last byte. */
  method ReadEscaped(buf: Buf, j0: nat) returns (ok: bool, ch: byte, j: nat)
    requires buf.Valid() && 1 <= j0 < buf.size - 1 && buf.ptr[buf.size - 1] == DQUOTE
    ensures var next := Next(buf.ptr[j0..buf.size - 1]);
            ok == next.Some? && (ok ==> next == Some((ch, j - j0 + 1)) && j0 <= j < buf.size - 1)
  {
    ghost var b := buf.ptr[j0..buf.size - 1];
    j := j0;
    ch := buf.ptr[j];
    assert b[0] == ch;
    if ch != BACKSLASH { return true, ch, j; }
    if j == buf.size - 2 { return false, ch, j; }
    j := j + 1;
    ch := buf.ptr[j];
    assert b[1] == ch;
    if ch == DQUOTE || ch == BACKSLASH { return true, ch, j; }
    if 48 <= ch <= 51 {
      if j == buf.size - 3 { return false, ch, j; }
      if !IsOctal(buf.ptr[j + 1]) || !IsOctal(buf.ptr[j + 2]) { return false, ch, j; }
      assert b[2] == buf.ptr[j + 1] && b[3] == buf.ptr[j + 2];
      ch := (buf.ptr[j] - 48) * 64 + (buf.ptr[j + 1] - 48) * 8 + (buf.ptr[j + 2] - 48);
      return true, ch, j + 2;
    }
    ok := true;
    match ch
    case 97 => ch := 7;
    case 98 => ch := 8;
    case 102 => ch := 12;
    case 110 => ch := 10;
    case 114 => ch := 13;
    case 116 => ch := 9;
    case 118 => ch := 11;
    case _ => ok := false;
  }

  lemma UnescapeNext(t: seq<byte>, j: nat)
    requires j < |t|
    ensures var next := Next(t[j..]);
            if next.None? then Unescape(t[j..]) == None
            else
              && j + next.value.1 <= |t|
              && Unescape(t[j..]) == match Unescape(t[j + next.value.1..])
                                     case None => None
                                     case Some(rest) => Some([next.value.0] + rest)
  {
    var next := Next(t[j..]);
    if next.Some? { assert t[j..][next.value.1..] == t[j + next.value.1..]; }
    hide Next;
  }

  lemma ReadableNext(t: seq<byte>, j: nat)
    requires j < |t|
    ensures var next := Next(t[j..]);
            if next.None? then Readable(t[j..]) == []
            else j + next.value.1 <= |t| && Readable(t[j..]) == [next.value.0] + Readable(t[j + next.value.1..])
  {
    var next := Next(t[j..]);
    if next.Some? { assert t[j..][next.value.1..] == t[j + next.value.1..]; }
    hide Next;
  }

  /** What has been read of the body, with what is left of it from j on. */
  ghost predicate Reading(body: seq<byte>, inner: seq<byte>, done: seq<byte>, j: nat)
    requires j <= |inner|
  {
    Continues(Unescape(body), done, Unescape(inner[j..])) && Continues(Some(Readable(body)), done, Some(Readable(inner[j..])))
  }

  lemma ReadingStart(inner: seq<byte>)
    requires inner != []
    ensures Reading(inner[1..], inner, [], 1)
  {
    ContinuesStart(Unescape(inner[1..]));
    ContinuesStart(Some(Readable(inner[1..])));
  }

  lemma ReadingNext(body: seq<byte>, inner: seq<byte>, done: seq<byte>, j: nat)
    requires j < |inner| && Reading(body, inner, done, j)
    ensures var next := Next(inner[j..]);
            if next.None? then Unescape(body) == None && Readable(body) == done
            else j + next.value.1 <= |inner| && Reading(body, inner, done + [next.value.0], j + next.value.1)
  {
    hide Next, Unescape, Readable, Continues;
    UnescapeNext(inner, j);
    ReadableNext(inner, j);
    var next := Next(inner[j..]);
    if next.None? {
      ContinuesNone(Unescape(body), done);
      ContinuesDone(Some(Readable(body)), done);
    } else {
      ContinuesNext(Unescape(body), done, [next.value.0], Unescape(inner[j + next.value.1..]));
      ContinuesNext(Some(Readable(body)), done, [next.value.0], Some(Readable(inner[j + next.value.1..])));
    }
  }

  lemma ReadingDone(body: seq<byte>, inner: seq<byte>, done: seq<byte>)
    requires Reading(body, inner, done, |inner|)
    ensures Unescape(body) == Some(done)
  {
    assert inner[|inner|..] == [];
    ContinuesDone(Unescape(body), done);
  }

  predicate Enclosed(t: seq<byte>) { |t| >= 2 && t[0] == DQUOTE && t[|t| - 1] == DQUOTE }

  lemma UnquotedBody(s: seq<byte>, t: seq<byte>)
    requires t == Rtrim(s)
    ensures !Enclosed(t) ==> Unquoted(s) == None && Spoiled(s) == t
    ensures Enclosed(t) ==>
              var body := t[1..|t| - 1];
              Unquoted(s) == Unescape(body) && Spoiled(s) == Readable(body) + t[|Readable(body)|..]
  {
    hide Unescape, Readable, Rtrim;
  }

  /** What is ahead of the writing index is still the old text. */
  lemma AheadSame(was: seq<byte>, t: seq<byte>, i: nat, j: nat)
    requires i <= j < |was| == |t| && was[i..] == t[i..]
    ensures was[j..|was| - 1] == t[..|t| - 1][j..]
  {
    assert forall k :: j <= k < |t| ==> was[k] == was[i..][k - i] == t[i..][k - i] == t[k];
  }

  lemma WrittenSoFar(was: seq<byte>, t: seq<byte>, done: seq<byte>, i: nat)
    requires i <= |was| == |t| && was[i..] == t[i..] && was[..i] == done
    ensures was == done + t[i..]
  {
    assert was == was[..i] + was[i..];
  }

  /** One character more is written behind those written so far. */
  lemma WrittenOne(now: seq<byte>, was: seq<byte>, t: seq<byte>, done: seq<byte>, i: nat, ch: byte)
    requires i < |was| == |t| && |done| == i && was[i..] == t[i..] && was[..i] == done && now == was[i := ch]
    ensures now[i + 1..] == t[i + 1..] && now[..i + 1] == done + [ch]
  {
    assert was[i..][1..] == was[i + 1..] && t[i..][1..] == t[i + 1..];
  }

  /** git_buf_unquote: the writing index stays behind the reading index. */
  method GitBufUnquote(buf: Buf) returns (ok: bool)
    requires buf.Valid()
    modifies buf`size, buf.ptr
    ensures buf.Valid() && buf.ptr == old(buf.ptr) && ok == Unquoted(old(buf.Text())).Some?
    ensures buf.Text() == if ok then Unquoted(old(buf.Text())).value else Spoiled(old(buf.Text()))
  {
    hide Next, Unescape, Continues, Rtrim, Readable, Reading, Unquoted, Spoiled, Signed;
    ghost var s := buf.Text();
    GitBufRtrim(buf);
    ghost var t := buf.Text();
    UnquotedBody(s, t);
    if buf.size < 2 || buf.ptr[0] != DQUOTE || buf.ptr[buf.size - 1] != DQUOTE { return false; }
    ghost var inner := t[..|t| - 1];
    ghost var body, done := inner[1..], [];
    assert body == t[1..|t| - 1];
    var i, j := 0, 1;
    ReadingStart(inner);
    assert t[..0] == done;
    while j < buf.size - 1
      invariant i < j <= buf.size - 1 && buf.size == |t| <= buf.ptr.Length && buf.Valid() && buf.ptr == old(buf.ptr)
      invariant buf.Text()[i..] == t[i..] && buf.Text()[..i] == done
      invariant Reading(body, inner, done, j)
    {
      ghost var was := buf.Text();
      AheadSame(was, t, i, j);
      assert buf.ptr[j..buf.size - 1] == was[j..|was| - 1];
      var r, ch, j' := ReadEscaped(buf, j);
      ReadingNext(body, inner, done, j);
      if !r {
        WrittenSoFar(was, t, done, i);
        return false;
      }
      buf.ptr[i] := ch;
      assert buf.Text() == was[i := ch];
      WrittenOne(buf.Text(), was, t, done, i, ch);
      done := done + [ch];
      i, j := i + 1, j' + 1;
    }
    ReadingDone(body, inner, done);
    buf.Truncate(i);
    return true;
  }
}
