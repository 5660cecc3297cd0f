/** Configuration files, writing (config_file.c): one key is set or deleted while the file
    is parsed, and everything else is copied. */
module ConfigWrite {
  import opened Common
  import opened ConfigParse

  // -------------------------------------------------------------- the lines written

  /** quotes_for_value */
  predicate NeedsQuotes(e: Text) {
    e == [] || e[0] == 32 || (exists i :: 0 <= i < |e| && CommentChar(e[i])) || e[|e| - 1] == 32
  }

  function Quotes(e: Text): Text { if NeedsQuotes(e) then [DQUOTE] + e + [DQUOTE] else e }

  function Assign(name: Text): Text { name + [32, EQUALS] }

  /** write_value, for an escaped value; without the line feed. */
  function ValueLine(name: Text, e: Text): Text {
    [9] + (Assign(name) + [32] + Quotes(e))
  }

  // ------------------------------------------------------------ what is read back

  /** The white space that escaping leaves alone. */
  predicate Bare(c: byte) { IsSpace(c) && !Escaped(c) }

  function LtrimBare(v: Text): Text { if v != [] && Bare(v[0]) then LtrimBare(v[1..]) else v }

  function RtrimBare(v: Text): Text { if v != [] && Bare(v[|v| - 1]) then RtrimBare(v[..|v| - 1]) else v }

  /** The value that a reader gets for what was written for v. */
  function Stored(v: Text): Text { if NeedsQuotes(Escape(v)) then v else LtrimBare(RtrimBare(v)) }

  lemma {:induction false} EscapeConcat(a: Text, b: Text)
    ensures Escape(a + b) == Escape(a) + Escape(b)
  {
    if a == [] {
      assert a + b == b;
    } else {
      assert (a + b)[1..] == a[1..] + b;
      EscapeConcat(a[1..], b);
    }
  }

  lemma {:induction false} UnescapeEscaped(v: Text, rest: Text)
    ensures Unescape(Escape(v) + rest) == match Unescape(rest)
                                          case Value(w) => Value(v + w)
                                          case Continued => Continued
                                          case Invalid => Invalid
  {
    hide Unescape, Escape, EscapeOne;
    EscapeHead(v);
    if v == [] {
      assert Escape(v) + rest == rest;
      if Unescape(rest).Value? { assert v + Unescape(rest).text == Unescape(rest).text; }
    } else {
      var tail := Escape(v[1..]) + rest;
      UnescapeEscaped(v[1..], rest);
      assert Escape(v) + rest == EscapeOne(v[0]) + tail;
      UnescapeOne(v[0], tail);
      if Unescape(rest).Value? { assert [v[0]] + (v[1..] + Unescape(rest).text) == v + Unescape(rest).text; }
    }
  }

  lemma EscapeHead(v: Text)
    ensures Escape(v) == if v == [] then [] else EscapeOne(v[0]) + Escape(v[1..])
  {
  }

  lemma UnescapeOne(c: byte, tail: Text)
    ensures Unescape(EscapeOne(c) + tail) == Prepend(c, Unescape(tail))
  {
    var s := EscapeOne(c) + tail;
    if Escaped(c) {
      assert s[0] == BACKSLASH && s[1] == EscapeLetter(c) && s[2..] == tail;
    } else {
      assert s[0] == c && s[1..] == tail;
    }
  }

  /** An escaped character begins and ends with white space only if it is bare. */
  lemma EscapedEdges(c: byte)
    ensures var e := EscapeOne(c);
            && (e == [c] || (|e| == 2 && !IsSpace(e[1]))) && |e| >= 1
            && IsSpace(e[0]) == IsSpace(e[|e| - 1]) == Bare(c) && (Bare(c) ==> e == [c])
  {
  }

  lemma TrimStep(h: Text, t: Text)
    requires h != [] && IsSpace(h[0]) == IsSpace(h[|h| - 1]) && (IsSpace(h[0]) ==> |h| == 1)
    ensures Ltrim(h + t) == (if IsSpace(h[0]) then Ltrim(t) else h + t)
    ensures Rtrim(t + h) == (if IsSpace(h[0]) then Rtrim(t) else t + h)
  {
    assert (h + t)[0] == h[0] && (t + h)[|t + h| - 1] == h[|h| - 1];
    if IsSpace(h[0]) { assert (h + t)[1..] == t && (t + h)[..|t + h| - 1] == t; }
  }

  lemma {:induction false} LtrimEscaped(v: Text)
    ensures Ltrim(Escape(v)) == Escape(LtrimBare(v))
  {
    if v != [] {
      hide EscapeOne, IsSpace, Escaped, Bare, Ltrim;
      LtrimEscaped(v[1..]);
      EscapedEdges(v[0]);
      TrimStep(EscapeOne(v[0]), Escape(v[1..]));
    }
  }

  lemma EscapeSnoc(v: Text, c: byte)
    ensures Escape(v + [c]) == Escape(v) + EscapeOne(c)
  {
    EscapeConcat(v, [c]);
    assert [c][1..] == [];
  }

  lemma {:induction false} RtrimEscaped(v: Text)
    ensures Rtrim(Escape(v)) == Escape(RtrimBare(v))
  {
    if v != [] {
      hide EscapeOne, IsSpace, Escaped, Bare, Rtrim, Escape;
      var n := |v| - 1;
      assert v == v[..n] + [v[n]];
      EscapeSnoc(v[..n], v[n]);
      RtrimEscaped(v[..n]);
      EscapedEdges(v[n]);
      TrimStep(EscapeOne(v[n]), Escape(v[..n]));
    } else {
      NothingEscaped();
    }
  }

  lemma NothingEscaped()
    ensures Escape([]) == [] && Rtrim([]) == [] && Ltrim([]) == []
  {
  }

  // --------------------------------------------------------- comments in such a line

  lemma {:induction false} NoComment(s: Text, i: nat, quotes: nat, backslashes: nat)
    requires i <= |s| && forall k :: i <= k < |s| ==> !CommentChar(s[k])
    ensures CommentStart(s, i, quotes, backslashes) == |s|
    decreases |s| - i
  {
    if i < |s| {
      var q := if s[i] == DQUOTE && i > 0 && s[i - 1] != BACKSLASH then quotes + 1 else quotes;
      NoComment(s, i + 1, q, if s[i] == BACKSLASH then backslashes + 1 else 0);
    }
  }

  /** Behind an opening quote, if no other quote stands without a backslash before the
      last character. */
  lemma {:induction false} NoCommentQuoted(s: Text, i: nat, backslashes: nat)
    requires 0 < i < |s| && !CommentChar(s[|s| - 1])
    requires forall k :: i <= k < |s| - 1 && s[k] == DQUOTE ==> s[k - 1] == BACKSLASH
    ensures CommentStart(s, i, 1, backslashes) == |s|
    decreases |s| - i
  {
    var b := if s[i] == BACKSLASH then backslashes + 1 else 0;
    if i == |s| - 1 {
      var q := if s[i] == DQUOTE && s[i - 1] != BACKSLASH then 2 else 1;
      NoComment(s, i + 1, q, b);
    } else {
      NoCommentQuoted(s, i + 1, b);
    }
  }

  /** Scanning the name and the equals sign counts nothing. */
  lemma {:induction false} NothingCounted(s: Text, i: nat, n: nat)
    requires i <= n <= |s| && forall k :: 0 <= k < n ==> !CommentChar(s[k]) && s[k] != DQUOTE && s[k] != BACKSLASH
    ensures CommentStart(s, i, 0, 0) == CommentStart(s, n, 0, 0)
    decreases n - i
  {
    if i < n { NothingCounted(s, i + 1, n); }
  }

  lemma {:induction false} EscapedQuotes(v: Text)
    ensures forall k :: 0 <= k < |Escape(v)| && Escape(v)[k] == DQUOTE ==> k > 0 && Escape(v)[k - 1] == BACKSLASH
  {
    if v != [] {
      EscapedQuotes(v[1..]);
      var (h, t) := (EscapeOne(v[0]), Escape(v[1..]));
      forall k | 0 <= k < |Escape(v)| && Escape(v)[k] == DQUOTE ensures k > 0 && Escape(v)[k - 1] == BACKSLASH {
        if k >= |h| { assert t[k - |h|] == DQUOTE; }
      }
    }
  }

  // ------------------------------------------------------------- values round trip

  /** A name that a variable may have. */
  ghost predicate ValidName(name: Text) { name != [] && forall i :: 0 <= i < |name| ==> KeyChar(name[i]) }

  lemma KeyCharPlain(c: byte)
    requires KeyChar(c)
    ensures !IsSpace(c) && !CommentChar(c) && c != DQUOTE && c != BACKSLASH && c != OPENING && c != EQUALS
  {
  }

  lemma AssignPlain(name: Text, x: Text)
    requires ValidName(name)
    ensures var t := Assign(name) + [32] + x;
            && |t| == |name| + 3 + |x| && !IsSpace(t[0]) && t[0] != OPENING && !CommentChar(t[0])
            && forall k :: 0 <= k < |name| + 3 ==> !CommentChar(t[k]) && t[k] != DQUOTE && t[k] != BACKSLASH
  {
    var t := Assign(name) + [32] + x;
    forall k | 0 <= k < |name| + 3 ensures !CommentChar(t[k]) && t[k] != DQUOTE && t[k] != BACKSLASH {
      if k < |name| { assert t[k] == name[k]; KeyCharPlain(name[k]); }
    }
    KeyCharPlain(name[0]);
    assert t[0] == name[0];
  }

  /** No comment is seen in a line that was written. */
  lemma NoCommentWritten(name: Text, v: Text)
    requires ValidName(name)
    ensures var t := Assign(name) + [32] + Quotes(Escape(v)); CommentStart(t, 0, 0, 0) == |t|
  {
    hide Escape;
    var e := Escape(v);
    var t, n := Assign(name) + [32] + Quotes(e), |name| + 3;
    AssignPlain(name, Quotes(e));
    if NeedsQuotes(e) {
      EscapedQuotes(v);
      assert t[n] == DQUOTE && t[n - 1] == 32;
      NothingCounted(t, 0, n);
      forall k | n + 1 <= k < |t| - 1 && t[k] == DQUOTE ensures t[k - 1] == BACKSLASH {
        assert e[k - n - 1] == t[k];
        assert e[k - n - 2] == t[k - 1];
      }
      assert t[|t| - 1] == DQUOTE;
      hide CommentStart;
      OpeningQuote(t, n);
      NoCommentQuoted(t, n + 1, 0);
    } else {
      forall k | 0 <= k < |t| ensures !CommentChar(t[k]) {
        if k >= n { assert t[k] == e[k - n]; }
      }
      NoComment(t, 0, 0, 0);
    }
  }

  lemma OpeningQuote(t: Text, n: nat)
    requires 0 < n < |t| && t[n] == DQUOTE && t[n - 1] != BACKSLASH
    ensures CommentStart(t, n, 0, 0) == CommentStart(t, n + 1, 1, 0)
  {
  }

  lemma {:induction false} RtrimBehind(a: Text, y: Text)
    requires a != [] && !IsSpace(a[|a| - 1])
    ensures Rtrim(a + y) == a + Rtrim(y)
  {
    if y == [] {
      assert a + y == a;
    } else {
      assert (a + y)[..|a + y| - 1] == a + y[..|y| - 1];
      RtrimBehind(a, y[..|y| - 1]);
    }
  }

  lemma {:induction false} NameFound(name: Text, rest: Text)
    requires forall i :: 0 <= i < |name| ==> KeyChar(name[i])
    requires rest == [] || !KeyChar(rest[0])
    ensures NameLength(name + rest) == |name|
  {
    if name == [] {
      assert name + rest == rest;
    } else {
      assert (name + rest)[1..] == name[1..] + rest;
      NameFound(name[1..], rest);
    }
  }

  lemma NameParses(name: Text, y: Text)
    requires ValidName(name)
    ensures ParseName(Assign(name) + y) == Some((name, Some(y)))
  {
    hide NameLength, Ltrim;
    var s, rest := Assign(name) + y, [32, EQUALS] + y;
    assert s == name + rest;
    NameFound(name, rest);
    assert s[..|name|] == name && s[|name|..] == rest;
    SpaceSkipped([EQUALS] + y);
    assert [32] + ([EQUALS] + y) == rest;
    assert ([EQUALS] + y)[1..] == y;
  }

  lemma SpaceSkipped(t: Text)
    requires t != [] && !IsSpace(t[0])
    ensures Ltrim([32] + t) == t
  {
    assert ([32] + t)[1..] == t;
  }

  lemma UnescapeQuoted(v: Text)
    ensures Unescape([DQUOTE] + Escape(v) + [DQUOTE]) == Value(v)
  {
    hide Escape;
    UnescapeEscaped(v, [DQUOTE]);
    assert [DQUOTE][1..] == [] && v + [] == v;
    var x := [DQUOTE] + Escape(v) + [DQUOTE];
    assert x[1..] == Escape(v) + [DQUOTE];
  }

  lemma QuotedTrimmed(e: Text)
    ensures var x := [DQUOTE] + e + [DQUOTE]; Ltrim(Rtrim([32] + x)) == x
  {
    var x := [DQUOTE] + e + [DQUOTE];
    assert ([32] + x)[|x|] == DQUOTE && ([32] + x)[1..] == x && x[0] == DQUOTE;
  }

  /** What is left of the written value when the white space around it is skipped. */
  lemma ValueTrimmed(v: Text)
    ensures var x := Ltrim(Rtrim([32] + Quotes(Escape(v)))); Unescape(x) == Value(Stored(v))
  {
    hide Escape, LtrimBare, RtrimBare, Unescape, NeedsQuotes, Ltrim, Rtrim;
    if NeedsQuotes(Escape(v)) {
      QuotedTrimmed(Escape(v));
      UnescapeQuoted(v);
    } else {
      SpaceBefore(Escape(v));
      RtrimEscaped(v);
      LtrimEscaped(RtrimBare(v));
      UnescapeAll(LtrimBare(RtrimBare(v)));
    }
  }

  lemma UnescapeAll(w: Text)
    ensures Unescape(Escape(w)) == Value(w)
  {
    hide Escape;
    UnescapeEscaped(w, []);
    assert Escape(w) + [] == Escape(w) && w + [] == w;
  }

  lemma SpaceBefore(e: Text)
    ensures Ltrim(Rtrim([32] + e)) == Ltrim(Rtrim(e))
  {
    RtrimSpace(e);
    if Rtrim(e) != [] { assert ([32] + Rtrim(e))[1..] == Rtrim(e); }
  }

  lemma {:induction false} RtrimSpace(e: Text)
    ensures Rtrim([32] + e) == if Rtrim(e) == [] then [] else [32] + Rtrim(e)
  {
    if e != [] {
      assert ([32] + e)[..|e|] == [32] + e[..|e| - 1];
      RtrimSpace(e[..|e| - 1]);
    } else {
      assert [32] + e == [32] && [32][..0] == [];
    }
  }

  /** What is written for a value is read back as a variable of that name, with the value
      as far as it is stored. */
  lemma ValueLineParses(name: Text, v: Text)
    requires ValidName(name)
    ensures ParseLine(ValueLine(name, Escape(v))) == Variable(name, Some(Stored(v)))
  {
    hide Escape, Stored, CommentStart, Unescape, ParseName;
    var x := Quotes(Escape(v));
    var line, t := ValueLine(name, Escape(v)), Assign(name) + [32] + Quotes(Escape(v));
    AssignPlain(name, x);
    LineTrimmed(line, t);
    NoCommentWritten(name, v);
    assert t[..|t|] == t;
    assert t == Assign(name) + ([32] + x);
    RtrimBehind(Assign(name), [32] + x);
    NameParses(name, Rtrim([32] + x));
    ValueTrimmed(v);
  }

  lemma LineTrimmed(line: Text, t: Text)
    requires line == [9] + t && t != [] && !IsSpace(t[0])
    ensures Ltrim(line) == t
  {
    assert line[1..] == t;
  }

  lemma {:induction false} TrimShorter(v: Text)
    ensures |LtrimBare(v)| <= |v| && |RtrimBare(v)| <= |v|
    ensures v != [] && Bare(v[0]) ==> |LtrimBare(v)| < |v|
    ensures v != [] && Bare(v[|v| - 1]) ==> |RtrimBare(v)| < |v|
    ensures v == [] || !Bare(v[0]) ==> LtrimBare(v) == v
    ensures v == [] || !Bare(v[|v| - 1]) ==> RtrimBare(v) == v
  {
    if v != [] {
      TrimShorter(v[1..]);
      TrimShorter(v[..|v| - 1]);
    }
  }

  /** A value comes back exactly if it is quoted, or neither begins nor ends with a
      carriage return, a vertical tab or a form feed. */
  lemma ValueReadsBack(v: Text)
    ensures Stored(v) == v <==>
            NeedsQuotes(Escape(v)) || (!(11 <= v[0] <= 13) && !(11 <= v[|v| - 1] <= 13))
  {
    NothingEscaped();
    if !NeedsQuotes(Escape(v)) {
      hide LtrimBare, RtrimBare;
      TrimShorter(v);
      TrimShorter(RtrimBare(v));
      EscapedEnds(v);
    }
  }

  lemma EscapedEnds(v: Text)
    requires v != []
    ensures Escape(v) != [] && (v[0] == 32 ==> Escape(v)[0] == 32) && (v[|v| - 1] == 32 ==> Escape(v)[|Escape(v)| - 1] == 32)
  {
    assert v == v[..|v| - 1] + [v[|v| - 1]];
    EscapeSnoc(v[..|v| - 1], v[|v| - 1]);
  }

  // ----------------------------------------------------------- section headers

  function FirstDot(key: Text): (d: nat)
    ensures d <= |key| && (d < |key| ==> key[d] == DOT)
  {
    if key == [] || key[0] == DOT then 0 else 1 + FirstDot(key[1..])
  }

  /** write_section, without the line feed. */
  function HeaderLine(key: Text): Text {
    var d := FirstDot(key);
    if d == |key| then [OPENING] + (key + [CLOSING])
    else [OPENING] + (key[..d] + ([32] + ([DQUOTE] + Escape(key[d + 1..]) + [DQUOTE, CLOSING])))
  }

  /** A subsection as it is read back: a header knows no n, t and b escapes. */
  function Dropped(sub: Text): Text {
    if sub == [] then [] else [if Escaped(sub[0]) then EscapeLetter(sub[0]) else sub[0]] + Dropped(sub[1..])
  }

  /** The section that is read back. */
  function StoredSection(key: Text): Text {
    var d := FirstDot(key);
    if d == |key| then Lower(key) else Lower(key[..d]) + [DOT] + Dropped(key[d + 1..])
  }

  /** The name that a section is known by. */
  function Normalized(key: Text): Text {
    var d := FirstDot(key);
    if d == |key| then Lower(key) else Lower(key[..d]) + [DOT] + key[d + 1..]
  }

  ghost predicate ValidSection(key: Text) {
    FirstDot(key) > 0 && forall i :: 0 <= i < FirstDot(key) ==> KeyChar(key[i])
  }

  lemma LowerSplit(base: Text, acc: Text)
    requires base != []
    ensures acc + Lower(base) == acc + [ToLower(base[0])] + Lower(base[1..])
  {
  }

  lemma {:induction false} BaseParses(base: Text, rest: Text, acc: Text)
    requires base != [] && rest != [] && (rest[0] == CLOSING || rest[0] == 32)
    requires forall i :: 0 <= i < |base| ==> KeyChar(base[i])
    ensures ParseBase(base + rest, acc) ==
            if rest[0] == CLOSING then Some((acc + Lower(base), rest[1..])) else ParseSubsection(rest[1..], acc + Lower(base))
  {
    hide ParseSubsection, Lower;
    var s := base + rest;
    KeyCharPlain(base[0]);
    LowerSplit(base, acc);
    assert s[1..] == base[1..] + rest && s[0] == base[0];
    if |base| == 1 {
      assert base[1..] == [] && Lower([]) == [];
      assert s[1..] == rest && s[1] == rest[0] && s[2..] == rest[1..];
      assert acc + [ToLower(base[0])] + [] == acc + [ToLower(base[0])];
      if rest[0] == 32 { BaseEnds(rest, acc + [ToLower(base[0])]); }
    } else {
      assert s[1] == base[1];
      KeyCharPlain(base[1]);
      NotClosing(base[1]);
      BaseParses(base[1..], rest, acc + [ToLower(base[0])]);
    }
  }

  lemma NotClosing(c: byte)
    requires KeyChar(c)
    ensures c != CLOSING
  {
  }

  lemma BaseEnds(rest: Text, name: Text)
    requires rest != [] && rest[0] == 32
    ensures ParseBase(rest, name) == ParseSubsection(rest[1..], name)
  {
  }

  lemma SubsectionStep(q: Text, r: nat, last: nat, name: Text, c: byte)
    requires r + |EscapeOne(c)| <= |q| && q[r..r + |EscapeOne(c)|] == EscapeOne(c)
    ensures var (next, stored) := (r + |EscapeOne(c)|, if Escaped(c) then EscapeLetter(c) else c);
            Subsection(q, r, last, name) == if next < last then Subsection(q, next, last, name + [stored]) else Some((name + [stored], next))
  {
    var h := EscapeOne(c);
    assert q[r] == q[r..r + |h|][0];
    if |h| == 2 { assert q[r + 1] == q[r..r + |h|][1]; }
  }

  lemma SubsectionEnd(q: Text, r: nat, last: nat, name: Text)
    requires r < |q| && q[r] == DQUOTE
    ensures Subsection(q, r, last, name) == Some((name, r))
  {
  }

  lemma DroppedStep(w: Text, name: Text)
    requires w != []
    ensures name + Dropped(w) == name + [if Escaped(w[0]) then EscapeLetter(w[0]) else w[0]] + Dropped(w[1..])
  {
  }

  lemma DroppedNothing(name: Text)
    ensures name + Dropped([]) == name
  {
  }

  lemma {:induction false} SubsectionParses(a: Text, w: Text, name: Text)
    requires a != []
    ensures var q := a + Escape(w) + [DQUOTE, CLOSING];
            Subsection(q, |a|, |a| + |Escape(w)|, name) == Some((name + Dropped(w), |a| + |Escape(w)|))
    decreases w
  {
    hide Subsection, Dropped, EscapeOne;
    var q, last := a + Escape(w) + [DQUOTE, CLOSING], |a| + |Escape(w)|;
    if w == [] {
      DroppedNothing(name);
      SubsectionEnd(q, |a|, last, name);
    } else {
      var (c, h) := (w[0], EscapeOne(w[0]));
      var stored := if Escaped(c) then EscapeLetter(c) else c;
      assert q == (a + h) + Escape(w[1..]) + [DQUOTE, CLOSING];
      assert q[|a|..|a| + |h|] == h;
      SubsectionStep(q, |a|, last, name, c);
      DroppedStep(w, name);
      if w[1..] == [] {
        DroppedNothing(name + [stored]);
      } else {
        EscapeSome(w[1..]);
        SubsectionParses(a + h, w[1..], name + [stored]);
      }
    }
  }

  lemma EscapeSome(w: Text)
    requires w != []
    ensures |Escape(w)| > 0
  {
  }

  lemma LastQuoteIs(q: Text, k: nat)
    requires |q| == k + 2 && q[k] == DQUOTE && q[k + 1] == CLOSING
    ensures LastQuote(q) == k
  {
  }

  lemma SubsectionHeaderParses(sub: Text, base: Text)
    ensures ParseSubsection([DQUOTE] + Escape(sub) + [DQUOTE, CLOSING], base) == Some((base + [DOT] + Dropped(sub), []))
  {
    hide Escape, Dropped, Subsection;
    var e, q := Escape(sub), [DQUOTE] + Escape(sub) + [DQUOTE, CLOSING];
    assert q[0] == DQUOTE && q[|e| + 1] == DQUOTE && q[|e| + 2] == CLOSING;
    LastQuoteIs(q, |e| + 1);
    SubsectionParses([DQUOTE], sub, base + [DOT]);
    assert q[|e| + 3..] == [];
  }

  lemma HeaderLineIs(t: Text)
    requires t != [] && t[|t| - 1] == CLOSING
    ensures ParseLine([OPENING] + t) == match ParseBase(t, [])
                                        case None => Bad
                                        case Some(r) => if Ltrim(r.1) == [] then Header(r.0) else Compound
  {
    hide ParseBase;
    var line := [OPENING] + t;
    assert line[|t|] == CLOSING && line[1..] == t && Ltrim(line) == line;
  }

  /** A section header that was written is read back. */
  lemma HeaderLineParses(key: Text)
    requires ValidSection(key)
    ensures ParseLine(HeaderLine(key)) == Header(StoredSection(key))
  {
    hide ParseBase, ParseSubsection, ParseLine, Escape, Dropped, Lower, FirstDot;
    var d := FirstDot(key);
    if d == |key| {
      HeaderLineIs(key + [CLOSING]);
      BaseParses(key, [CLOSING], []);
      assert [CLOSING][1..] == [] && [] + Lower(key) == Lower(key);
    } else {
      var q := [DQUOTE] + Escape(key[d + 1..]) + [DQUOTE, CLOSING];
      HeaderLineIs(key[..d] + ([32] + q));
      BaseParses(key[..d], [32] + q, []);
      assert ([32] + q)[1..] == q && [] + Lower(key[..d]) == Lower(key[..d]);
      SubsectionHeaderParses(key[d + 1..], Lower(key[..d]));
    }
  }

  lemma {:induction false} DroppedSame(sub: Text)
    ensures |Dropped(sub)| == |sub|
    ensures Dropped(sub) == sub <==> forall i :: 0 <= i < |sub| ==> !(8 <= sub[i] <= 10)
  {
    if sub != [] {
      DroppedSame(sub[1..]);
      assert sub == [sub[0]] + sub[1..];
      assert Dropped(sub)[1..] == Dropped(sub[1..]);
      if forall i :: 0 <= i < |sub[1..]| ==> !(8 <= sub[1..][i] <= 10) {
        forall i | 1 <= i < |sub| ensures !(8 <= sub[i] <= 10) { assert sub[i] == sub[1..][i - 1]; }
      } else {
        var i: nat :| i < |sub[1..]| && 8 <= sub[1..][i] <= 10;
        assert sub[i + 1] == sub[1..][i];
      }
    }
  }

  /** The subsection of a key, if it has one. */
  function SubOf(key: Text): Text { if FirstDot(key) < |key| then key[FirstDot(key) + 1..] else [] }

  /** A section keeps its name exactly if its subsection has no tab, backspace or newline. */
  lemma SectionReadsBack(key: Text)
    ensures StoredSection(key) == Normalized(key) <==> forall i :: 0 <= i < |SubOf(key)| ==> !(8 <= SubOf(key)[i] <= 10)
  {
    hide Dropped, Lower;
    DroppedSame(SubOf(key));
    var d := FirstDot(key);
    if d < |key| { SameTail(Lower(key[..d]) + [DOT], Dropped(SubOf(key)), SubOf(key)); }
  }

  lemma SameTail(a: Text, x: Text, y: Text)
    ensures a + x == a + y <==> x == y
  {
    if a + x == a + y { assert (a + x)[|a|..] == x && (a + y)[|a|..] == y; }
  }
}
