/** What the lines of a configuration file mean that were written by hand: comments, section
    headers and definitions with any white space, quotes, escapes and trailing comments. */
module ConfigHand {
  import opened Common
  import opened ConfigParse
  import ConfigWrite

  /** Spaces, tabs, carriage returns, vertical tabs and form feeds. */
  ghost predicate White(w: Text) { forall i :: 0 <= i < |w| ==> w[i] == 32 || 9 <= w[i] <= 13 }

  /** Letters, digits and hyphens. */
  ghost predicate NameChars(name: Text) {
    forall i :: 0 <= i < |name| ==> 97 <= name[i] <= 122 || 65 <= name[i] <= 90 || 48 <= name[i] <= 57 || name[i] == 45
  }

  lemma {:induction false} LtrimWhite(w: Text, t: Text)
    requires White(w)
    ensures Ltrim(w + t) == Ltrim(t)
  {
    if w == [] {
      assert w + t == t;
    } else {
      assert (w + t)[1..] == w[1..] + t;
      LtrimWhite(w[1..], t);
    }
  }

  lemma {:induction false} RtrimWhite(t: Text, w: Text)
    requires White(w)
    ensures Rtrim(t + w) == Rtrim(t)
  {
    if w == [] {
      assert t + w == t;
    } else {
      assert (t + w)[..|t + w| - 1] == t + w[..|w| - 1];
      RtrimWhite(t, w[..|w| - 1]);
    }
  }

  // ------------------------------------------------------------------------- comments

  /** The double quotes that do not stand right behind a backslash, but for a first character. */
  function QuoteCount(s: Text): nat {
    if s == [] then 0
    else QuoteCount(s[..|s| - 1]) + if |s| > 1 && s[|s| - 1] == 34 && s[|s| - 2] != 92 then 1 else 0
  }

  /** The backslashes that a text ends with. */
  function Backslashes(s: Text): nat {
    if s != [] && s[|s| - 1] == 92 then 1 + Backslashes(s[..|s| - 1]) else 0
  }

  /** A semicolon or a hash with an even number of such quotes before it, and of backslashes
      right before it. */
  predicate CommentAt(s: Text, k: nat) {
    k < |s| && (s[k] == 59 || s[k] == 35) && QuoteCount(s[..k]) % 2 == 0 && Backslashes(s[..k]) % 2 == 0
  }

  lemma CountStep(s: Text, i: nat)
    requires i < |s|
    ensures QuoteCount(s[..i + 1]) == QuoteCount(s[..i]) + if i > 0 && s[i] == 34 && s[i - 1] != 92 then 1 else 0
    ensures Backslashes(s[..i + 1]) == if s[i] == 92 then Backslashes(s[..i]) + 1 else 0
  {
    assert s[..i + 1][..i] == s[..i];
  }

  lemma {:induction false} CommentFrom(s: Text, i: nat)
    requires i <= |s|
    ensures var k := CommentStart(s, i, QuoteCount(s[..i]), Backslashes(s[..i]));
            (k < |s| ==> CommentAt(s, k)) && forall j: nat :: i <= j < k ==> !CommentAt(s, j)
    decreases |s| - i
  {
    hide QuoteCount, Backslashes;
    if i < |s| && !CommentAt(s, i) {
      CountStep(s, i);
      CommentFrom(s, i + 1);
    }
  }

  /** A comment starts at the first such character, whatever the line is. */
  lemma CommentIsFirst(s: Text)
    ensures var k := CommentStart(s, 0, 0, 0);
            (k < |s| ==> CommentAt(s, k)) && forall j: nat :: j < k ==> !CommentAt(s, j)
  {
    CommentFrom(s, 0);
    assert s[..0] == [];
  }

  lemma StartsAt(s: Text, k: nat)
    requires k <= |s| && (k < |s| ==> CommentAt(s, k)) && forall j: nat :: j < k ==> !CommentAt(s, j)
    ensures CommentStart(s, 0, 0, 0) == k
  {
    hide CommentAt, CommentStart;
    CommentIsFirst(s);
  }

  lemma VariableNoComment(s: Text)
    ensures !ParseVariable(s).Comment? && !ParseVariable(s).Header?
  {
    hide StripComments, ParseName, Unescape;
  }

  /** A line is a comment or blank exactly if the first character that is not white space is a
      semicolon or a hash, or if there is none and the line does not begin with another white
      space than CR, space and tab. */
  lemma CommentLines(w: Text, t: Text)
    requires White(w) && (t == [] || !White(t[..1]))
    ensures ParseLine(w + t) == Comment <==>
            if t == [] then w == [] || w[0] in {13, 32, 9} else t[0] == 59 || t[0] == 35
  {
    hide ParseVariable, ParseHeader, Ltrim;
    LtrimWhite(w, t);
    if t == [] {
      assert w + t == w;
      LtrimNone(t);
    } else {
      assert t[..1][0] == t[0];
      LtrimNone(t);
      HeaderNoComment(t);
      VariableNoComment(t);
    }
  }

  lemma LtrimNone(t: Text)
    requires t == [] || !IsSpace(t[0])
    ensures Ltrim(t) == t
  {
  }

  lemma HeaderNoComment(t: Text)
    requires t != []
    ensures t[0] == OPENING ==> !ParseHeader(t).Comment? && !ParseHeader(t).Variable?
  {
    hide ParseBase, Ltrim;
  }

  /** Behind a definition in which no comment starts, with an even number of quotes and no
      backslash at the end, a semicolon or a hash and all that follows is a comment. */
  lemma CommentCutOff(d: Text, c: byte, rest: Text)
    requires CommentStart(d, 0, 0, 0) == |d| && QuoteCount(d) % 2 == 0 && Backslashes(d) % 2 == 0
    requires c == 59 || c == 35
    ensures ParseVariable(d + [c] + rest) == ParseVariable(d)
  {
    hide ParseName, CommentStart, QuoteCount, Backslashes, Unescape;
    var s := d + [c] + rest;
    CommentIsFirst(d);
    forall j: nat | j < |d| ensures !CommentAt(s, j) {
      assert !CommentAt(d, j);
      assert s[..j] == d[..j] && s[j] == d[j];
    }
    assert s[..|d|] == d && d[..|d|] == d;
    StartsAt(s, |d|);
  }

  // --------------------------------------------------------------------------- values

  /** What a value is written with: characters, double quotes that begin or end a quoted
      stretch, and backslashes with a letter. */
  datatype Token = Plain(c: byte) | Mark | Sequence(letter: byte)

  predicate Proper(t: Token) {
    match t
    case Plain(c) => c != 34 && c != 92
    case Mark => true
    case Sequence(l) => l == 110 || l == 116 || l == 98 || l == 34 || l == 92
  }

  ghost predicate AllProper(ts: seq<Token>) { forall i :: 0 <= i < |ts| ==> Proper(ts[i]) }

  function Spelt(t: Token): Text {
    match t
    case Plain(c) => [c]
    case Mark => [34]
    case Sequence(l) => [92, l]
  }

  function Spelling(ts: seq<Token>): Text {
    if ts == [] then [] else Spelling(ts[..|ts| - 1]) + Spelt(ts[|ts| - 1])
  }

  /** n, t and b stand for newline, tab and backspace, a quote and a backslash for themselves. */
  function Meant(t: Token): Text {
    match t
    case Plain(c) => [c]
    case Mark => []
    case Sequence(l) => [if l == 110 then 10 else if l == 116 then 9 else if l == 98 then 8 else l]
  }

  function Meaning(ts: seq<Token>): Text {
    if ts == [] then [] else Meaning(ts[..|ts| - 1]) + Meant(ts[|ts| - 1])
  }

  lemma UnescapeToken(t: Token, rest: Text)
    requires Proper(t)
    ensures Unescape(Spelt(t) + rest) == Resumed(Meant(t), Unescape(rest))
  {
    var s := Spelt(t) + rest;
    match t
    case Plain(c) => assert s[0] == c && s[1..] == rest;
    case Mark => assert s[0] == 34 && s[1..] == rest; ResumedNothing(Unescape(rest));
    case Sequence(l) => assert s[0] == 92 && s[1] == l && s[2..] == rest;
  }

  lemma ResumedTwice(a: Text, b: Text, u: Unescaped)
    ensures Resumed(a, Resumed(b, u)) == Resumed(a + b, u)
  {
    if u.Value? { assert a + (b + u.text) == a + b + u.text; }
  }

  /** Unescaping what is spelt with tokens gives what they mean, and goes on behind them. */
  lemma {:induction false} UnescapeSpelling(ts: seq<Token>, rest: Text)
    requires AllProper(ts)
    ensures Unescape(Spelling(ts) + rest) == Resumed(Meaning(ts), Unescape(rest))
  {
    hide Unescape, Proper, Spelt, Meant, Resumed;
    if ts == [] {
      assert [] + rest == rest;
      ResumedNothing(Unescape(rest));
    } else {
      var n := |ts| - 1;
      UnescapeSpelling(ts[..n], Spelt(ts[n]) + rest);
      assert Spelling(ts) + rest == Spelling(ts[..n]) + (Spelt(ts[n]) + rest);
      UnescapeToken(ts[n], rest);
      ResumedTwice(Meaning(ts[..n]), Meant(ts[n]), Unescape(rest));
    }
  }

  /** Every text is spelt with tokens up to its end, up to a backslash at the end, or up to
      a backslash with any other letter. */
  lemma {:induction false} Tokens(s: Text) returns (ts: seq<Token>, rest: Text)
    ensures AllProper(ts) && s == Spelling(ts) + rest
    ensures rest == [] || rest == [92] || (|rest| > 1 && rest[0] == 92 && !Proper(Sequence(rest[1])))
  {
    if s == [] {
      ts, rest := [], [];
    } else if s[0] == 92 && (|s| == 1 || !Proper(Sequence(s[1]))) {
      ts, rest := [], s;
    } else {
      var t := if s[0] == 92 then Sequence(s[1]) else if s[0] == 34 then Mark else Plain(s[0]);
      var us, r := Tokens(s[|Spelt(t)|..]);
      assert s == Spelt(t) + (Spelling(us) + r);
      SpellingFirst(t, us);
      ts, rest := [t] + us, r;
    }
  }

  lemma {:induction false} SpellingFirst(t: Token, us: seq<Token>)
    ensures Spelling([t] + us) == Spelt(t) + Spelling(us)
  {
    hide Spelt;
    if us == [] {
      assert [t] + us == [t] && [t][..0] == [];
      assert Spelling([t]) == Spelling([]) + Spelt(t);
    } else {
      assert ([t] + us)[..|us|] == [t] + us[..|us| - 1];
      SpellingFirst(t, us[..|us| - 1]);
    }
  }

  /** A text has a value exactly if it is spelt with tokens to its end; it goes on in the next
      line exactly if a backslash is left at the end. */
  lemma UnescapeExact(s: Text) returns (ts: seq<Token>, rest: Text)
    ensures AllProper(ts) && s == Spelling(ts) + rest
    ensures rest == [] || rest == [92] || (|rest| > 1 && rest[0] == 92 && rest[1] !in {110, 116, 98, 34, 92})
    ensures Unescape(s) == if rest == [] then Value(Meaning(ts)) else if rest == [92] then Continued else Invalid
  {
    ts, rest := Tokens(s);
    UnescapeSpelling(ts, rest);
    if rest == [] { assert Meaning(ts) + [] == Meaning(ts); }
  }

  // ---------------------------------------------------------------------- definitions

  /** The quotes that are seen when comments are looked for: one behind an escaped backslash
      is taken for an escaped one. */
  function SeenMarks(ts: seq<Token>): nat {
    if ts == [] then 0
    else SeenMarks(ts[..|ts| - 1]) + if ts[|ts| - 1].Mark? && (|ts| == 1 || ts[|ts| - 2] != Sequence(92)) then 1 else 0
  }

  /** Every semicolon and every hash stands between an opening and a closing quote. */
  ghost predicate Sheltered(ts: seq<Token>) {
    forall i :: 0 <= i < |ts| && (ts[i] == Plain(59) || ts[i] == Plain(35)) ==> SeenMarks(ts[..i]) % 2 == 1
  }

  /** No white space at either end. */
  ghost predicate Tight(ts: seq<Token>) {
    ts != [] ==> !White(Spelt(ts[0])) && !White(Spelt(ts[|ts| - 1]))
  }

  ghost predicate NoComments(s: Text) { forall j: nat :: !CommentAt(s, j) }

  lemma OneMore(s: Text, c: byte)
    ensures QuoteCount(s + [c]) == QuoteCount(s) + if s != [] && c == 34 && s[|s| - 1] != 92 then 1 else 0
    ensures Backslashes(s + [c]) == if c == 92 then Backslashes(s) + 1 else 0
    ensures NoComments(s) && !((c == 59 || c == 35) && QuoteCount(s) % 2 == 0 && Backslashes(s) % 2 == 0) ==> NoComments(s + [c])
  {
    var t := s + [c];
    assert t[..|s|] == s;
    if NoComments(s) && !((c == 59 || c == 35) && QuoteCount(s) % 2 == 0 && Backslashes(s) % 2 == 0) {
      forall j: nat ensures !CommentAt(t, j) {
        if j < |s| {
          assert !CommentAt(s, j);
          assert t[..j] == s[..j] && t[j] == s[j];
        }
      }
    }
  }

  /** What is counted at the end of a text that starts no comment. */
  ghost predicate Counted(s: Text, quotes: nat) {
    NoComments(s) && QuoteCount(s) == quotes && Backslashes(s) % 2 == 0
  }

  lemma {:induction false} PlainCounted(s: Text, h: Text, quotes: nat)
    requires Counted(s, quotes) && forall i :: 0 <= i < |h| ==> h[i] != 34 && h[i] != 92 && h[i] != 59 && h[i] != 35
    ensures Counted(s + h, quotes)
  {
    hide QuoteCount, Backslashes, CommentAt, NoComments;
    if h == [] {
      assert s + h == s;
    } else {
      var n := |h| - 1;
      PlainCounted(s, h[..n], quotes);
      OneMore(s + h[..n], h[n]);
      assert s + h == s + h[..n] + [h[n]];
    }
  }

  lemma {:induction false} SpellingCounted(h: Text, ts: seq<Token>)
    requires h != [] && h[|h| - 1] != 92 && Counted(h, 0) && AllProper(ts) && Sheltered(ts)
    ensures Counted(h + Spelling(ts), SeenMarks(ts))
    ensures var s := h + Spelling(ts); s[|s| - 1] == 92 <==> ts != [] && ts[|ts| - 1] == Sequence(92)
  {
    hide QuoteCount, Backslashes, CommentAt, NoComments;
    if ts == [] {
      assert h + [] == h;
    } else {
      var n := |ts| - 1;
      var s, t := h + Spelling(ts[..n]), ts[n];
      ShelteredPart(ts);
      SpellingCounted(h, ts[..n]);
      assert h + Spelling(ts) == s + Spelt(t);
      match t
      case Plain(c) => OneMore(s, c);
      case Mark => OneMore(s, 34);
      case Sequence(l) =>
        OneMore(s, 92);
        OneMore(s + [92], l);
        assert s + [92] + [l] == s + [92, l];
    }
  }

  lemma ShelteredPart(ts: seq<Token>)
    requires ts != [] && Sheltered(ts)
    ensures Sheltered(ts[..|ts| - 1])
  {
    hide SeenMarks;
    var us := ts[..|ts| - 1];
    forall i | 0 <= i < |us| && (us[i] == Plain(59) || us[i] == Plain(35)) ensures SeenMarks(us[..i]) % 2 == 1 {
      assert us[i] == ts[i] && us[..i] == ts[..i];
    }
  }

  lemma NothingCounted()
    ensures Counted([], 0)
  {
  }

  /** A semicolon or a hash behind an even number of quotes starts the comment. */
  lemma TailCut(s: Text, quotes: nat, tail: Text)
    requires Counted(s, quotes) && (tail == [] || ((tail[0] == 59 || tail[0] == 35) && quotes % 2 == 0))
    ensures StripComments(s + tail) == Rtrim(s)
  {
    hide QuoteCount, Backslashes, CommentStart, Rtrim;
    var t := s + tail;
    assert t[..|s|] == s;
    forall j: nat | j < |s| ensures !CommentAt(t, j) {
      assert !CommentAt(s, j);
      assert t[..j] == s[..j] && t[j] == s[j];
    }
    StartsAt(t, |s|);
  }

  lemma NameSpelt(name: Text)
    requires name != [] && NameChars(name)
    ensures ConfigWrite.ValidName(name) && !IsSpace(name[|name| - 1]) && !IsSpace(name[0]) && name[0] != 91 && name[0] != 59 && name[0] != 35
    ensures forall i :: 0 <= i < |name| ==> name[i] != 34 && name[i] != 92 && name[i] != 59 && name[i] != 35
  {
  }

  lemma WhitePlain(w: Text)
    requires White(w)
    ensures forall i :: 0 <= i < |w| ==> IsSpace(w[i]) && w[i] != 34 && w[i] != 92 && w[i] != 59 && w[i] != 35 && !KeyChar(w[i])
  {
  }

  /** A line whose first visible character belongs to a name is a definition. */
  lemma IsDefinition(w: Text, name: Text, rest: Text)
    requires White(w) && name != [] && NameChars(name)
    ensures ParseLine(w + (name + rest)) == ParseVariable(name + rest)
  {
    hide ParseVariable, ParseHeader, Ltrim;
    NameSpelt(name);
    LtrimWhite(w, name + rest);
    LtrimNone(name + rest);
  }

  lemma HeadCounted(name: Text, w1: Text, eq: Text, w2: Text)
    requires name != [] && NameChars(name) && White(w1) && (eq == [] || eq == [61]) && White(w2)
    ensures var h := name + w1 + eq + w2; Counted(h, 0) && h[|h| - 1] != 92
  {
    hide Counted, White, NameChars, ConfigWrite.ValidName, KeyChar, IsSpace;
    NothingCounted();
    NameSpelt(name);
    WhitePlain(w1);
    WhitePlain(w2);
    PlainCounted([], name, 0);
    PlainCounted([] + name, w1, 0);
    PlainCounted([] + name + w1, eq, 0);
    PlainCounted([] + name + w1 + eq, w2, 0);
    assert [] + name == name;
  }

  /** A name alone, with any white space around it and a comment behind, is a name without a
      value. */
  lemma NameAlone(w: Text, name: Text, w1: Text, tail: Text)
    requires White(w) && White(w1) && name != [] && NameChars(name)
    requires tail == [] || tail[0] == 59 || tail[0] == 35
    ensures ParseLine(w + (name + (w1 + tail))) == Variable(name, None)
  {
    hide ParseLine, StripComments, Counted, NameLength, Ltrim, Rtrim, Unescape, NameChars;
    NameSpelt(name);
    IsDefinition(w, name, w1 + tail);
    HeadCounted(name, w1, [], []);
    assert name + w1 + [] + [] == name + w1;
    TailCut(name + w1, 0, tail);
    assert name + w1 + tail == name + (w1 + tail);
    RtrimWhite(name, w1);
    RtrimNone(name);
    ConfigWrite.NameFound(name, []);
    assert name + [] == name && name[|name|..] == [];
    LtrimNone([]);
  }

  lemma RtrimNone(t: Text)
    requires t == [] || !IsSpace(t[|t| - 1])
    ensures Rtrim(t) == t
  {
  }

  lemma NameAndValue(name: Text, w1: Text, v: Text)
    requires name != [] && NameChars(name) && White(w1)
    ensures ParseName(name + w1 + [61] + v) == Some((name, Some(v)))
  {
    hide NameLength, Ltrim;
    NameSpelt(name);
    WhitePlain(w1);
    var s, rest := name + w1 + [61] + v, w1 + ([61] + v);
    assert s == name + rest;
    assert rest[0] == if w1 == [] then 61 else w1[0];
    ConfigWrite.NameFound(name, rest);
    assert s[..|name|] == name && s[|name|..] == rest;
    LtrimWhite(w1, [61] + v);
    LtrimNone([61] + v);
    assert ([61] + v)[1..] == v;
  }

  lemma {:induction false} SpellingEnds(ts: seq<Token>)
    requires AllProper(ts) && ts != [] && Tight(ts)
    ensures Spelling(ts) != [] && !IsSpace(Spelling(ts)[0]) && !IsSpace(Spelling(ts)[|Spelling(ts)| - 1])
  {
    SpellingFirst(ts[0], ts[1..]);
    assert [ts[0]] + ts[1..] == ts;
    TokenEnds(ts[0]);
    TokenEnds(ts[|ts| - 1]);
  }

  lemma TokenEnds(t: Token)
    requires Proper(t) && !White(Spelt(t))
    ensures Spelt(t) != [] && !IsSpace(Spelt(t)[0]) && !IsSpace(Spelt(t)[|Spelt(t)| - 1])
  {
  }

  /** What is left of such a definition without the comment and the white space at the end:
      the value behind the equals sign. */
  lemma DefinitionStripped(name: Text, w1: Text, w2: Text, ts: seq<Token>, w3: Text, tail: Text)
    requires name != [] && NameChars(name) && White(w1) && White(w2) && White(w3) && AllProper(ts) && Sheltered(ts) && Tight(ts)
    requires tail == [] || ((tail[0] == 59 || tail[0] == 35) && SeenMarks(ts) % 2 == 0)
    ensures StripComments(name + w1 + [61] + w2 + Spelling(ts) + w3 + tail)
            == name + w1 + [61] + (if ts == [] then [] else w2 + Spelling(ts))
  {
    hide StripComments, Counted, Rtrim, Spelling, SeenMarks, Sheltered, Tight, AllProper, White, NameChars;
    WhitePlain(w3);
    var h := name + w1 + [61] + w2;
    HeadCounted(name, w1, [61], w2);
    SpellingCounted(h, ts);
    PlainCounted(h + Spelling(ts), w3, SeenMarks(ts));
    TailCut(h + Spelling(ts) + w3, SeenMarks(ts), tail);
    RtrimWhite(h + Spelling(ts), w3);
    if ts == [] {
      SpellingNothing();
      assert h + [] == name + w1 + [61] + w2;
      RtrimWhite(name + w1 + [61], w2);
      RtrimNone(name + w1 + [61]);
      assert name + w1 + [61] + [] == name + w1 + [61];
    } else {
      SpellingEnds(ts);
      RtrimNone(h + Spelling(ts));
      assert h + Spelling(ts) == name + w1 + [61] + (w2 + Spelling(ts));
    }
  }

  lemma SpellingNothing()
    ensures Spelling([]) == [] && Meaning([]) == []
  {
  }

  /** A definition as it is written by hand, with any white space around the name and the
      value, has that name and what the value means.  A semicolon or a hash ends it where
      the quotes before are closed, and only there. */
  lemma HandWritten(w: Text, name: Text, w1: Text, w2: Text, ts: seq<Token>, w3: Text, tail: Text)
    requires White(w) && White(w1) && White(w2) && White(w3) && name != [] && NameChars(name)
    requires AllProper(ts) && Sheltered(ts) && Tight(ts)
    requires tail == [] || ((tail[0] == 59 || tail[0] == 35) && SeenMarks(ts) % 2 == 0)
    ensures ParseLine(w + (name + w1 + [61] + w2 + Spelling(ts) + w3 + tail)) == Variable(name, Some(Meaning(ts)))
  {
    hide ParseLine, StripComments, ParseName, Unescape, Spelling, Meaning, SeenMarks, Sheltered, Tight, AllProper, Ltrim;
    var v := if ts == [] then [] else w2 + Spelling(ts);
    var t := name + w1 + [61] + w2 + Spelling(ts) + w3 + tail;
    assert t == name + (w1 + [61] + w2 + Spelling(ts) + w3 + tail);
    IsDefinition(w, name, w1 + [61] + w2 + Spelling(ts) + w3 + tail);
    DefinitionStripped(name, w1, w2, ts, w3, tail);
    NameAndValue(name, w1, v);
    UnescapeSpelling(ts, []);
    assert Spelling(ts) + [] == Spelling(ts);
    UnescapeNothing();
    SpellingNothing();
    assert Meaning(ts) + [] == Meaning(ts);
    if ts == [] {
      LtrimNone([]);
    } else {
      SpellingEnds(ts);
      LtrimWhite(w2, Spelling(ts));
      LtrimNone(Spelling(ts));
    }
  }

  /** Neither a name without an equals sign behind it nor anything that does not start with
      a name is a definition, whatever follows. */
  lemma NoDefinition(w: Text, name: Text, w1: Text, c: byte, rest: Text)
    requires White(w) && NameChars(name) && White(w1) && !White([c]) && c != 61 && c != 59 && c != 35
    requires w1 == [] ==> !NameChars([c])
    requires name == [] ==> w1 == [] && c != 91
    ensures ParseLine(w + (name + w1 + [c] + rest)) == Bad
  {
    hide ParseVariable, ParseHeader, Ltrim, NameChars, White;
    var t := name + w1 + [c] + rest;
    Visible(c);
    var y := StrippedBehind(name, w1, c, rest);
    NotName(name, w1, c, y);
    NotVariable(t);
    LtrimWhite(w, t);
    if name == [] {
      LtrimNone(t);
      assert t[0] == c;
    } else {
      NameSpelt(name);
      LtrimNone(t);
    }
  }

  lemma NotVariable(s: Text)
    requires ParseName(StripComments(s)) == None
    ensures ParseVariable(s) == Bad
  {
    hide StripComments, ParseName, Unescape;
  }

  lemma Visible(c: byte)
    requires !White([c])
    ensures !IsSpace(c)
  {
  }

  lemma StrippedBehind(name: Text, w1: Text, c: byte, rest: Text) returns (y: Text)
    requires NameChars(name) && White(w1) && !IsSpace(c) && c != 59 && c != 35
    ensures StripComments(name + w1 + [c] + rest) == name + w1 + [c] + y
  {
    hide NameChars, White, CommentStart, Rtrim, IsSpace, QuoteCount, Backslashes;
    var h, t := name + w1, name + w1 + [c] + rest;
    if name == [] {
      assert h == w1;
      WhitePlain(w1);
      NothingCounted();
      PlainCounted([], w1, 0);
      assert [] + w1 == w1;
    } else {
      HeadCounted(name, w1, [], []) by { assert White([]) by { NothingWhite(); } }
      assert name + w1 + [] + [] == h;
    }
    forall j: nat | j <= |h| ensures !CommentAt(t, j) {
      if j < |h| {
        assert !CommentAt(h, j);
        assert t[..j] == h[..j] && t[j] == h[j];
      }
    }
    CommentIsFirst(t);
    var k := CommentStart(t, 0, 0, 0);
    assert t[..k] == h + [c] + t[|h| + 1..k];
    ConfigWrite.RtrimBehind(h + [c], t[|h| + 1..k]);
    y := Rtrim(t[|h| + 1..k]);
  }

  lemma NothingWhite()
    ensures White([])
  {
  }

  lemma NotName(name: Text, w1: Text, c: byte, y: Text)
    requires NameChars(name) && White(w1) && !IsSpace(c) && c != 61
    requires (w1 == [] ==> !NameChars([c])) && (name == [] ==> w1 == [])
    ensures ParseName(name + w1 + [c] + y) == None
  {
    hide NameLength, Ltrim;
    WhitePlain(w1);
    var s, rest := name + w1 + [c] + y, w1 + ([c] + y);
    assert s == name + rest;
    assert rest[0] == if w1 == [] then c else w1[0];
    if KeyChar(c) { assert NameChars([c]); }
    ConfigWrite.NameFound(name, rest);
    assert s[|name|..] == rest;
    LtrimWhite(w1, [c] + y);
    LtrimNone([c] + y);
  }

  lemma Behind(ts: seq<Token>, t: Token)
    ensures Spelling(ts + [t]) == Spelling(ts) + Spelt(t) && Meaning(ts + [t]) == Meaning(ts) + Meant(t)
    ensures SeenMarks(ts + [t]) == SeenMarks(ts) + if t.Mark? && (ts == [] || ts[|ts| - 1] != Sequence(92)) then 1 else 0
  {
    assert (ts + [t])[..|ts|] == ts;
  }

  /** The definition k="\\" ;c of one backslash with a comment: the closing quote behind the
      escaped backslash is not seen, and what should be a comment is a part of the value. */
  lemma HiddenQuote()
    ensures ParseLine([107, 61, 34, 92, 92, 34, 32, 59, 99]) == Variable([107], Some([92, 32, 59, 99]))
  {
    hide ParseLine, Spelling, Meaning, SeenMarks, Sheltered, AllProper, Tight;
    var ts := [Mark, Sequence(92), Mark, Plain(32), Plain(59), Plain(99)];
    HiddenSpelling(ts);
    HandWritten([], [107], [], [], ts, [], []);
    assert [] + ([107] + [] + [61] + [] + Spelling(ts) + [] + []) == [107, 61, 34, 92, 92, 34, 32, 59, 99];
  }

  lemma HiddenSpelling(ts: seq<Token>)
    requires ts == [Mark, Sequence(92), Mark, Plain(32), Plain(59), Plain(99)]
    ensures AllProper(ts) && Sheltered(ts) && Tight(ts)
    ensures Spelling(ts) == [34, 92, 92, 34, 32, 59, 99] && Meaning(ts) == [92, 32, 59, 99]
  {
    hide Spelling, Meaning, SeenMarks, White, Spelt, Meant;
    SpellingNothing();
    SeenNothing();
    var us := ts[..4];
    HiddenStart(us);
    Behind(us, Plain(59));
    Behind(us + [Plain(59)], Plain(99));
    assert ts == us + [Plain(59)] + [Plain(99)];
    HiddenTokens();
  }

  lemma HiddenStart(us: seq<Token>)
    requires us == [Mark, Sequence(92), Mark, Plain(32)]
    ensures Spelling(us) == [34, 92, 92, 34, 32] && Meaning(us) == [92, 32] && SeenMarks(us) == 1
  {
    hide Spelling, Meaning, SeenMarks, Spelt, Meant;
    SpellingNothing();
    SeenNothing();
    Behind([], Mark);
    Behind([Mark], Sequence(92));
    Behind([Mark, Sequence(92)], Mark);
    Behind([Mark, Sequence(92), Mark], Plain(32));
    assert [] + [Mark] == [Mark] && [Mark] + [Sequence(92)] == [Mark, Sequence(92)];
    assert [Mark, Sequence(92)] + [Mark] == [Mark, Sequence(92), Mark] && [Mark, Sequence(92), Mark] + [Plain(32)] == us;
    HiddenTokens();
  }

  lemma HiddenTokens()
    ensures Spelt(Mark) == [34] && Spelt(Sequence(92)) == [92, 92] && Meant(Mark) == [] && Meant(Sequence(92)) == [92]
    ensures forall c: byte :: Spelt(Plain(c)) == [c] && Meant(Plain(c)) == [c]
    ensures !White(Spelt(Mark)) && !White(Spelt(Plain(99)))
  {
    NotWhite(34);
    NotWhite(99);
  }

  lemma NotWhite(c: byte)
    requires !(c == 32 || 9 <= c <= 13)
    ensures !White([c])
  {
    assert [c][0] == c;
  }

  lemma SeenNothing()
    ensures SeenMarks([]) == 0
  {
  }

  // -------------------------------------------------------------------------- headers

  /** Letters, digits, hyphens and dots. */
  ghost predicate BaseChars(base: Text) { forall i :: 0 <= i < |base| ==> NameChars([base[i]]) || base[i] == 46 }

  /** The same text with small letters for capitals. */
  ghost predicate SmallLetters(base: Text, low: Text) {
    |low| == |base| && forall i :: 0 <= i < |base| ==> low[i] == if 65 <= base[i] <= 90 then base[i] + 32 else base[i]
  }

  lemma LowerIsSmall(base: Text)
    ensures SmallLetters(base, Lower(base))
  {
  }

  lemma BaseChar(c: byte)
    requires NameChars([c]) || c == 46
    ensures (KeyChar(c) || c == DOT) && !IsSpace(c) && c != 93
  {
    if c != 46 { assert [c][0] == c; }
  }

  lemma {:induction false} BaseRead(base: Text, rest: Text, acc: Text)
    requires BaseChars(base) && rest != [] && ((rest[0] == 93 && base != []) || IsSpace(rest[0]))
    ensures ParseBase(base + rest, acc) ==
            if rest[0] == 93 then Some((acc + Lower(base), rest[1..])) else ParseSubsection(rest[1..], acc + Lower(base))
  {
    hide ParseSubsection, Lower, BaseChars, IsSpace;
    var s := base + rest;
    if base == [] {
      assert s == rest && Lower([]) == [] && acc + [] == acc;
      SpaceNotClosing(rest[0]);
    } else {
      BaseFirst(base);
      ConfigWrite.LowerSplit(base, acc);
      BaseChar(base[0]);
      assert s[1..] == base[1..] + rest && s[0] == base[0];
      if |base| == 1 && rest[0] == 93 {
        assert base[1..] == [] && Lower([]) == [];
        assert s[2..] == rest[1..];
        assert acc + [ToLower(base[0])] + [] == acc + [ToLower(base[0])];
      } else {
        if |base| > 1 {
          BaseFirst(base[1..]);
          BaseChar(base[1]);
          assert s[1] == base[1];
        } else {
          SpaceNotClosing(rest[0]);
          assert s[1] == rest[0];
        }
        BaseRead(base[1..], rest, acc + [ToLower(base[0])]);
      }
    }
  }

  lemma SpaceNotClosing(c: byte)
    requires c == 93 || IsSpace(c)
    ensures c == 93 <==> !IsSpace(c)
  {
  }

  lemma BaseFirst(base: Text)
    requires base != [] && BaseChars(base)
    ensures (NameChars([base[0]]) || base[0] == 46) && BaseChars(base[1..])
  {
    hide NameChars;
  }

  lemma HeaderLineIs(w: Text, t: Text)
    requires White(w) && 93 in t
    ensures ParseLine(w + ([91] + t)) == match ParseBase(t, [])
                                         case None => Bad
                                         case Some(r) => if Ltrim(r.1) == [] then Header(r.0) else Compound
  {
    hide ParseBase, Ltrim;
    LtrimWhite(w, [91] + t);
    LtrimNone([91] + t);
    assert ([91] + t)[1..] == t;
  }

  lemma {:induction false} AllWhite(rest: Text)
    ensures Ltrim(rest) == [] <==> White(rest)
  {
    if rest != [] {
      AllWhite(rest[1..]);
      if White(rest[1..]) && IsSpace(rest[0]) {
        forall i | 0 <= i < |rest| ensures rest[i] == 32 || 9 <= rest[i] <= 13 {
          if i > 0 { assert rest[i] == rest[1..][i - 1]; }
        }
      }
    }
  }

  /** A name in brackets starts the section of that name in small letters; anything but white
      space behind it belongs to a further line. */
  lemma PlainHeader(w: Text, base: Text, rest: Text) returns (low: Text)
    requires White(w) && base != [] && BaseChars(base)
    ensures SmallLetters(base, low)
    ensures ParseLine(w + ([91] + (base + [93] + rest))) == if White(rest) then Header(low) else Compound
  {
    hide ParseBase, BaseChars, White, Lower, Ltrim, ParseLine;
    low := Lower(base);
    LowerIsSmall(base);
    var t := base + [93] + rest;
    assert t[|base|] == 93;
    HeaderLineIs(w, t);
    assert t == base + ([93] + rest) && ([93] + rest)[1..] == rest;
    BaseRead(base, [93] + rest, []);
    assert [] + low == low;
    AllWhite(rest);
  }

  /** What the name of a subsection is written with: characters, and backslashes with any
      character. */
  datatype SubToken = Raw(c: byte) | Slashed(c: byte)

  function SubSpelt(t: SubToken): Text { if t.Raw? then [t.c] else [92, t.c] }

  ghost predicate SubProper(ts: seq<SubToken>) { forall i :: 0 <= i < |ts| ==> ts[i].Raw? ==> ts[i].c != 34 && ts[i].c != 92 }

  function SubSpelling(ts: seq<SubToken>): Text { if ts == [] then [] else SubSpelt(ts[0]) + SubSpelling(ts[1..]) }

  /** The characters themselves: here n, t and b stand for themselves too. */
  function SubMeaning(ts: seq<SubToken>): Text { if ts == [] then [] else [ts[0].c] + SubMeaning(ts[1..]) }

  lemma SubSpellingFirst(ts: seq<SubToken>)
    requires ts != [] && SubProper(ts)
    ensures SubSpelling(ts) == SubSpelt(ts[0]) + SubSpelling(ts[1..]) && SubMeaning(ts) == [ts[0].c] + SubMeaning(ts[1..])
    ensures SubProper([ts[0]]) && SubProper(ts[1..])
  {
  }

  lemma SubSpellingNothing()
    ensures SubSpelling([]) == [] && SubMeaning([]) == []
  {
  }

  /** The loop of the subsection stops at the closing quote. */
  lemma {:induction false} SubsectionRead(q: Text, a: Text, z: Text, ts: seq<SubToken>, last: nat, name: Text)
    requires SubProper(ts) && q == a + SubSpelling(ts) + [34] + z && |a| + |SubSpelling(ts)| <= last
    ensures Subsection(q, |a|, last, name) == Some((name + SubMeaning(ts), |a| + |SubSpelling(ts)|))
    decreases ts
  {
    hide Subsection, SubSpelling, SubMeaning, SubProper, SubSpelt;
    SubSpellingNothing();
    if ts == [] {
      ConfigWrite.SubsectionEnd(q, |a|, last, name);
      assert name + [] == name;
    } else {
      var h, us := SubSpelt(ts[0]), ts[1..];
      SubSpellingFirst(ts);
      assert q == a + h + (SubSpelling(us) + [34] + z);
      SubsectionToken(q, a, SubSpelling(us) + [34] + z, last, name, ts[0]);
      assert name + [ts[0].c] + SubMeaning(us) == name + ([ts[0].c] + SubMeaning(us));
      assert q == (a + h) + SubSpelling(us) + [34] + z;
      SubsectionRead(q, a + h, z, us, last, name + [ts[0].c]);
      if |a + h| >= last {
        EmptySpelling(us);
        assert name + [ts[0].c] + [] == name + [ts[0].c];
      }
    }
  }

  lemma EmptySpelling(ts: seq<SubToken>)
    ensures SubSpelling(ts) == [] ==> ts == []
  {
  }

  lemma SubsectionToken(q: Text, a: Text, z: Text, last: nat, name: Text, t: SubToken)
    requires SubProper([t]) && q == a + SubSpelt(t) + z && z != []
    ensures var n := |a| + |SubSpelt(t)|;
            Subsection(q, |a|, last, name) == if n < last then Subsection(q, n, last, name + [t.c]) else Some((name + [t.c], n))
  {
    assert [t][0] == t;
    assert q[|a|] == SubSpelt(t)[0];
    if t.Slashed? { assert q[|a| + 1] == t.c; }
  }

  lemma {:induction false} LastQuoteBehind(q: Text, k: nat)
    requires k < |q| && q[k] == 34
    ensures LastQuote(q) >= k
  {
  }

  lemma SubsectionHeaderRead(w: Text, ts: seq<SubToken>, rest: Text, base: Text)
    requires White(w) && SubProper(ts)
    ensures ParseSubsection(w + ([34] + SubSpelling(ts) + [34, 93] + rest), base) == Some((base + [46] + SubMeaning(ts), rest))
  {
    hide LastQuote, Ltrim, Subsection, SubSpelling, SubMeaning, SubProper;
    var q, n := [34] + SubSpelling(ts) + [34, 93] + rest, 1 + |SubSpelling(ts)|;
    LtrimWhite(w, q);
    LtrimNone(q);
    LastQuoteBehind(q, n);
    assert q[1..n] == SubSpelling(ts) && q[n] == 34 && q[n + 1] == 93 && q[n + 2..] == rest;
    assert q == [34] + SubSpelling(ts) + [34] + ([93] + rest);
    SubsectionRead(q, [34], [93] + rest, ts, LastQuote(q), base + [46]);
  }

  /** A name and a quoted subsection in brackets: the subsection keeps its letters, and a
      backslash in it only stands before a character. */
  lemma SubsectionHeader(w: Text, base: Text, w1: Text, ts: seq<SubToken>, rest: Text) returns (low: Text)
    requires White(w) && BaseChars(base) && w1 != [] && White(w1) && SubProper(ts)
    ensures SmallLetters(base, low)
    ensures ParseLine(w + ([91] + (base + w1 + ([34] + SubSpelling(ts) + [34, 93] + rest)))) ==
            if White(rest) then Header(low + [46] + SubMeaning(ts)) else Compound
  {
    hide ParseBase, ParseSubsection, BaseChars, Lower, Ltrim, ParseLine, SubSpelling, SubMeaning, SubProper;
    low := Lower(base);
    LowerIsSmall(base);
    var q := [34] + SubSpelling(ts) + [34, 93] + rest;
    var t := base + w1 + q;
    assert t[|base| + |w1| + 1 + |SubSpelling(ts)| + 1] == 93;
    HeaderLineIs(w, t);
    assert t == base + (w1 + q) && (w1 + q)[1..] == w1[1..] + q;
    WhitePlain(w1);
    BaseRead(base, w1 + q, []);
    assert [] + low == low;
    SubsectionHeaderRead(w1[1..], ts, rest, low);
    AllWhite(rest);
  }
}
