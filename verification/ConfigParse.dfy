/** Configuration files, reading (config_parse.c): comments, section headers, names and
    values of one line. */
module ConfigParse {
  import opened Common

  const DQUOTE: byte := 34
  const BACKSLASH: byte := 92
  const OPENING: byte := 91
  const CLOSING: byte := 93
  const DOT: byte := 46
  const EQUALS: byte := 61

  type Text = seq<byte>

  function Ltrim(s: Text): (t: Text)
    ensures |t| <= |s| && t == s[|s| - |t|..]
  {
    if s != [] && IsSpace(s[0]) then Ltrim(s[1..]) else s
  }

  predicate IsAlnum(c: byte) { 48 <= c <= 57 || 65 <= c <= 90 || 97 <= c <= 122 }

  predicate KeyChar(c: byte) { IsAlnum(c) || c == 45 }

  function ToLower(c: byte): byte { if 65 <= c <= 90 then c + 32 else c }

  function Lower(s: Text): (t: Text)
    ensures |t| == |s|
  {
    seq(|s|, i requires 0 <= i < |s| => ToLower(s[i]))
  }

  // --------------------------------------------------------------------- comments

  predicate CommentChar(c: byte) { c == 59 || c == 35 }

  /** Where a comment starts, or the end; quotes and backslashes are counted on the way. */
  function CommentStart(s: Text, i: nat, quotes: nat, backslashes: nat): (k: nat)
    requires i <= |s|
    ensures i <= k <= |s|
    decreases |s| - i
  {
    if i == |s| then i
    else
      var q := if s[i] == DQUOTE && i > 0 && s[i - 1] != BACKSLASH then quotes + 1 else quotes;
      if CommentChar(s[i]) && q % 2 == 0 && backslashes % 2 == 0 then i
      else CommentStart(s, i + 1, q, if s[i] == BACKSLASH then backslashes + 1 else 0)
  }

  function StripComments(s: Text): Text { Rtrim(s[..CommentStart(s, 0, 0, 0)]) }

  // ------------------------------------------------------------------------ values

  /** git_config_escaped: newline, tab, backspace, double quote, backslash. */
  predicate Escaped(c: byte) { c == 10 || c == 9 || c == 8 || c == DQUOTE || c == BACKSLASH }

  /** git_config_escapes: n t b " \ */
  function EscapeLetter(c: byte): byte
    requires Escaped(c)
  {
    if c == 10 then 110 else if c == 9 then 116 else if c == 8 then 98 else c
  }

  function EscapeOne(c: byte): Text { if Escaped(c) then [BACKSLASH, EscapeLetter(c)] else [c] }

  /** escape_value */
  function Escape(v: Text): Text { if v == [] then [] else EscapeOne(v[0]) + Escape(v[1..]) }

  /** unescape_line: a value, the start of a value that goes on in the next line, or an
      invalid escape. */
  datatype Unescaped = Value(text: Text) | Continued | Invalid

  function Prepend(c: byte, u: Unescaped): Unescaped { if u.Value? then Value([c] + u.text) else u }

  function Unescape(s: Text): Unescaped {
    if s == [] then Value([])
    else if s[0] == DQUOTE then Unescape(s[1..])
    else if s[0] != BACKSLASH then Prepend(s[0], Unescape(s[1..]))
    else if |s| == 1 then Continued
    else
      match s[1]
      case 110 => Prepend(10, Unescape(s[2..]))
      case 116 => Prepend(9, Unescape(s[2..]))
      case 98 => Prepend(8, Unescape(s[2..]))
      case 34 => Prepend(DQUOTE, Unescape(s[2..]))
      case 92 => Prepend(BACKSLASH, Unescape(s[2..]))
      case _ => Invalid
  }

  // --------------------------------------------------------------------- the lines

  /** What a line is.  `Compound` lines have more behind a section header, `MultiLine`
      ones go on in the next line; neither is followed further here. */
  datatype Kind = Header(section: Text) | Comment | Variable(name: Text, value: Option<Text>) | Compound | MultiLine | Bad

  function NameLength(s: Text): (n: nat)
    ensures n <= |s|
  {
    if s != [] && KeyChar(s[0]) then 1 + NameLength(s[1..]) else 0
  }

  /** parse_name: the name, and what follows the equals sign if there is one. */
  function ParseName(s: Text): Option<(Text, Option<Text>)> {
    var n := NameLength(s);
    var rest := Ltrim(s[n..]);
    if n == 0 then None
    else if rest == [] then Some((s[..n], None))
    else if rest[0] == EQUALS then Some((s[..n], Some(rest[1..])))
    else None
  }

  /** parse_variable */
  function ParseVariable(s: Text): Kind {
    match ParseName(StripComments(s))
    case None => Bad
    case Some((name, None)) => Variable(name, None)
    case Some((name, Some(v))) =>
      match Unescape(Ltrim(v))
      case Value(text) => Variable(name, Some(text))
      case Continued => MultiLine
      case Invalid => Bad
  }

  function LastQuote(s: Text): (k: int)
    ensures -1 <= k < |s| && (k >= 0 ==> s[k] == DQUOTE) && forall i :: k < i < |s| ==> s[i] != DQUOTE
  {
    if s == [] then -1 else if s[|s| - 1] == DQUOTE then |s| - 1 else LastQuote(s[..|s| - 1])
  }

  /** The loop of parse_subsection_header over q, which starts with the first quote. */
  function Subsection(q: Text, r: nat, last: nat, name: Text): (res: Option<(Text, nat)>)
    requires r <= |q|
    ensures res.Some? ==> res.value.1 <= |q|
    decreases |q| - r
  {
    if r == |q| then None
    else if q[r] == DQUOTE then Some((name, r))
    else if q[r] == BACKSLASH then
      if r + 1 == |q| then None
      else if r + 2 < last then Subsection(q, r + 2, last, name + [q[r + 1]])
      else Some((name + [q[r + 1]], r + 2))
    else if r + 1 < last then Subsection(q, r + 1, last, name + [q[r]])
    else Some((name + [q[r]], r + 1))
  }

  /** parse_subsection_header on what follows the base name: the section and the rest. */
  function ParseSubsection(s: Text, base: Text): Option<(Text, Text)> {
    var q := Ltrim(s);
    if q == [] || q[0] != DQUOTE then None
    else if LastQuote(q) == 0 then None
    else
      match Subsection(q, 1, LastQuote(q), base + [DOT])
      case None => None
      case Some((name, r)) =>
        if r + 1 < |q| && q[r] == DQUOTE && q[r + 1] == CLOSING then Some((name, q[r + 2..])) else None
  }

  /** The loop of parse_section_header, behind the bracket. */
  function ParseBase(s: Text, name: Text): Option<(Text, Text)>
    decreases |s|
  {
    if s == [] then None
    else if IsSpace(s[0]) then ParseSubsection(s[1..], name)
    else if !KeyChar(s[0]) && s[0] != DOT then None
    else if |s| > 1 && s[1] == CLOSING then Some((name + [ToLower(s[0])], s[2..]))
    else ParseBase(s[1..], name + [ToLower(s[0])])
  }

  /** parse_section_header, and whether there is more in the line. */
  function ParseHeader(s: Text): Kind
    requires s != [] && s[0] == OPENING
  {
    if CLOSING !in s then Bad
    else
      match ParseBase(s[1..], [])
      case None => Bad
      case Some((section, rest)) => if Ltrim(rest) == [] then Header(section) else Compound
  }

  /** The switch of git_config_parse over one line, without its line feed. */
  function ParseLine(line: Text): Kind {
    var t := Ltrim(line);
    if t == [] then (if line == [] || line[0] == 13 || line[0] == 32 || line[0] == 9 then Comment else Bad)
    else if t[0] == OPENING then ParseHeader(t)
    else if CommentChar(t[0]) then Comment
    else ParseVariable(t)
  }

  // ------------------------------------------------------------------------ the code

  lemma RtrimLast(s: Text)
    requires s != []
    ensures Rtrim(s) == if IsSpace(s[|s| - 1]) then Rtrim(s[..|s| - 1]) else s
  {
  }

  lemma RtrimNothing()
    ensures Rtrim([]) == []
  {
  }

  /** The end of strip_comments: white space before the end is left out. */
  method TrimEnd(line: array<byte>, len: nat) returns (n: nat)
    requires len < line.Length
    modifies line
    ensures n <= len && line[..n] == Rtrim(old(line[..len])) && line[n] == 0
  {
    hide Rtrim, IsSpace;
    ghost var s := line[..len];
    n := len;
    assert s[..n] == s;
    while n > 0 && IsSpace(line[n - 1])
      invariant n <= len && line[..len] == s && Rtrim(s[..n]) == Rtrim(s)
    {
      RtrimLast(s[..n]);
      assert s[..n][..n - 1] == s[..n - 1];
      n := n - 1;
    }
    if n > 0 { RtrimLast(s[..n]); } else { RtrimNothing(); }
    line[n] := 0;
    assert line[..n] == s[..n];
  }

  /** strip_comments: ends the line in place where a comment starts, and before the white
      space there.  `len` is the length of the string in the buffer. */
  method StripInPlace(line: array<byte>, len: nat) returns (n: nat)
    requires len < line.Length
    modifies line
    ensures n <= len && line[..n] == StripComments(old(line[..len])) && line[n] == 0
  {
    ghost var s := line[..len];
    var quoteCount: nat, backslashCount: nat := 0, 0;
    var ptr: nat := 0;
    while ptr < len
      invariant ptr <= len && line[..len] == s && CommentStart(s, 0, 0, 0) == CommentStart(s, ptr, quoteCount, backslashCount)
    {
      if line[ptr] == DQUOTE && ptr > 0 && line[ptr - 1] != BACKSLASH { quoteCount := quoteCount + 1; }
      if CommentChar(line[ptr]) && quoteCount % 2 == 0 && backslashCount % 2 == 0 { break; }
      if line[ptr] == BACKSLASH { backslashCount := backslashCount + 1; } else { backslashCount := 0; }
      ptr := ptr + 1;
    }
    assert line[..ptr] == s[..ptr];
    n := TrimEnd(line, ptr);
    assert line[..n] == Rtrim(s[..ptr]);
  }

  /** `done` followed by what the rest says. */
  function Resumed(done: Text, u: Unescaped): Unescaped { if u.Value? then Value(done + u.text) else u }

  lemma UnescapeStep(s: Text, i: nat, done: Text)
    requires i < |s|
    ensures s[i] == DQUOTE ==> Resumed(done, Unescape(s[i..])) == Resumed(done, Unescape(s[i + 1..]))
    ensures s[i] != DQUOTE && s[i] != BACKSLASH ==> Resumed(done, Unescape(s[i..])) == Resumed(done + [s[i]], Unescape(s[i + 1..]))
    ensures s[i] == BACKSLASH && i + 1 == |s| ==> Unescape(s[i..]) == Continued
  {
    var t := s[i..];
    assert t[0] == s[i] && t[1..] == s[i + 1..];
    if Unescape(s[i + 1..]).Value? {
      var u := Unescape(s[i + 1..]).text;
      assert done + [s[i]] + u == done + ([s[i]] + u);
    }
  }

  lemma UnescapePair(s: Text, i: nat, done: Text)
    requires i + 1 < |s| && s[i] == BACKSLASH
    ensures match Letter(s[i + 1])
            case None => Unescape(s[i..]) == Invalid
            case Some(c) => Resumed(done, Unescape(s[i..])) == Resumed(done + [c], Unescape(s[i + 2..]))
  {
    var t := s[i..];
    assert t[0] == s[i] && t[1] == s[i + 1] && t[2..] == s[i + 2..];
    if Letter(s[i + 1]).Some? && Unescape(s[i + 2..]).Value? {
      var (c, u) := (Letter(s[i + 1]).value, Unescape(s[i + 2..]).text);
      assert done + [c] + u == done + ([c] + u);
    }
  }

  /** The character that an escape letter stands for. */
  function Letter(c: byte): Option<byte> {
    match c
    case 110 => Some(10) case 116 => Some(9) case 98 => Some(8) case 34 => Some(DQUOTE) case 92 => Some(BACKSLASH) case _ => None
  }

  /** unescape_line */
  method UnescapeLine(ptr: Text) returns (u: Unescaped)
    ensures u == Unescape(ptr)
  {
    hide Unescape;
    var fixed: Text := [];
    var i: nat := 0;
    assert ptr[0..] == ptr;
    ResumedNothing(Unescape(ptr));
    while i < |ptr|
      invariant i <= |ptr| && Resumed(fixed, Unescape(ptr[i..])) == Unescape(ptr)
      decreases |ptr| - i
    {
      UnescapeStep(ptr, i, fixed);
      if ptr[i] == DQUOTE {
      } else if ptr[i] != BACKSLASH {
        fixed := fixed + [ptr[i]];
      } else {
        if i + 1 == |ptr| { return Continued; }
        UnescapePair(ptr, i, fixed);
        i := i + 1;
        var esc := Letter(ptr[i]);
        if esc.None? { return Invalid; }
        fixed := fixed + [esc.value];
      }
      i := i + 1;
    }
    assert ptr[i..] == [];
    UnescapeNothing();
    u := Value(fixed);
  }

  lemma ResumedNothing(u: Unescaped)
    ensures Resumed([], u) == u
  {
    if u.Value? { assert [] + u.text == u.text; }
  }

  lemma UnescapeNothing()
    ensures Unescape([]) == Value([])
  {
  }

  /** The first position from i on that is not white space. */
  method SkipSpace(s: Text, i: nat) returns (k: nat)
    requires i <= |s|
    ensures i <= k <= |s| && s[k..] == Ltrim(s[i..])
  {
    k := i;
    while k < |s| && IsSpace(s[k])
      invariant i <= k <= |s| && Ltrim(s[k..]) == Ltrim(s[i..])
    {
      assert s[k..][1..] == s[k + 1..];
      k := k + 1;
    }
  }

  /** parse_name */
  method ParseNameOf(line: Text) returns (r: Option<(Text, Option<Text>)>)
    ensures r == ParseName(line)
  {
    var nameEnd: nat := 0;
    assert line[0..] == line;
    while nameEnd < |line| && KeyChar(line[nameEnd])
      invariant nameEnd <= |line| && NameLength(line) == nameEnd + NameLength(line[nameEnd..])
    {
      assert line[nameEnd..][1..] == line[nameEnd + 1..];
      nameEnd := nameEnd + 1;
    }
    if nameEnd == 0 { return None; }
    var valueStart := SkipSpace(line, nameEnd);
    if valueStart == |line| { return Some((line[..nameEnd], None)); }
    if line[valueStart] == EQUALS {
      assert line[valueStart..][1..] == line[valueStart + 1..];
      return Some((line[..nameEnd], Some(line[valueStart + 1..])));
    }
    r := None;
  }

  /** parse_variable on a line whose leading white space is skipped. */
  method ParseVariableOf(s: Text) returns (k: Kind)
    ensures k == ParseVariable(s)
  {
    hide StripComments, ParseName, Unescape;
    var line := new byte[|s| + 1](i requires 0 <= i => if i < |s| then s[i] else 0);
    assert line[..|s|] == s;
    var n := StripInPlace(line, |s|);
    var r := ParseNameOf(line[..n]);
    if r.None? { return Bad; }
    var (name, value) := r.value;
    if value.None? { return Variable(name, None); }
    var start := SkipSpace(value.value, 0);
    assert value.value[0..] == value.value;
    var u := UnescapeLine(value.value[start..]);
    match u
    case Value(text) => k := Variable(name, Some(text));
    case Continued => k := MultiLine;
    case Invalid => k := Bad;
  }

  /** strrchr for a double quote. */
  method FindLastQuote(s: Text) returns (k: int)
    ensures k == LastQuote(s)
  {
    k := |s| - 1;
    assert s[..|s|] == s;
    while k >= 0 && s[k] != DQUOTE
      invariant -1 <= k < |s| && LastQuote(s[..k + 1]) == LastQuote(s)
    {
      assert s[..k + 1][..k] == s[..k];
      k := k - 1;
    }
  }

  /** parse_subsection_header */
  method ParseSubsectionHeader(s: Text, base: Text) returns (r: Option<(Text, Text)>)
    ensures r == ParseSubsection(s, base)
  {
    hide LastQuote, Ltrim;
    var pos := SkipSpace(s, 0);
    assert s[0..] == s;
    var q := s[pos..];
    if q == [] || q[0] != DQUOTE { return None; }
    var last := FindLastQuote(q);
    if last == 0 { return None; }
    var name, rpos: nat := base + [DOT], 1;
    ghost var all := Subsection(q, 1, last, name);
    if rpos == |q| { return None; }
    while q[rpos] != DQUOTE
      invariant rpos < |q| && Subsection(q, rpos, last, name) == all
      decreases |q| - rpos
    {
      if q[rpos] == BACKSLASH {
        rpos := rpos + 1;
        if rpos == |q| { return None; }
      }
      name := name + [q[rpos]];
      rpos := rpos + 1;
      if rpos >= last { break; }
      if rpos == |q| { return None; }
    }
    if rpos + 1 < |q| && q[rpos] == DQUOTE && q[rpos + 1] == CLOSING { return Some((name, q[rpos + 2..])); }
    r := None;
  }

  /** parse_section_header on a line that starts with the bracket. */
  method ParseSectionHeader(line: Text) returns (k: Kind)
    requires line != [] && line[0] == OPENING
    ensures k == ParseHeader(line)
  {
    hide ParseSubsection, Ltrim;
    if CLOSING !in line { return Bad; }
    var name: Text, pos: nat := [], 1;
    ghost var all := ParseBase(line[1..], []);
    if pos == |line| { return Bad; }
    while true
      invariant 0 < pos < |line| && ParseBase(line[pos..], name) == all
      decreases |line| - pos
    {
      var c := line[pos];
      assert line[pos..][1..] == line[pos + 1..];
      if IsSpace(c) {
        var sub := ParseSubsectionHeader(line[pos + 1..], name);
        if sub.None? { return Bad; }
        k := RestOfLine(sub.value.0, sub.value.1);
        return;
      }
      if !KeyChar(c) && c != DOT { return Bad; }
      name := name + [ToLower(c)];
      pos := pos + 1;
      if pos == |line| { return Bad; }
      if line[pos] == CLOSING { break; }
    }
    assert line[pos - 1..][2..] == line[pos + 1..];
    k := RestOfLine(name, line[pos + 1..]);
  }

  /** Whether the line goes on behind the header. */
  method RestOfLine(section: Text, rest: Text) returns (k: Kind)
    ensures k == if Ltrim(rest) == [] then Header(section) else Compound
  {
    var p := SkipSpace(rest, 0);
    assert rest[0..] == rest;
    k := if p == |rest| then Header(section) else Compound;
  }

  /** The switch of git_config_parse. */
  method ParseLineOf(line: Text) returns (k: Kind)
    ensures k == ParseLine(line)
  {
    hide ParseHeader, ParseVariable, Ltrim;
    var start := SkipSpace(line, 0);
    assert line[0..] == line;
    if start == |line| {
      k := if line == [] || line[0] == 13 || line[0] == 32 || line[0] == 9 then Comment else Bad;
    } else if line[start] == OPENING {
      k := ParseSectionHeader(line[start..]);
    } else if CommentChar(line[start]) {
      k := Comment;
    } else {
      k := ParseVariableOf(line[start..]);
    }
  }
}
