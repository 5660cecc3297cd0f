/** The rewriting state machine of config_file.c, and setting or deleting one key. */
module ConfigRewrite {
  import opened Common
  import opened ConfigParse
  import opened ConfigWrite
  import opened ConfigFrame
  import opened ConfigLines
  import opened TextLines

  // ------------------------------------------------------------------------ the code

  function Terminated(line: Text): Text { if line != [] && line[|line| - 1] != LF then line + [LF] else line }

  /** write_data, with the output and the comments that are held back as texts. */
  class WriteData {
    const key: Key
    var buf: Text
    var bufferedComment: Text
    var inSection: bool
    var value: Option<Text>

    constructor (key: Key, value: Option<Text>)
      ensures this.key == key && this.value == value && buf == [] && bufferedComment == [] && !inSection
    {
      this.key, this.value, buf, bufferedComment, inSection := key, value, [], [], false;
    }

    /** write_line */
    method WriteLine(line: Text)
      modifies this`buf
      ensures buf == old(buf) + Terminated(line)
    {
      buf := buf + line;
      if line != [] && line[|line| - 1] != LF { buf := buf + [LF]; }
    }

    /** write_value: the value is written once. */
    method WriteValue()
      requires value.Some?
      modifies this`buf, this`value
      ensures buf == old(buf) + TextOf(Written(key, old(value))) && value == None
    {
      TextOfOne(ValueLine(key.origName, value.value));
      var e := value.value;
      var q := if NeedsQuotes(e) then [DQUOTE] else [];
      buf := buf + ([9] + key.origName + [32, EQUALS, 32] + q + e + q + [LF]);
      assert [9] + key.origName + [32, EQUALS, 32] + q + e + q == ValueLine(key.origName, e);
      value := None;
    }

    /** The comments that are held back are written. */
    method DumpComments()
      modifies this`buf, this`bufferedComment
      ensures buf == old(buf) + old(bufferedComment) && bufferedComment == []
    {
      buf := buf + bufferedComment;
      bufferedComment := [];
    }

    /** write_on_section */
    method WriteOnSection(currentSection: Text, line: Text)
      modifies this
      ensures inSection == (currentSection == key.section) && bufferedComment == []
      ensures value == if old(inSection) then None else old(value)
      ensures buf == old(buf) + (if old(inSection) then TextOf(Written(key, old(value))) else []) + old(bufferedComment) + Terminated(line)
    {
      if inSection && value.Some? { WriteValue(); }
      inSection := currentSection == key.section;
      DumpComments();
      WriteLine(line);
    }

    /** write_on_variable */
    method WriteOnVariable(name: Text, line: Text)
      modifies this
      ensures inSection == old(inSection) && bufferedComment == []
      ensures var matched := old(inSection) && Lower(key.name) == Lower(name);
              && value == (if matched then None else old(value))
              && buf == old(buf) + old(bufferedComment) + if matched then TextOf(Written(key, old(value))) else Terminated(line)
    {
      DumpComments();
      if !(inSection && Lower(key.name) == Lower(name)) {
        WriteLine(line);
        return;
      }
      if value.None? { return; }
      WriteValue();
    }

    /** write_on_comment */
    method WriteOnComment(line: Text)
      modifies this`bufferedComment
      ensures bufferedComment == old(bufferedComment) + Terminated(line)
    {
      bufferedComment := bufferedComment + line;
      if line != [] && line[|line| - 1] != LF { bufferedComment := bufferedComment + [LF]; }
    }

    /** write_on_eof */
    method WriteOnEof(currentSection: Option<Text>)
      modifies this
      ensures buf == old(buf) + old(bufferedComment)
                     + TextOf(if old(value).Some? && currentSection != Some(key.section) then [HeaderLine(key.origSection)] else [])
                     + TextOf(Written(key, old(value)))
    {
      buf := buf + bufferedComment;
      if value.Some? {
        if currentSection != Some(key.section) {
          TextOfOne(HeaderLine(key.origSection));
          buf := buf + HeaderLine(key.origSection) + [LF];
        }
        WriteValue();
      }
    }
  }

  /** Before the first line that cannot be parsed, no line goes beyond what is modelled. */
  ghost predicate Supported(ls: seq<Text>) {
    forall i :: 0 <= i < |ls| ==> !ParseLine(ls[i]).Compound? && !ParseLine(ls[i]).MultiLine?
  }

  lemma RewrittenHeader(p: Text -> Kind, key: Key, ls: seq<Text>, section: Option<Text>, comments: seq<Text>, value: Option<Text>)
    requires ls != [] && p(ls[0]).Header?
    ensures var here := section == Some(key.section);
            TextOf(Rewritten(p, key, ls, section, comments, value)) ==
            (if here then TextOf(Written(key, value)) else []) + TextOf(comments) + (ls[0] + [LF])
            + TextOf(Rewritten(p, key, ls[1..], Some(p(ls[0]).section), [], if here then None else value))
  {
    hide Written, TextOf;
    var here := section == Some(key.section);
    var w, rest := if here then Written(key, value) else [], Rewritten(p, key, ls[1..], Some(p(ls[0]).section), [], if here then None else value);
    TextOfNone();
    TextOfOne(ls[0]);
    TextOfConcat(w, comments);
    TextOfConcat(w + comments, [ls[0]]);
    TextOfConcat(w + comments + [ls[0]], rest);
  }

  lemma TextOfNone()
    ensures TextOf([]) == []
  {
  }

  lemma RewrittenVariable(p: Text -> Kind, key: Key, ls: seq<Text>, section: Option<Text>, comments: seq<Text>, value: Option<Text>)
    requires ls != [] && p(ls[0]).Variable?
    ensures var mine := IsKey(key, section, p(ls[0]).name);
            TextOf(Rewritten(p, key, ls, section, comments, value)) ==
            TextOf(comments) + (if mine then TextOf(Written(key, value)) else ls[0] + [LF])
            + TextOf(Rewritten(p, key, ls[1..], section, [], if mine then None else value))
  {
    hide Written, TextOf, IsKey;
    var mine := IsKey(key, section, p(ls[0]).name);
    var w, rest := if mine then Written(key, value) else [ls[0]], Rewritten(p, key, ls[1..], section, [], if mine then None else value);
    TextOfOne(ls[0]);
    TextOfConcat(comments, w);
    TextOfConcat(comments + w, rest);
  }

  lemma RewrittenEof(p: Text -> Kind, key: Key, section: Option<Text>, comments: seq<Text>, value: Option<Text>)
    ensures TextOf(Rewritten(p, key, [], section, comments, value)) ==
            TextOf(comments) + TextOf(if value.Some? && section != Some(key.section) then [HeaderLine(key.origSection)] else [])
            + TextOf(Written(key, value))
  {
    hide TextOf, Written, HeaderLine;
    var h := if value.Some? && section != Some(key.section) then [HeaderLine(key.origSection)] else [];
    TextOfConcat(comments, h);
    TextOfConcat(comments + h, Written(key, value));
  }

  /** Where the rewriting stands: what is written so far, and what is still to come. */
  ghost predicate Stands(p: Text -> Kind, key: Key, buf: Text, all: Text, ls: seq<Text>, section: Option<Text>, comments: seq<Text>, value: Option<Text>) {
    buf + TextOf(Rewritten(p, key, ls, section, comments, value)) == all
  }

  lemma Started(p: Text -> Kind, key: Key, all: Text, ls: seq<Text>, value: Option<Text>)
    requires all == TextOf(Rewritten(p, key, ls, None, [], value))
    ensures Stands(p, key, [], all, ls[0..], None, [], value) && TextOf([]) == []
  {
    hide Rewritten, TextOf;
    TextOfNone();
    assert ls[0..] == ls;
  }

  lemma LineIs(contents: Text, i: nat)
    requires i < |Lines(contents)|
    ensures Chopped(Lines(contents)[i]) == LineContents(contents)[i]
    ensures Terminated(Lines(contents)[i]) == LineContents(contents)[i] + [LF]
  {
    LinesSplit(contents);
    hide Lines;
  }

  lemma AfterHeader(p: Text -> Kind, key: Key, buf: Text, all: Text, ls: seq<Text>, section: Option<Text>, comments: seq<Text>, value: Option<Text>)
    requires ls != [] && p(ls[0]).Header? && Stands(p, key, buf, all, ls, section, comments, value)
    ensures var (s, here) := (Some(p(ls[0]).section), section == Some(key.section));
            Stands(p, key, buf + (if here then TextOf(Written(key, value)) else []) + TextOf(comments) + (ls[0] + [LF]), all, ls[1..], s, [],
                   if here then None else value)
    ensures TextOf([]) == []
  {
    hide TextOf, Rewritten, Written;
    TextOfNone();
    RewrittenHeader(p, key, ls, section, comments, value);
    var here := section == Some(key.section);
    Regroup(buf, if here then TextOf(Written(key, value)) else [], TextOf(comments), ls[0] + [LF],
            TextOf(Rewritten(p, key, ls[1..], Some(p(ls[0]).section), [], if here then None else value)));
  }

  lemma Regroup(a: Text, b: Text, c: Text, d: Text, e: Text)
    ensures a + (b + c + d + e) == a + b + c + d + e
  {
  }

  lemma AfterComment(p: Text -> Kind, key: Key, buf: Text, all: Text, ls: seq<Text>, section: Option<Text>, comments: seq<Text>, value: Option<Text>)
    requires ls != [] && p(ls[0]).Comment? && Stands(p, key, buf, all, ls, section, comments, value)
    ensures Stands(p, key, buf, all, ls[1..], section, comments + [ls[0]], value)
    ensures TextOf(comments + [ls[0]]) == TextOf(comments) + (ls[0] + [LF])
  {
    hide TextOf;
    TextOfOne(ls[0]);
    TextOfConcat(comments, [ls[0]]);
  }

  lemma AfterVariable(p: Text -> Kind, key: Key, buf: Text, all: Text, ls: seq<Text>, section: Option<Text>, comments: seq<Text>, value: Option<Text>)
    requires ls != [] && p(ls[0]).Variable? && Stands(p, key, buf, all, ls, section, comments, value)
    ensures var mine := IsKey(key, section, p(ls[0]).name);
            Stands(p, key, buf + TextOf(comments) + (if mine then TextOf(Written(key, value)) else ls[0] + [LF]), all, ls[1..], section, [],
                   if mine then None else value)
    ensures TextOf([]) == []
  {
    hide TextOf, Rewritten, Written, IsKey;
    TextOfNone();
    RewrittenVariable(p, key, ls, section, comments, value);
    var mine := IsKey(key, section, p(ls[0]).name);
    Joined(buf, TextOf(comments), if mine then TextOf(Written(key, value)) else ls[0] + [LF],
           TextOf(Rewritten(p, key, ls[1..], section, [], if mine then None else value)));
  }

  lemma Joined(a: Text, b: Text, c: Text, d: Text)
    ensures a + (b + c + d) == a + b + c + d
  {
  }

  lemma AtEof(p: Text -> Kind, key: Key, buf: Text, all: Text, section: Option<Text>, comments: seq<Text>, value: Option<Text>)
    requires Stands(p, key, buf, all, [], section, comments, value)
    ensures buf + TextOf(comments) + TextOf(if value.Some? && section != Some(key.section) then [HeaderLine(key.origSection)] else [])
            + TextOf(Written(key, value)) == all
  {
    RewrittenEof(p, key, section, comments, value);
    hide TextOf, Rewritten, Written, HeaderLine;
  }

  lemma KeyIs(key: Key, section: Option<Text>, name: Text)
    ensures IsKey(key, section, name) == (section == Some(key.section) && Lower(key.name) == Lower(name))
  {
  }

  /** config_file_write: nothing is written if some line cannot be parsed. */
  method ConfigFileWrite(contents: Text, key: Key, value: Option<Text>) returns (result: Option<Text>)
    requires Supported(LineContents(contents))
    ensures result.Some? == forall i :: 0 <= i < |LineContents(contents)| ==> !ParseLine(LineContents(contents)[i]).Bad?
    ensures result.Some? ==> result.value == TextOf(Rewritten(ParseLine, key, LineContents(contents), None, [], value))
  {
    hide ParseLine, Rewritten, TextOf, LineContents, Terminated, IsKey, Stands, Lines;
    ghost var ls := LineContents(contents);
    ghost var all := TextOf(Rewritten(ParseLine, key, ls, None, [], value));
    ghost var comments: seq<Text> := [];
    var data := new WriteData(key, value);
    var lines := Lines(contents);
    var section: Option<Text> := None;
    var i := 0;
    Started(ParseLine, key, all, ls, value);
    while i < |lines|
      modifies data
      invariant i <= |lines| == |ls| && data.key == key && data.inSection == (section == Some(key.section))
      invariant data.bufferedComment == TextOf(comments)
      invariant Stands(ParseLine, key, data.buf, all, ls[i..], section, comments, data.value)
      invariant forall j :: 0 <= j < i ==> !ParseLine(ls[j]).Bad?
    {
      var line := lines[i];
      LineIs(contents, i);
      var k := ParseLineOf(Chopped(line));
      ghost var rest, c0, b0, v0, s0 := ls[i..], data.bufferedComment, data.buf, data.value, section;
      assert rest[0] == ls[i] && rest[1..] == ls[i + 1..];
      match k {
        case Header(s) =>
          data.WriteOnSection(s, line);
          section := Some(s);
          AfterHeader(ParseLine, key, b0, all, rest, s0, comments, v0);
          comments := [];
        case Comment =>
          data.WriteOnComment(line);
          AfterComment(ParseLine, key, b0, all, rest, s0, comments, v0);
          comments := comments + [ls[i]];
        case Variable(name, _) =>
          data.WriteOnVariable(name, line);
          KeyIs(key, section, name);
          AfterVariable(ParseLine, key, b0, all, rest, s0, comments, v0);
          comments := [];
        case _ =>
          return None;
      }
      i := i + 1;
    }
    ghost var b0, v0 := data.buf, data.value;
    data.WriteOnEof(section);
    assert ls[i..] == [];
    AtEof(ParseLine, key, b0, all, section, comments, v0);
    result := Some(data.buf);
  }

  // ---------------------------------------------------------------- the whole file

  lemma {:induction false} EscapeOneLine(v: Text)
    ensures LF !in Escape(v)
  {
    if v != [] { EscapeOneLine(v[1..]); }
  }

  lemma WrittenOneLine(key: Key, value: Option<Text>)
    requires ValidKey(key)
    ensures LF !in HeaderLine(key.origSection) && (value.Some? ==> LF !in ValueLine(key.origName, Escape(value.value)))
  {
    var d := FirstDot(key.origSection);
    if d < |key.origSection| { EscapeOneLine(key.origSection[d + 1..]); }
    if value.Some? { EscapeOneLine(value.value); }
    hide Escape, NeedsQuotes, StoredSection, Lower;
    forall c | c in key.origSection[..d] ensures c != LF { }
    forall c | c in key.origName ensures c != LF { }
  }

  /** Nothing that is written holds a line feed within a line. */
  lemma {:induction false} RewrittenOneLine(p: Text -> Kind, key: Key, ls: seq<Text>, section: Option<Text>, comments: seq<Text>, value: Option<Text>)
    requires ValidKey(key) && (forall l :: l in ls ==> LF !in l) && forall l :: l in comments ==> LF !in l
    ensures forall l :: l in Rewritten(p, key, ls, section, comments, Escapes(value)) ==> LF !in l
    decreases ls
  {
    hide ValidKey, IsKey, Escape, ValueLine, HeaderLine;
    WrittenOneLine(key, value);
    if ls != [] {
      var k := p(ls[0]);
      if k.Header? {
        RewrittenOneLine(p, key, ls[1..], Some(k.section), [], if section == Some(key.section) then None else value);
      } else if k.Variable? {
        RewrittenOneLine(p, key, ls[1..], section, [], if IsKey(key, section, k.name) then None else value);
      } else {
        RewrittenOneLine(p, key, ls[1..], section, comments + [ls[0]], value);
      }
    }
  }

  lemma ContentsOneLine(contents: Text)
    ensures forall l :: l in LineContents(contents) ==> LF !in l
  {
    LinesSplit(contents);
    hide Lines;
    forall i | 0 <= i < |LineContents(contents)| ensures LF !in LineContents(contents)[i] {
      var l := Lines(contents)[i];
      assert Chopped(l) == l[..|l| - 1] || (l[|l| - 1] != LF && Chopped(l) == l);
      assert l == l[..|l| - 1] + [l[|l| - 1]];
    }
  }

  /** What the lines of a file are, and the entries they give. */
  function FileKinds(contents: Text): seq<Kind> { Kinds(ParseLine, LineContents(contents)) }

  function FileEntries(contents: Text): seq<Entry> { Entries(FileKinds(contents), None) }

  /** config_file_set and config_file_delete on a file of simple lines: the file that is
      written holds, when it is read, the revised entries: every other key as before, in
      the same order, and the key with exactly the value that was set, or not at all.  A
      key that is there once is replaced in its place unless it moves. */
  method SetOrDelete(contents: Text, key: Key, value: Option<Text>) returns (written: Text)
    requires ValidKey(key) && AllSimple(FileKinds(contents))
    ensures AllSimple(FileKinds(written))
    ensures LineContents(written) == Laid(ParseLine, key, [], LineContents(contents), None, Escapes(value))
    ensures FileEntries(written) == Revised(key, FileKinds(contents), value)
    ensures Others(key, FileEntries(written)) == Others(key, FileEntries(contents))
    ensures Values(key, FileEntries(written)) == NewValues(value)
    ensures forall i: nat :: Once(key, FileEntries(contents), i) ==>
              var es := FileEntries(contents);
              if value.None? then FileEntries(written) == es[..i] + es[i + 1..]
              else FileEntries(written) == es[i := NewEntry(key, value)[0]] <==> !Moves(key, FileKinds(contents))
    ensures AllOther(key, FileEntries(contents)) ==>
              var (es, p) := (FileEntries(contents), EntriesBefore(FileKinds(contents), Stop(key, FileKinds(contents), None)));
              p <= |es| && FileEntries(written) == es[..p] + NewEntry(key, value) + es[p..]
  {
    hide ParseLine, Rewritten, TextOf, LineContents, Lines, ValidKey, Entries, Others, Values, Simple, Laid;
    ghost var ls := LineContents(contents);
    SimpleSupported(ls);
    var result := ConfigFileWrite(contents, key, Escapes(value));
    written := result.value;
    ContentsOneLine(contents);
    RewrittenOneLine(ParseLine, key, ls, None, [], value);
    ContentsOfText(Rewritten(ParseLine, key, ls, None, [], Escapes(value)));
    RewrittenLines(ParseLine, key, ls, None, [], Escapes(value));
    ParserReadsBack(key);
    KeyNames(key);
    SetFrame(ParseLine, key, ls, value);
    forall i: nat | Once(key, FileEntries(contents), i)
      ensures var es := FileEntries(contents);
              if value.None? then FileEntries(written) == es[..i] + es[i + 1..]
              else FileEntries(written) == es[i := NewEntry(key, value)[0]] <==> !Moves(key, FileKinds(contents))
    {
      OnceFrame(key, FileKinds(contents), value, i);
    }
    if AllOther(key, FileEntries(contents)) { MissingFrame(key, FileKinds(contents), value); }
  }

  lemma SimpleSupported(ls: seq<Text>)
    requires AllSimple(Kinds(ParseLine, ls))
    ensures Supported(ls) && forall i :: 0 <= i < |ls| ==> !ParseLine(ls[i]).Bad?
  {
    hide ParseLine;
    assert forall i :: 0 <= i < |ls| ==> Simple(Kinds(ParseLine, ls)[i]) && Kinds(ParseLine, ls)[i] == ParseLine(ls[i]);
  }
}
