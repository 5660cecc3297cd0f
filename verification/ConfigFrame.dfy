/** What setting or deleting one key means for the entries of a configuration file: the
    lines that are written, and what they say when they are read. */
module ConfigFrame {
  import opened Common
  import opened ConfigParse
  import opened ConfigWrite
  import opened TextLines

  // ----------------------------------------------------------------- the entries

  /** What a reader gets; names are compared without case and so are kept in lower case. */
  datatype Entry = Entry(section: Option<Text>, name: Text, value: Option<Text>)

  /** The entry of a line in a section, if it has one. */
  function EntryOf(k: Kind, section: Option<Text>): seq<Entry> {
    if k.Variable? then [Entry(section, Lower(k.name), k.value)] else []
  }

  /** The section behind a line. */
  function After(k: Kind, section: Option<Text>): Option<Text> { if k.Header? then Some(k.section) else section }

  /** What the lines of a file are. */
  function Kinds(p: Text -> Kind, ls: seq<Text>): (ks: seq<Kind>)
    ensures |ks| == |ls|
  {
    seq(|ls|, i requires 0 <= i < |ls| => p(ls[i]))
  }

  /** The entries of a file from a line on, in the section that is current there. */
  function Entries(ks: seq<Kind>, section: Option<Text>): seq<Entry> {
    if ks == [] then [] else EntryOf(ks[0], section) + Entries(ks[1..], After(ks[0], section))
  }

  function Last(ks: seq<Kind>, section: Option<Text>): Option<Text> {
    if ks == [] then section else Last(ks[1..], After(ks[0], section))
  }

  /** Section headers alone in their line, blank lines and comments, and variables whose
      value does not go on in the next line. */
  predicate Simple(k: Kind) { k.Header? || k.Comment? || k.Variable? }

  ghost predicate AllSimple(ks: seq<Kind>) { forall i :: 0 <= i < |ks| ==> Simple(ks[i]) }

  ghost predicate AllComments(ks: seq<Kind>) { forall i :: 0 <= i < |ks| ==> ks[i] == Comment }

  // ------------------------------------------------------------------- the rewrite

  /** The key as it was given and as it is compared. */
  datatype Key = Key(origSection: Text, section: Text, origName: Text, name: Text)

  predicate IsKey(key: Key, section: Option<Text>, name: Text) {
    section == Some(key.section) && Lower(name) == Lower(key.name)
  }

  function Written(key: Key, value: Option<Text>): seq<Text> {
    if value.Some? then [ValueLine(key.origName, value.value)] else []
  }

  /** The lines that are written from a line on.  `comments` are held back until the next
      header or variable; `value` is what is still to be written, in escaped form. */
  function Rewritten(p: Text -> Kind, key: Key, ls: seq<Text>, section: Option<Text>, comments: seq<Text>, value: Option<Text>): seq<Text> {
    if ls == [] then
      comments
      + (if value.Some? && section != Some(key.section) then [HeaderLine(key.origSection)] else [])
      + Written(key, value)
    else
      var k := p(ls[0]);
      if k.Header? then
        var here := section == Some(key.section);
        (if here then Written(key, value) else []) + comments + [ls[0]]
        + Rewritten(p, key, ls[1..], Some(k.section), [], if here then None else value)
      else if k.Variable? then
        if IsKey(key, section, k.name) then comments + Written(key, value) + Rewritten(p, key, ls[1..], section, [], None)
        else comments + [ls[0]] + Rewritten(p, key, ls[1..], section, [], value)
      else Rewritten(p, key, ls[1..], section, comments + [ls[0]], value)
  }

  // --------------------------------------------------------------------- the frame

  /** The entries of other keys, in order. */
  function Others(key: Key, es: seq<Entry>): seq<Entry> {
    if es == [] then []
    else (if IsKey(key, es[0].section, es[0].name) then [] else [es[0]]) + Others(key, es[1..])
  }

  /** The values of the key, in order. */
  function Values(key: Key, es: seq<Entry>): seq<Option<Text>> {
    if es == [] then []
    else (if IsKey(key, es[0].section, es[0].name) then [es[0].value] else []) + Values(key, es[1..])
  }

  lemma {:induction false} EntriesConcat(a: seq<Kind>, b: seq<Kind>, section: Option<Text>)
    ensures Entries(a + b, section) == Entries(a, section) + Entries(b, Last(a, section))
    ensures Last(a + b, section) == Last(b, Last(a, section))
  {
    hide Entries, Last, EntryOf, After;
    if a == [] {
      NothingRead(section);
      assert a + b == b && [] + Entries(b, section) == Entries(b, section);
    } else {
      var next := After(a[0], section);
      EntriesConcat(a[1..], b, next);
      assert (a + b)[1..] == a[1..] + b && (a + b)[0] == a[0];
      EntriesStep(a + b, section);
      EntriesStep(a, section);
      Reassociate(EntryOf(a[0], section), Entries(a[1..], next), Entries(b, Last(a, section)));
    }
  }

  lemma Reassociate(a: seq<Entry>, b: seq<Entry>, c: seq<Entry>)
    ensures a + b + c == a + (b + c)
  {
  }

  lemma NothingRead(section: Option<Text>)
    ensures Entries([], section) == [] && Last([], section) == section
  {
  }

  lemma EntriesStep(ks: seq<Kind>, section: Option<Text>)
    requires ks != []
    ensures var next := After(ks[0], section);
            Entries(ks, section) == EntryOf(ks[0], section) + Entries(ks[1..], next) && Last(ks, section) == Last(ks[1..], next)
  {
    hide EntryOf, After;
  }

  lemma {:induction false} FilterConcat(key: Key, a: seq<Entry>, b: seq<Entry>)
    ensures Others(key, a + b) == Others(key, a) + Others(key, b)
    ensures Values(key, a + b) == Values(key, a) + Values(key, b)
  {
    if a == [] {
      assert a + b == b;
    } else {
      hide IsKey;
      assert (a + b)[1..] == a[1..] + b && (a + b)[0] == a[0];
      FilterConcat(key, a[1..], b);
    }
  }

  lemma {:induction false} CommentsAdd(ks: seq<Kind>, section: Option<Text>)
    requires AllComments(ks)
    ensures Entries(ks, section) == [] && Last(ks, section) == section
  {
    if ks != [] { CommentsAdd(ks[1..], section); }
  }

  lemma OneKind(k: Kind, section: Option<Text>)
    ensures Entries([k], section) == EntryOf(k, section) && Last([k], section) == After(k, section)
  {
    assert [k][1..] == [];
  }

  lemma KindsConcat(p: Text -> Kind, a: seq<Text>, b: seq<Text>)
    ensures Kinds(p, a + b) == Kinds(p, a) + Kinds(p, b)
  {
  }

  lemma KindsOne(p: Text -> Kind, l: Text)
    ensures Kinds(p, [l]) == [p(l)]
  {
  }

  lemma KindsFirst(p: Text -> Kind, ls: seq<Text>)
    requires ls != []
    ensures Kinds(p, ls)[0] == p(ls[0]) && Kinds(p, ls)[1..] == Kinds(p, ls[1..])
  {
  }

  lemma OneEntry(key: Key, e: Entry)
    ensures Others(key, [e]) == (if IsKey(key, e.section, e.name) then [] else [e])
    ensures Values(key, [e]) == (if IsKey(key, e.section, e.name) then [e.value] else [])
  {
    assert [e][1..] == [];
  }

  lemma LowerTwice(s: Text)
    ensures Lower(Lower(s)) == Lower(s)
  {
  }

  /** The key of a value may be written: its section and its name are valid, and reading
      them gives back what they are compared by. */
  ghost predicate ValidKey(key: Key) {
    && ValidSection(key.origSection) && StoredSection(key.origSection) == key.section
    && ValidName(key.origName) && Lower(key.origName) == Lower(key.name)
  }

  function Escapes(value: Option<Text>): Option<Text> { if value.Some? then Some(Escape(value.value)) else None }

  function NewValues(value: Option<Text>): seq<Option<Text>> {
    if value.Some? then [Some(Stored(value.value))] else []
  }

  /** The entry that is set, if one is. */
  function NewEntry(key: Key, value: Option<Text>): seq<Entry> {
    if value.Some? then [Entry(Some(key.section), Lower(key.origName), Some(Stored(value.value)))] else []
  }

  /** A parser that reads the lines that are written for the key: its section header, and
      its definition with the stored value. */
  ghost predicate ReadsBack(p: Text -> Kind, key: Key) {
    && p(HeaderLine(key.origSection)) == Header(key.section)
    && forall v: Text :: p(ValueLine(key.origName, Escape(v))) == Variable(key.origName, Some(Stored(v)))
  }

  lemma ParserReadsBack(key: Key)
    requires ValidKey(key)
    ensures ReadsBack(ParseLine, key)
  {
    hide ParseLine, HeaderLine, ValueLine, Escape, Stored, StoredSection, ValidName, ValidSection;
    HeaderLineParses(key.origSection);
    forall v: Text ensures ParseLine(ValueLine(key.origName, Escape(v))) == Variable(key.origName, Some(Stored(v))) {
      ValueLineParses(key.origName, v);
    }
  }

  /** What some lines say in a section: their entries and the section behind. */
  ghost predicate Says(ks: seq<Kind>, section: Option<Text>, entries: seq<Entry>, after: Option<Text>) {
    AllSimple(ks) && Entries(ks, section) == entries && Last(ks, section) == after
  }

  lemma SaysConcat(p: Text -> Kind, a: seq<Text>, b: seq<Text>, s0: Option<Text>, e1: seq<Entry>, s1: Option<Text>, e2: seq<Entry>, s2: Option<Text>)
    requires Says(Kinds(p, a), s0, e1, s1) && Says(Kinds(p, b), s1, e2, s2)
    ensures Says(Kinds(p, a + b), s0, e1 + e2, s2)
  {
    hide Entries, Last, Simple, Kinds;
    KindsConcat(p, a, b);
    EntriesConcat(Kinds(p, a), Kinds(p, b), s0);
  }

  lemma SaysComments(ks: seq<Kind>, section: Option<Text>)
    requires AllComments(ks)
    ensures Says(ks, section, [], section)
  {
    CommentsAdd(ks, section);
  }

  lemma SaysKind(k: Kind, section: Option<Text>)
    requires Simple(k)
    ensures Says([k], section, EntryOf(k, section), After(k, section))
  {
    OneKind(k, section);
  }

  /** A written value is one entry of the key, in its section. */
  lemma SaysWritten(p: Text -> Kind, key: Key, value: Option<Text>)
    requires ReadsBack(p, key)
    ensures Says(Kinds(p, Written(key, Escapes(value))), Some(key.section), NewEntry(key, value), Some(key.section))
  {
    hide ValueLine, HeaderLine, Stored, Escape;
    if value.Some? {
      var l := ValueLine(key.origName, Escape(value.value));
      assert p(l) == Variable(key.origName, Some(Stored(value.value)));
      KindsOne(p, l);
      OneKind(p(l), Some(key.section));
    }
  }

  lemma SaysHeader(p: Text -> Kind, key: Key, section: Option<Text>)
    requires ReadsBack(p, key)
    ensures Says(Kinds(p, [HeaderLine(key.origSection)]), section, [], Some(key.section))
  {
    hide HeaderLine, ValueLine, Kinds;
    KindsOne(p, HeaderLine(key.origSection));
    SaysKind(p(HeaderLine(key.origSection)), section);
  }

  lemma FrameEnd(p: Text -> Kind, key: Key, section: Option<Text>, comments: seq<Text>, value: Option<Text>) returns (after: Option<Text>)
    requires ReadsBack(p, key) && AllComments(Kinds(p, comments))
    ensures Says(Kinds(p, Rewritten(p, key, [], section, comments, Escapes(value))), section, NewEntry(key, value), after)
  {
    hide Says, ReadsBack, HeaderLine, ValueLine, Escape, Stored, Kinds;
    SaysComments(Kinds(p, comments), section);
    SaysWritten(p, key, value);
    var w, e := Written(key, Escapes(value)), NewEntry(key, value);
    if value.None? {
      assert comments + [] + [] == comments;
      after := section;
    } else if section == Some(key.section) {
      assert comments + [] + w == comments + w && [] + e == e;
      SaysConcat(p, comments, w, section, [], section, e, section);
      after := section;
    } else {
      var h := [HeaderLine(key.origSection)];
      SaysHeader(p, key, section);
      SaysConcat(p, comments, h, section, [], section, [], Some(key.section));
      assert [] + [] + e == e;
      SaysConcat(p, comments + h, w, section, [] + [], Some(key.section), e, Some(key.section));
      after := Some(key.section);
    }
  }

  /** A line that is copied, with the comments before it. */
  lemma SaysCopied(p: Text -> Kind, comments: seq<Text>, l: Text, section: Option<Text>)
    requires AllComments(Kinds(p, comments)) && Simple(p(l))
    ensures Says(Kinds(p, comments + [l]), section, EntryOf(p(l), section), After(p(l), section))
  {
    hide Says, Simple, Kinds, EntryOf;
    SaysComments(Kinds(p, comments), section);
    KindsOne(p, l);
    var k := p(l);
    SaysKind(k, section);
    SaysConcat(p, comments, [l], section, [], section, EntryOf(k, section), After(k, section));
    assert [] + EntryOf(k, section) == EntryOf(k, section);
  }

  /** The entries that the lines give once the value is set or deleted from a line on. */
  ghost function Outcome(key: Key, ks: seq<Kind>, section: Option<Text>, value: Option<Text>): seq<Entry> {
    if ks == [] then NewEntry(key, value)
    else if Closes(key, ks[0], section) || Defines(key, ks[0], section)
    then NewEntry(key, value) + Others(key, Entries(ks[1..], After(ks[0], section)))
    else EntryOf(ks[0], section) + Outcome(key, ks[1..], After(ks[0], section), value)
  }

  /** The line ends a block of the key's section. */
  predicate Closes(key: Key, k: Kind, section: Option<Text>) { k.Header? && section == Some(key.section) }

  /** The line is a definition of the key. */
  predicate Defines(key: Key, k: Kind, section: Option<Text>) { k.Variable? && IsKey(key, section, k.name) }

  lemma OthersFirst(key: Key, ks: seq<Kind>, section: Option<Text>)
    requires ks != []
    ensures Others(key, Entries(ks, section)) ==
            (if Defines(key, ks[0], section) then [] else EntryOf(ks[0], section)) + Others(key, Entries(ks[1..], After(ks[0], section)))
  {
    hide Entries, Others, Values;
    var k := ks[0];
    EntriesStep(ks, section);
    FilterConcat(key, EntryOf(k, section), Entries(ks[1..], After(k, section)));
    if k.Variable? {
      OneEntry(key, Entry(section, Lower(k.name), k.value));
      LowerTwice(k.name);
    } else {
      NoOthers(key);
    }
  }

  lemma NoOthers(key: Key)
    ensures Others(key, []) == [] && Values(key, []) == []
  {
  }

  /** Without a value only the key's own entries go. */
  lemma {:induction false} OutcomeNone(key: Key, ks: seq<Kind>, section: Option<Text>)
    ensures Outcome(key, ks, section, None) == Others(key, Entries(ks, section))
    decreases ks
  {
    hide Entries, Others, IsKey;
    if ks == [] {
      NoEntries(key, section);
    } else {
      OthersFirst(key, ks, section);
      OutcomeNone(key, ks[1..], After(ks[0], section));
    }
  }

  lemma FrameHeader(p: Text -> Kind, key: Key, l: Text, section: Option<Text>, comments: seq<Text>, value: Option<Text>,
                    r: seq<Text>, rest: seq<Entry>, after: Option<Text>)
    requires ReadsBack(p, key) && AllComments(Kinds(p, comments)) && p(l).Header?
    requires Says(Kinds(p, r), Some(p(l).section), rest, after)
    ensures var here := section == Some(key.section);
            Says(Kinds(p, (if here then Written(key, Escapes(value)) else []) + comments + [l] + r), section,
                 (if here then NewEntry(key, value) else []) + rest, after)
  {
    hide Says, Written, ReadsBack, NewEntry, Escapes, Kinds;
    var c, next := comments + [l], Some(p(l).section);
    SaysCopied(p, comments, l, section);
    SaysConcat(p, c, r, section, [], next, rest, after);
    assert [] + rest == rest;
    if section == Some(key.section) {
      var w := Written(key, Escapes(value));
      SaysWritten(p, key, value);
      SaysConcat(p, w, c + r, section, NewEntry(key, value), section, rest, after);
      assert w + (c + r) == w + comments + [l] + r;
    } else {
      assert c + r == [] + comments + [l] + r;
    }
  }

  lemma NoValue(key: Key)
    ensures NewEntry(key, None) == [] && Escapes(None) == None
  {
  }

  /** The frame: what is written from any line on gives exactly that outcome. */
  lemma {:induction false} Frame(p: Text -> Kind, key: Key, ls: seq<Text>, section: Option<Text>, comments: seq<Text>, value: Option<Text>) returns (after: Option<Text>)
    requires ReadsBack(p, key) && AllSimple(Kinds(p, ls)) && AllComments(Kinds(p, comments))
    ensures Says(Kinds(p, Rewritten(p, key, ls, section, comments, Escapes(value))), section, Outcome(key, Kinds(p, ls), section, value), after)
    decreases ls
  {
    hide Says, Written, ReadsBack, IsKey, HeaderLine, Others, Entries, EntryOf, NewEntry, Escapes, Kinds, AllSimple, AllComments;
    NoValue(key);
    if ls == [] {
      after := FrameEnd(p, key, section, comments, value);
    } else {
      var k := p(ls[0]);
      var rest := ls[1..];
      KindsFirst(p, ls);
      AllSimpleTail(Kinds(p, ls));
      OutcomeNone(key, Kinds(p, rest), After(k, section));
      NoComments(p);
      if k.Header? {
        var left := if section == Some(key.section) then None else value;
        after := Frame(p, key, rest, Some(k.section), [], left);
        NotVariable(k, section);
        FrameHeader(p, key, ls[0], section, comments, value, Rewritten(p, key, rest, Some(k.section), [], Escapes(left)),
                    Outcome(key, Kinds(p, rest), Some(k.section), left), after);
      } else if k.Variable? && IsKey(key, section, k.name) {
        after := Frame(p, key, rest, section, [], None);
        KeySection(key, section, k.name);
        SaysComments(Kinds(p, comments), section);
        SaysWritten(p, key, value);
        var w, e := Written(key, Escapes(value)), NewEntry(key, value);
        SaysConcat(p, comments, w, section, [], section, e, section);
        assert [] + e == e;
        SaysConcat(p, comments + w, Rewritten(p, key, rest, section, [], None), section, e, section, Outcome(key, Kinds(p, rest), section, None), after);
      } else if k.Variable? {
        after := Frame(p, key, rest, section, [], value);
        SaysCopied(p, comments, ls[0], section);
        SaysConcat(p, comments + [ls[0]], Rewritten(p, key, rest, section, [], Escapes(value)), section, EntryOf(k, section), section,
                   Outcome(key, Kinds(p, rest), section, value), after);
      } else {
        MoreComments(p, comments, ls[0]);
        after := Frame(p, key, rest, section, comments + [ls[0]], value);
        NotVariable(k, section);
        assert [] + Outcome(key, Kinds(p, rest), section, value) == Outcome(key, Kinds(p, rest), section, value);
      }
    }
  }

  lemma NoComments(p: Text -> Kind)
    ensures AllComments(Kinds(p, []))
  {
  }

  lemma MoreComments(p: Text -> Kind, comments: seq<Text>, l: Text)
    requires AllComments(Kinds(p, comments)) && p(l).Comment?
    ensures AllComments(Kinds(p, comments + [l]))
  {
    hide Kinds;
    KindsConcat(p, comments, [l]);
    KindsOne(p, l);
  }

  lemma NotVariable(k: Kind, section: Option<Text>)
    requires !k.Variable?
    ensures EntryOf(k, section) == []
  {
  }

  lemma KeySection(key: Key, section: Option<Text>, name: Text)
    requires IsKey(key, section, name)
    ensures section == Some(key.section)
  {
  }

  lemma NoEntries(key: Key, section: Option<Text>)
    ensures Others(key, Entries([], section)) == []
  {
  }

  lemma AllSimpleTail(ks: seq<Kind>)
    requires AllSimple(ks) && ks != []
    ensures AllSimple(ks[1..]) && Simple(ks[0])
  {
    hide Simple;
  }

  // ------------------------------------------------------------ where the entry goes

  ghost predicate ClosesAt(key: Key, ks: seq<Kind>, section: Option<Text>, j: nat) {
    j < |ks| && Closes(key, ks[j], Last(ks[..j], section))
  }

  ghost predicate DefinesAt(key: Key, ks: seq<Kind>, section: Option<Text>, j: nat) {
    j < |ks| && Defines(key, ks[j], Last(ks[..j], section))
  }

  /** The first line that ends a block of the key's section or defines the key, or the
      end of the file: this is where the value is written. */
  function Stop(key: Key, ks: seq<Kind>, section: Option<Text>): (s: nat)
    ensures s <= |ks|
  {
    if ks == [] || Closes(key, ks[0], section) || Defines(key, ks[0], section) then 0
    else 1 + Stop(key, ks[1..], After(ks[0], section))
  }

  lemma LastShift(ks: seq<Kind>, section: Option<Text>, j: nat)
    requires 0 < j <= |ks|
    ensures ks[..j] == [ks[0]] + ks[1..][..j - 1]
    ensures Last(ks[..j], section) == Last(ks[1..][..j - 1], After(ks[0], section))
    ensures Entries(ks[..j], section) == EntryOf(ks[0], section) + Entries(ks[1..][..j - 1], After(ks[0], section))
  {
    hide Entries, Last, EntryOf, After;
    EntriesStep(ks[..j], section);
    assert ks[..j][1..] == ks[1..][..j - 1] && ks[..j][0] == ks[0];
  }

  lemma {:induction false} StopIsFirst(key: Key, ks: seq<Kind>, section: Option<Text>)
    ensures var s := Stop(key, ks, section);
            && (s < |ks| ==> ClosesAt(key, ks, section, s) || DefinesAt(key, ks, section, s))
            && forall j: nat :: j < s ==> !ClosesAt(key, ks, section, j) && !DefinesAt(key, ks, section, j)
    decreases ks
  {
    hide IsKey;
    var s := Stop(key, ks, section);
    if ks == [] {
    } else if s == 0 {
      assert ks[..0] == [];
    } else {
      var next := After(ks[0], section);
      StopIsFirst(key, ks[1..], next);
      if s < |ks| { LastShift(ks, section, s); }
      forall j: nat | j < s ensures !ClosesAt(key, ks, section, j) && !DefinesAt(key, ks, section, j) {
        if j == 0 {
          assert ks[..0] == [];
        } else {
          LastShift(ks, section, j);
          assert !ClosesAt(key, ks[1..], next, j - 1) && !DefinesAt(key, ks[1..], next, j - 1);
        }
      }
    }
  }

  /** Everything before that line stays, then comes the entry that is set, then the other
      entries behind. */
  lemma {:induction false} OutcomeParts(key: Key, ks: seq<Kind>, section: Option<Text>, value: Option<Text>)
    ensures var s := Stop(key, ks, section);
            Outcome(key, ks, section, value) ==
            Entries(ks[..s], section) + NewEntry(key, value) + Others(key, Entries(ks[s..], Last(ks[..s], section)))
    decreases ks
  {
    hide IsKey, Others, NewEntry, EntryOf;
    var s := Stop(key, ks, section);
    if s == 0 {
      OutcomeAtOnce(key, ks, section, value);
    } else {
      var next := After(ks[0], section);
      OutcomeParts(key, ks[1..], next, value);
      LastShift(ks, section, s);
      assert ks[1..][s - 1..] == ks[s..];
    }
  }

  lemma OutcomeAtOnce(key: Key, ks: seq<Kind>, section: Option<Text>, value: Option<Text>)
    requires Stop(key, ks, section) == 0
    ensures Outcome(key, ks, section, value) ==
            Entries(ks[..0], section) + NewEntry(key, value) + Others(key, Entries(ks[0..], Last(ks[..0], section)))
  {
    hide IsKey, Others, NewEntry, EntryOf, Entries;
    NothingRead(section);
    assert ks[..0] == [] && ks[0..] == ks;
    if ks == [] {
      NoOthers(key);
    } else {
      OthersFirst(key, ks, section);
      if !Defines(key, ks[0], section) { NotVariable(ks[0], section); }
    }
  }

  /** The entries of the file once the value is set or deleted. */
  ghost function Revised(key: Key, ks: seq<Kind>, value: Option<Text>): seq<Entry> {
    var s := Stop(key, ks, None);
    Entries(ks[..s], None) + NewEntry(key, value) + Others(key, Entries(ks[s..], Last(ks[..s], None)))
  }

  /** None of the entries is the key's. */
  ghost predicate AllOther(key: Key, es: seq<Entry>) {
    forall i :: 0 <= i < |es| ==> !IsKey(key, es[i].section, es[i].name)
  }

  lemma {:induction false} OthersClean(key: Key, es: seq<Entry>)
    ensures AllOther(key, Others(key, es))
  {
    hide IsKey;
    if es != [] { OthersClean(key, es[1..]); }
  }

  lemma {:induction false} CleanOthers(key: Key, es: seq<Entry>)
    requires AllOther(key, es)
    ensures Others(key, es) == es && Values(key, es) == []
  {
    hide IsKey;
    if es != [] {
      assert AllOther(key, es[1..]);
      CleanOthers(key, es[1..]);
    }
  }

  lemma BeforeStop(key: Key, ks: seq<Kind>, section: Option<Text>)
    ensures AllOther(key, Entries(ks[..Stop(key, ks, section)], section))
  {
    hide IsKey, Others, Entries, Stop, Outcome, AllOther, Last;
    var s := Stop(key, ks, section);
    OutcomeParts(key, ks, section, None);
    OutcomeNone(key, ks, section);
    OthersClean(key, Entries(ks, section));
    CleanPrefix(key, Entries(ks[..s], section), Others(key, Entries(ks[s..], Last(ks[..s], section))));
  }

  lemma CleanPrefix(key: Key, a: seq<Entry>, b: seq<Entry>)
    requires AllOther(key, a + [] + b)
    ensures AllOther(key, a)
  {
    hide IsKey;
    assert forall i :: 0 <= i < |a| ==> a[i] == (a + [] + b)[i];
  }

  lemma KeyNames(key: Key)
    requires ValidKey(key)
    ensures Lower(key.origName) == Lower(key.name)
  {
  }

  lemma NewEntrySays(key: Key, value: Option<Text>)
    requires Lower(key.origName) == Lower(key.name)
    ensures Others(key, NewEntry(key, value)) == [] && Values(key, NewEntry(key, value)) == NewValues(value)
    ensures value.Some? ==> |NewEntry(key, value)| == 1 && !AllOther(key, NewEntry(key, value))
  {
    hide Stored;
    if value.Some? {
      LowerTwice(key.origName);
      OneEntry(key, NewEntry(key, value)[0]);
    }
  }

  /** Putting the key's entry between two stretches, and dropping the key from the second. */
  lemma PutBetween(key: Key, a: seq<Entry>, e: seq<Entry>, b: seq<Entry>)
    requires AllOther(key, a) && Others(key, e) == []
    ensures Others(key, a + e + Others(key, b)) == Others(key, a + b)
    ensures Values(key, a + e + Others(key, b)) == Values(key, e)
  {
    hide Others, Values, AllOther;
    var c := Others(key, b);
    OthersClean(key, b);
    CleanOthers(key, a);
    CleanOthers(key, c);
    FilterConcat(key, a, b);
    FilterConcat(key, a, e);
    FilterConcat(key, a + e, c);
    assert a + [] + c == a + c;
    assert [] + Values(key, e) + [] == Values(key, e);
  }

  lemma RevisedSays(key: Key, ks: seq<Kind>, value: Option<Text>)
    requires Lower(key.origName) == Lower(key.name)
    ensures Others(key, Revised(key, ks, value)) == Others(key, Entries(ks, None))
    ensures Values(key, Revised(key, ks, value)) == NewValues(value)
  {
    hide Entries, Others, Values, NewEntry, NewValues, Stop, Last, AllOther;
    var s := Stop(key, ks, None);
    var a, b := Entries(ks[..s], None), Entries(ks[s..], Last(ks[..s], None));
    BeforeStop(key, ks, None);
    assert ks == ks[..s] + ks[s..];
    EntriesConcat(ks[..s], ks[s..], None);
    NewEntrySays(key, value);
    PutBetween(key, a, NewEntry(key, value), b);
  }

  /** Setting or deleting a key in a file of simple lines: read again, the file has the
      revised entries, which means the same entries of other keys in the same order, and
      for the key the new value once, or none.  The file stays one of simple lines. */
  lemma SetFrame(p: Text -> Kind, key: Key, ls: seq<Text>, value: Option<Text>)
    requires ReadsBack(p, key) && Lower(key.origName) == Lower(key.name) && AllSimple(Kinds(p, ls))
    ensures var (ks, out) := (Kinds(p, ls), Kinds(p, Rewritten(p, key, ls, None, [], Escapes(value))));
            && AllSimple(out) && Entries(out, None) == Revised(key, ks, value)
            && Others(key, Entries(out, None)) == Others(key, Entries(ks, None))
            && Values(key, Entries(out, None)) == NewValues(value)
  {
    NoComments(p);
    hide Rewritten, Entries, Others, Values, ReadsBack, Outcome, Stop, NewEntry, Kinds, AllComments, AllSimple;
    var after := Frame(p, key, ls, None, [], value);
    OutcomeParts(key, Kinds(p, ls), None, value);
    RevisedSays(key, Kinds(p, ls), value);
  }

  // --------------------------------------------------- keys that are there once, or not

  /** The key is entry i, and no other. */
  ghost predicate Once(key: Key, es: seq<Entry>, i: nat) {
    i < |es| && forall j :: 0 <= j < |es| ==> (IsKey(key, es[j].section, es[j].name) <==> j == i)
  }

  /** A header ends a block of the key's section, and behind it there is some definition
      before the one of the key. */
  ghost predicate Moves(key: Key, ks: seq<Kind>) {
    exists j: nat, k: nat, d: nat :: j < k < d < |ks| && ClosesAt(key, ks, None, j) && ks[k].Variable? && DefinesAt(key, ks, None, d)
  }

  /** How many entries there are before a line. */
  ghost function EntriesBefore(ks: seq<Kind>, j: nat): nat
    requires j <= |ks|
  {
    |Entries(ks[..j], None)|
  }

  /** The definition in a line is the entry with that number. */
  lemma EntryOfLine(ks: seq<Kind>, j: nat)
    requires j < |ks| && ks[j].Variable?
    ensures EntriesBefore(ks, j) < |Entries(ks, None)| && EntriesBefore(ks, j + 1) == EntriesBefore(ks, j) + 1
    ensures Entries(ks, None)[EntriesBefore(ks, j)] == Entry(Last(ks[..j], None), Lower(ks[j].name), ks[j].value)
  {
    hide Entries, Last;
    assert ks == ks[..j] + ks[j..];
    EntriesConcat(ks[..j], ks[j..], None);
    EntriesStep(ks[j..], Last(ks[..j], None));
    assert ks[..j + 1] == ks[..j] + [ks[j]];
    EntriesConcat(ks[..j], [ks[j]], None);
    OneKind(ks[j], Last(ks[..j], None));
  }

  lemma EntriesMonotone(ks: seq<Kind>, j: nat, k: nat)
    requires j <= k <= |ks|
    ensures EntriesBefore(ks, j) <= EntriesBefore(ks, k)
  {
    hide Entries;
    assert ks[..k] == ks[..j] + ks[j..k];
    EntriesConcat(ks[..j], ks[j..k], None);
  }

  /** Every entry is defined in some line. */
  lemma {:induction false} LineOfEntry(ks: seq<Kind>, n: nat, i: nat) returns (j: nat)
    requires n <= |ks| && i < EntriesBefore(ks, n)
    ensures j < n && ks[j].Variable? && EntriesBefore(ks, j) == i
  {
    hide Entries;
    NothingRead(None);
    assert ks[..0] == [];
    if n > 0 {
      assert ks[..n] == ks[..n - 1] + [ks[n - 1]];
      EntriesConcat(ks[..n - 1], [ks[n - 1]], None);
      OneKind(ks[n - 1], Last(ks[..n - 1], None));
      if i < EntriesBefore(ks, n - 1) { j := LineOfEntry(ks, n - 1, i); } else { j := n - 1; }
    }
  }

  lemma DefinitionIsEntry(key: Key, ks: seq<Kind>, d: nat)
    requires DefinesAt(key, ks, None, d)
    ensures EntriesBefore(ks, d) < |Entries(ks, None)|
    ensures var e := Entries(ks, None)[EntriesBefore(ks, d)]; IsKey(key, e.section, e.name)
  {
    hide Entries, Last;
    EntryOfLine(ks, d);
    LowerTwice(ks[d].name);
  }

  lemma EntryIsDefinition(key: Key, ks: seq<Kind>, i: nat) returns (d: nat)
    requires i < |Entries(ks, None)| && IsKey(key, Entries(ks, None)[i].section, Entries(ks, None)[i].name)
    ensures DefinesAt(key, ks, None, d) && EntriesBefore(ks, d) == i
  {
    hide Entries, Last;
    assert ks[..|ks|] == ks;
    d := LineOfEntry(ks, |ks|, i);
    EntryOfLine(ks, d);
    LowerTwice(ks[d].name);
  }

  /** The entry of a key that is there once keeps its place exactly if it does not move. */
  lemma StopsThere(key: Key, ks: seq<Kind>, i: nat)
    requires Once(key, Entries(ks, None), i)
    ensures EntriesBefore(ks, Stop(key, ks, None)) <= i
    ensures EntriesBefore(ks, Stop(key, ks, None)) == i <==> !Moves(key, ks)
  {
    hide Entries, Last, Stop, IsKey, EntriesBefore, Defines, Closes;
    var s := Stop(key, ks, None);
    var d := EntryIsDefinition(key, ks, i);
    StopIsFirst(key, ks, None);
    EntriesMonotone(ks, s, d);
    if Moves(key, ks) {
      var j: nat, k: nat, d': nat :| j < k < d' < |ks| && ClosesAt(key, ks, None, j) && ks[k].Variable? && DefinesAt(key, ks, None, d');
      DefinitionIsEntry(key, ks, d');
      EntryOfLine(ks, k);
      EntriesMonotone(ks, s, k);
      EntriesMonotone(ks, k + 1, d');
    }
    if EntriesBefore(ks, s) < i {
      var k := LineOfEntry(ks, d, EntriesBefore(ks, s));
      StopCloses(key, ks, i, s, k, d);
      assert s < k < d < |ks| && ClosesAt(key, ks, None, s) && ks[k].Variable? && DefinesAt(key, ks, None, d);
    }
  }

  lemma StopCloses(key: Key, ks: seq<Kind>, i: nat, s: nat, k: nat, d: nat)
    requires Once(key, Entries(ks, None), i) && s <= d < |ks| && k < d && ks[k].Variable?
    requires EntriesBefore(ks, k) == EntriesBefore(ks, s) < i
    requires ClosesAt(key, ks, None, s) || DefinesAt(key, ks, None, s)
    ensures ClosesAt(key, ks, None, s) && s < k
  {
    hide Entries, Last, IsKey, EntriesBefore;
    if DefinesAt(key, ks, None, s) { DefinitionIsEntry(key, ks, s); }
    EntryOfLine(ks, k);
    if k < s { EntriesMonotone(ks, k + 1, s); }
  }

  /** A key that is there once: deleting it takes its entry out, and setting it replaces
      its entry in place exactly if no block of its section ends before its definition
      with another definition in between; otherwise the entry moves to the front. */
  lemma OnceFrame(key: Key, ks: seq<Kind>, value: Option<Text>, i: nat)
    requires Lower(key.origName) == Lower(key.name) && Once(key, Entries(ks, None), i)
    ensures var es := Entries(ks, None);
            && (value.None? ==> Revised(key, ks, value) == es[..i] + es[i + 1..])
            && (value.Some? ==> (Revised(key, ks, value) == es[i := NewEntry(key, value)[0]] <==> !Moves(key, ks)))
  {
    var s, es := Stop(key, ks, None), Entries(ks, None);
    assert ks == ks[..s] + ks[s..];
    EntriesConcat(ks[..s], ks[s..], None);
    StopsThere(key, ks, i);
    NewEntrySays(key, value);
    hide Entries, Stop, Moves, NewEntry, Last, Others;
    var a, b := Entries(ks[..s], None), Entries(ks[s..], Last(ks[..s], None));
    OnceBehind(key, es, a, b, i);
    assert value.None? ==> NewEntry(key, value) == [] by { NoValue(key); }
    if value.Some? { OnceReplaced(key, es, a, NewEntry(key, value)[0], b, i); }
  }

  lemma OnceBehind(key: Key, es: seq<Entry>, a: seq<Entry>, b: seq<Entry>, i: nat)
    requires Once(key, es, i) && es == a + b && |a| <= i
    ensures Others(key, b) == b[..i - |a|] + b[i - |a| + 1..]
    ensures a + [] + Others(key, b) == es[..i] + es[i + 1..]
  {
    hide IsKey, Others;
    var n := i - |a|;
    assert forall j :: 0 <= j < |b| ==> b[j] == es[|a| + j];
    OthersOfOnce(key, b, n);
    assert a + [] + (b[..n] + b[n + 1..]) == es[..i] + es[i + 1..];
  }

  lemma OthersOfOnce(key: Key, b: seq<Entry>, n: nat)
    requires Once(key, b, n)
    ensures Others(key, b) == b[..n] + b[n + 1..]
  {
    hide IsKey;
    var b1, x, b2 := b[..n], b[n], b[n + 1..];
    CleanOthers(key, b1);
    CleanOthers(key, b2);
    hide Others, Once, AllOther;
    OneEntry(key, x);
    FilterConcat(key, b1, [x]);
    FilterConcat(key, b1 + [x], b2);
    SplitOut(b, n);
  }

  lemma SplitOut(b: seq<Entry>, n: nat)
    requires n < |b|
    ensures b == b[..n] + [b[n]] + b[n + 1..] && b[..n] + [] + b[n + 1..] == b[..n] + b[n + 1..]
  {
  }

  lemma OnceReplaced(key: Key, es: seq<Entry>, a: seq<Entry>, e: Entry, b: seq<Entry>, i: nat)
    requires Once(key, es, i) && es == a + b && |a| <= i && IsKey(key, e.section, e.name)
    ensures a + [e] + (b[..i - |a|] + b[i - |a| + 1..]) == es[i := e] <==> |a| == i
  {
    hide IsKey;
    var n := i - |a|;
    var r := a + [e] + (b[..n] + b[n + 1..]);
    if n == 0 {
      assert r == es[i := e];
    } else {
      assert r[|a|] == e && es[i := e][|a|] == es[|a|];
    }
  }

  /** A key that is not there: deleting it changes nothing, and its entry is put in where
      the first block of its section ends, or at the end. */
  lemma MissingFrame(key: Key, ks: seq<Kind>, value: Option<Text>)
    requires AllOther(key, Entries(ks, None))
    ensures var (es, p) := (Entries(ks, None), EntriesBefore(ks, Stop(key, ks, None)));
            p <= |es| && Revised(key, ks, value) == es[..p] + NewEntry(key, value) + es[p..]
    ensures forall j: nat :: !DefinesAt(key, ks, None, j)
    ensures (forall j: nat :: !ClosesAt(key, ks, None, j)) ==> EntriesBefore(ks, Stop(key, ks, None)) == |Entries(ks, None)|
  {
    hide Entries, Stop, NewEntry, Last, Others, IsKey, ClosesAt, DefinesAt;
    var s, es := Stop(key, ks, None), Entries(ks, None);
    assert ks == ks[..s] + ks[s..];
    EntriesConcat(ks[..s], ks[s..], None);
    StopIsFirst(key, ks, None);
    var a, b := Entries(ks[..s], None), Entries(ks[s..], Last(ks[..s], None));
    OthersBehind(key, a, b);
    forall j: nat | DefinesAt(key, ks, None, j) ensures false { DefinitionIsEntry(key, ks, j); }
    assert ks[..|ks|] == ks;
  }

  lemma OthersBehind(key: Key, a: seq<Entry>, b: seq<Entry>)
    requires AllOther(key, a + b)
    ensures Others(key, b) == b
  {
    hide IsKey, Others;
    assert forall j :: 0 <= j < |b| ==> b[j] == (a + b)[|a| + j];
    CleanOthers(key, b);
  }

  /** The entry can move: with a block of the section, a block of another section, and
      the section again, the key is written at the end of the first block. */
  lemma MovedEntry(key: Key, other: Text, name: Text, v: Text, was: Text, value: Text)
    requires ValidKey(key) && ValidSection(other) && StoredSection(other) != key.section && ValidName(name)
    ensures var ls := [HeaderLine(key.origSection), HeaderLine(other), ValueLine(name, Escape(v)), HeaderLine(key.origSection),
                       ValueLine(key.origName, Escape(was))];
            var e := Entry(Some(StoredSection(other)), Lower(name), Some(Stored(v)));
            && AllSimple(Kinds(ParseLine, ls))
            && Entries(Kinds(ParseLine, ls), None) == [e] + NewEntry(key, Some(was))
            && Entries(Kinds(ParseLine, Rewritten(ParseLine, key, ls, None, [], Escapes(Some(value)))), None) == NewEntry(key, Some(value)) + [e]
  {
    ParserReadsBack(key);
    hide ReadsBack, ParseLine, HeaderLine, ValueLine, Escape, StoredSection, ValidSection, ValidName, Rewritten, Lower, Entries, AllSimple, Stored, Revised,
         Others, Values, Kinds;
    var h1, h2, l, d := HeaderLine(key.origSection), HeaderLine(other), ValueLine(name, Escape(v)), ValueLine(key.origName, Escape(was));
    HeaderLineParses(key.origSection);
    HeaderLineParses(other);
    ValueLineParses(name, v);
    ValueLineParses(key.origName, was);
    KindsFive(ParseLine, h1, h2, l, d);
    MovedLines(key, StoredSection(other), name, Some(Stored(v)), key.origName, Some(Stored(was)), Some(value));
    KeyNames(key);
    SetFrame(ParseLine, key, [h1, h2, l, h1, d], Some(value));
  }

  lemma KindsFive(p: Text -> Kind, h1: Text, h2: Text, l: Text, d: Text)
    ensures Kinds(p, [h1, h2, l, h1, d]) == [p(h1), p(h2), p(l), p(h1), p(d)]
  {
  }

  lemma MovedLines(key: Key, other: Text, name: Text, v: Option<Text>, origName: Text, was: Option<Text>, value: Option<Text>)
    requires other != key.section && Lower(origName) == Lower(key.name)
    ensures var ks := [Header(key.section), Header(other), Variable(name, v), Header(key.section), Variable(origName, was)];
            && AllSimple(ks)
            && Entries(ks, None) == [Entry(Some(other), Lower(name), v), Entry(Some(key.section), Lower(origName), was)]
            && Revised(key, ks, value) == NewEntry(key, value) + [Entry(Some(other), Lower(name), v)]
  {
    hide Lower, NewEntry, Others;
    var e, f := Entry(Some(other), Lower(name), v), Entry(Some(key.section), Lower(origName), was);
    var s := Some(key.section);
    var h, o, l, d := Header(key.section), Header(other), Variable(name, v), Variable(origName, was);
    OneKind(d, s);
    assert Entries([h, d], Some(other)) == [f] by { assert [h, d][1..] == [d]; }
    assert Entries([l, h, d], Some(other)) == [e, f] by { assert [l, h, d][1..] == [h, d]; }
    assert Entries([o, l, h, d], s) == [e, f] by { assert [o, l, h, d][1..] == [l, h, d]; }
    assert [h, o, l, h, d][1..] == [o, l, h, d];
    assert Stop(key, [o, l, h, d], s) == 0;
    assert Stop(key, [h, o, l, h, d], None) == 1;
    assert [h, o, l, h, d][..1] == [h];
    OneKind(h, None);
    hide Entries, Stop;
    LowerTwice(origName);
    MovedOthers(key, e, f);
  }

  lemma MovedOthers(key: Key, e: Entry, f: Entry)
    requires e.section != Some(key.section) && IsKey(key, f.section, f.name)
    ensures Others(key, [e, f]) == [e]
  {
    OneEntry(key, e);
    OneEntry(key, f);
    FilterConcat(key, [e], [f]);
    assert [e, f] == [e] + [f];
  }
}
