/** Which lines a configuration file has when one key was set or deleted: all those that do
    not define the key, comments and blank lines too, in their order, and the new ones at
    their place. */
module ConfigLines {
  import opened Common
  import opened ConfigParse
  import opened ConfigWrite
  import opened ConfigFrame

  /** The same letter, but for its case. */
  predicate SameLetter(c: byte, d: byte) {
    c == d || (65 <= c <= 90 && d == c + 32) || (97 <= c <= 122 && d == c - 32)
  }

  /** A definition is one of the key exactly if it stands in the key's section and its name is
      the same but for the case of its letters. */
  lemma KeyNamed(key: Key, k: Kind, section: Option<Text>)
    ensures Defines(key, k, section) <==>
            && k.Variable? && section == Some(key.section) && |k.name| == |key.name|
            && forall i :: 0 <= i < |key.name| ==> SameLetter(k.name[i], key.name[i])
  {
    if k.Variable? { LowerSame(k.name, key.name); }
  }

  lemma LowerSame(a: Text, b: Text)
    ensures Lower(a) == Lower(b) <==> |a| == |b| && forall i :: 0 <= i < |a| ==> SameLetter(a[i], b[i])
  {
    if Lower(a) == Lower(b) {
      forall i | 0 <= i < |a| ensures SameLetter(a[i], b[i]) { assert Lower(a)[i] == Lower(b)[i]; }
    }
  }

  /** The lines that do not define the key. */
  function Kept(p: Text -> Kind, key: Key, ls: seq<Text>, section: Option<Text>): seq<Text> {
    if ls == [] then []
    else (if Defines(key, p(ls[0]), section) then [] else [ls[0]]) + Kept(p, key, ls[1..], After(p(ls[0]), section))
  }

  /** Comments and blank lines. */
  predicate Aside(k: Kind) { !k.Header? && !k.Variable? }

  ghost predicate AllAside(p: Text -> Kind, ls: seq<Text>) { forall i :: 0 <= i < |ls| ==> Aside(p(ls[i])) }

  /** How many of them there are at the end. */
  function Trailing(p: Text -> Kind, ls: seq<Text>): (n: nat)
    ensures n <= |ls|
  {
    if ls != [] && Aside(p(ls[|ls| - 1])) then 1 + Trailing(p, ls[..|ls| - 1]) else 0
  }

  /** A line put before them. */
  function PutBefore(p: Text -> Kind, ls: seq<Text>, l: Text): seq<Text> {
    var n := |ls| - Trailing(p, ls);
    ls[..n] + [l] + ls[n..]
  }

  /** The lines with the value, if there is one, from a line on; `before` stands before.
      At the end of the file the section is begun, unless it is the last one.  The first
      definition is replaced.  Where the first block of the section ends without one, the value
      comes before the comments that precede the next header. */
  function Laid(p: Text -> Kind, key: Key, before: seq<Text>, ls: seq<Text>, section: Option<Text>, value: Option<Text>): seq<Text> {
    var ks := Kinds(p, ls);
    var s := Stop(key, ks, section);
    if value.None? then before + Kept(p, key, ls, section)
    else
      var l := ValueLine(key.origName, value.value);
      if s == |ls| then before + ls + (if Last(ks, section) == Some(key.section) then [] else [HeaderLine(key.origSection)]) + [l]
      else if p(ls[s]).Variable? then before + ls[..s] + [l] + Kept(p, key, ls[s + 1..], Last(ks[..s], section))
      else PutBefore(p, before + ls[..s], l) + Kept(p, key, ls[s..], Last(ks[..s], section))
  }

  lemma {:induction false} AsideTrails(p: Text -> Kind, ls: seq<Text>)
    requires AllAside(p, ls)
    ensures Trailing(p, ls) == |ls|
  {
    if ls != [] { AsideTrails(p, ls[..|ls| - 1]); }
  }

  lemma {:induction false} TrailsBehind(p: Text -> Kind, a: seq<Text>, l: Text, b: seq<Text>)
    requires !Aside(p(l))
    ensures Trailing(p, a + [l] + b) == Trailing(p, b)
  {
    var s := a + [l] + b;
    if b == [] {
      assert s == a + [l];
    } else {
      assert s[..|s| - 1] == a + [l] + b[..|b| - 1];
      TrailsBehind(p, a, l, b[..|b| - 1]);
    }
  }

  lemma {:induction false} LaidNone(p: Text -> Kind, key: Key, ls: seq<Text>, section: Option<Text>, comments: seq<Text>)
    ensures Rewritten(p, key, ls, section, comments, None) == comments + Kept(p, key, ls, section)
    decreases ls
  {
    hide HeaderLine, ValueLine, IsKey;
    if ls == [] {
      assert comments + [] + [] == comments + [];
    } else {
      hide Kept, Rewritten;
      var k := p(ls[0]);
      KeptFirst(p, key, ls, section);
      NoneFirst(p, key, ls, section, comments);
      LaidNone(p, key, ls[1..], After(k, section), if Aside(k) then comments + [ls[0]] else []);
    }
  }

  lemma KeptFirst(p: Text -> Kind, key: Key, ls: seq<Text>, section: Option<Text>)
    requires ls != []
    ensures Kept(p, key, ls, section) ==
            (if Defines(key, p(ls[0]), section) then [] else [ls[0]]) + Kept(p, key, ls[1..], After(p(ls[0]), section))
  {
    hide Defines, After;
  }

  lemma NoneFirst(p: Text -> Kind, key: Key, ls: seq<Text>, section: Option<Text>, comments: seq<Text>)
    requires ls != []
    ensures var k := p(ls[0]);
            Rewritten(p, key, ls, section, comments, None) ==
            (if Aside(k) then [] else if Defines(key, k, section) then comments else comments + [ls[0]])
            + Rewritten(p, key, ls[1..], After(k, section), if Aside(k) then comments + [ls[0]] else [], None)
  {
    hide HeaderLine, ValueLine, IsKey;
    assert [] + comments == comments && comments + [] == comments;
  }

  /** A line before the place may be counted to those before. */
  lemma LaidMoved(p: Text -> Kind, key: Key, before: seq<Text>, ls: seq<Text>, section: Option<Text>, e: Text)
    requires ls != [] && Stop(key, Kinds(p, ls), section) > 0
    ensures Laid(p, key, before, ls, section, Some(e)) == Laid(p, key, before + [ls[0]], ls[1..], After(p(ls[0]), section), Some(e))
  {
    hide Kept, PutBefore, HeaderLine, ValueLine, Closes, Defines, Kinds, Last, After;
    var ks, rest, next := Kinds(p, ls), ls[1..], After(p(ls[0]), section);
    var s := Stop(key, ks, section);
    KindsFirst(p, ls);
    LastShift(ks, section, s);
    assert ks[..|ks|] == ks && ks[1..][..|ks| - 1] == ks[1..];
    LastShift(ks, section, |ks|);
    assert ls[..s] == [ls[0]] + rest[..s - 1] && ls == [ls[0]] + rest && ls[s..] == rest[s - 1..];
    assert before + ls[..s] == before + [ls[0]] + rest[..s - 1] && before + ls == before + [ls[0]] + rest;
    if s < |ls| { assert ls[s + 1..] == rest[s..]; }
  }

  /** What stands before a header or a definition is not touched. */
  lemma LaidApart(p: Text -> Kind, key: Key, a: seq<Text>, l: Text, ls: seq<Text>, section: Option<Text>, e: Text)
    requires !Aside(p(l))
    ensures Laid(p, key, a + [l], ls, section, Some(e)) == a + [l] + Laid(p, key, [], ls, section, Some(e))
  {
    hide Kept, HeaderLine, ValueLine, Kinds, Last, Stop, Aside, PutBefore;
    var s := Stop(key, Kinds(p, ls), section);
    assert [] + ls[..s] == ls[..s] && [] + ls == ls;
    var v := [ValueLine(key.origName, e)];
    if s == |ls| {
      var h := if Last(Kinds(p, ls), section) == Some(key.section) then [] else [HeaderLine(key.origSection)];
      Behind(a + [l], ls, h, v);
    } else if p(ls[s]).Variable? {
      Behind(a + [l], ls[..s], v, Kept(p, key, ls[s + 1..], Last(Kinds(p, ls)[..s], section)));
    } else {
      PutBehind(p, a, l, ls[..s], v[0]);
      Behind(a + [l], PutBefore(p, ls[..s], v[0]), Kept(p, key, ls[s..], Last(Kinds(p, ls)[..s], section)), []);
    }
  }

  lemma Behind(a: seq<Text>, b: seq<Text>, c: seq<Text>, d: seq<Text>)
    ensures a + b + c + d == a + (b + c + d) && b + c + [] == b + c && a + b + c == a + (b + c)
  {
  }

  lemma PutBehind(p: Text -> Kind, a: seq<Text>, l: Text, b: seq<Text>, x: Text)
    requires !Aside(p(l))
    ensures PutBefore(p, a + [l] + b, x) == a + [l] + PutBefore(p, b, x)
  {
    hide Aside, Trailing;
    TrailsBehind(p, a, l, b);
    var n := |b| - Trailing(p, b);
    assert (a + [l] + b)[..|a| + 1 + n] == a + [l] + b[..n];
    assert (a + [l] + b)[|a| + 1 + n..] == b[n..];
  }

  /** Where the value is written at once. */
  lemma LaidAtOnce(p: Text -> Kind, key: Key, comments: seq<Text>, ls: seq<Text>, section: Option<Text>, e: Text)
    requires AllAside(p, comments) && Stop(key, Kinds(p, ls), section) == 0
    ensures Rewritten(p, key, ls, section, comments, Some(e)) == Laid(p, key, comments, ls, section, Some(e))
  {
    hide HeaderLine, ValueLine, IsKey, AllAside, Kinds;
    var l := ValueLine(key.origName, e);
    LastNothing(Kinds(p, ls), section);
    if ls == [] {
      assert comments + ls == comments;
      assert Kinds(p, ls) == [];
    } else {
      KindsFirst(p, ls);
      assert comments + ls[..0] == comments && ls[0..] == ls;
      if p(ls[0]).Variable? {
        LaidNone(p, key, ls[1..], section, []);
        assert [] + Kept(p, key, ls[1..], section) == Kept(p, key, ls[1..], section);
      } else {
        AsideTrails(p, comments);
        LaidNone(p, key, ls, section, []);
        LaidNone(p, key, ls[1..], After(p(ls[0]), section), []);
        assert [] + [l] + comments + Kept(p, key, ls, section) == [l] + comments + [ls[0]] + Kept(p, key, ls[1..], After(p(ls[0]), section));
      }
    }
  }

  lemma LastNothing(ks: seq<Kind>, section: Option<Text>)
    ensures Last(ks[..0], section) == section
  {
  }

  /** The lines that are written from a line on, where those in `comments` are held back. */
  lemma {:induction false} RewrittenLines(p: Text -> Kind, key: Key, ls: seq<Text>, section: Option<Text>, comments: seq<Text>, value: Option<Text>)
    requires AllAside(p, comments)
    ensures Rewritten(p, key, ls, section, comments, value) == Laid(p, key, comments, ls, section, value)
    decreases ls
  {
    hide HeaderLine, ValueLine, IsKey, Laid, Kept, Kinds;
    if value.None? {
      LaidNone(p, key, ls, section, comments);
      LaidNothing(p, key, comments, ls, section);
    } else if Stop(key, Kinds(p, ls), section) == 0 {
      LaidAtOnce(p, key, comments, ls, section, value.value);
    } else {
      var k := p(ls[0]);
      KindsFirst(p, ls);
      LaidMoved(p, key, comments, ls, section, value.value);
      if Aside(k) {
        RewrittenLines(p, key, ls[1..], section, comments + [ls[0]], value);
      } else {
        RewrittenLines(p, key, ls[1..], After(k, section), [], value);
        LaidApart(p, key, comments, ls[0], ls[1..], After(k, section), value.value);
      }
    }
  }

  lemma LaidNothing(p: Text -> Kind, key: Key, before: seq<Text>, ls: seq<Text>, section: Option<Text>)
    ensures Laid(p, key, before, ls, section, None) == before + Kept(p, key, ls, section)
  {
  }

  /** The line of a value: it is quoted exactly if it is empty, begins or ends with a space, or
      has a semicolon or a hash in it. */
  lemma LineWritten(name: Text, v: Text)
    ensures var quoted := v == [] || v[0] == 32 || v[|v| - 1] == 32 || 59 in v || 35 in v;
            ValueLine(name, Escape(v)) == [9] + name + [32, 61, 32] + if quoted then [34] + Escape(v) + [34] else Escape(v)
  {
    hide Escape, NeedsQuotes, ValueLine;
    QuotedWhen(v);
    LineOf(name, Escape(v));
  }

  lemma LineOf(name: Text, e: Text)
    ensures ValueLine(name, e) == [9] + name + [32, 61, 32] + if NeedsQuotes(e) then [34] + e + [34] else e
  {
    hide NeedsQuotes, Quotes;
    var q := Quotes(e);
    assert name + [32, EQUALS] + [32] + q == name + [32, 61, 32] + q;
    assert [9] + (name + [32, 61, 32] + q) == [9] + name + [32, 61, 32] + q;
    QuotesAre(e);
  }

  lemma QuotesAre(e: Text)
    ensures Quotes(e) == if NeedsQuotes(e) then [34] + e + [34] else e
  {
    hide NeedsQuotes;
  }

  lemma QuotedWhen(v: Text)
    ensures NeedsQuotes(Escape(v)) <==> v == [] || v[0] == 32 || v[|v| - 1] == 32 || 59 in v || 35 in v
  {
    hide Escape;
    NothingEscaped();
    EscapedSigns(v);
    SignIn(v);
    SignIn(Escape(v));
    if v != [] { SpaceEnds(v); }
  }

  lemma SignIn(v: Text)
    ensures (exists i :: 0 <= i < |v| && CommentChar(v[i])) <==> 59 in v || 35 in v
  {
    if 59 in v || 35 in v { var i :| 0 <= i < |v| && (v[i] == 59 || v[i] == 35); }
  }

  lemma SpaceEnds(v: Text)
    requires v != []
    ensures var e := Escape(v); e != [] && (e[0] == 32 <==> v[0] == 32) && (e[|e| - 1] == 32 <==> v[|v| - 1] == 32)
  {
    hide Escape;
    EscapeHead(v);
    assert v == v[..|v| - 1] + [v[|v| - 1]];
    EscapeSnoc(v[..|v| - 1], v[|v| - 1]);
  }

  lemma {:induction false} EscapedSigns(v: Text)
    ensures forall c: byte :: CommentChar(c) ==> (c in Escape(v) <==> c in v)
  {
    if v != [] {
      EscapedSigns(v[1..]);
      hide Escape;
      EscapeHead(v);
      assert v == [v[0]] + v[1..];
    }
  }
}
