/** Texts as sequences of lines. */
module TextLines {
  import opened Common

  const LF: byte := 10

  type Line = seq<byte>

  /** The lines of a text, each one with its line feed. */
  function Lines(s: seq<byte>): (ls: seq<Line>)
    decreases |s|
  {
    if s == [] then [] else
      var n := LineLength(s);
      [s[..n]] + Lines(s[n..])
  }

  function LineLength(s: seq<byte>): (n: nat)
    requires s != []
    ensures 0 < n <= |s| && LF !in s[..n - 1] && (n < |s| ==> s[n - 1] == LF)
  {
    if s[0] == LF || |s| == 1 then 1 else 1 + LineLength(s[1..])
  }

  function Join(ls: seq<Line>): seq<byte> {
    if ls == [] then [] else ls[0] + Join(ls[1..])
  }

  /** A line without its line feed. */
  function Chopped(content: Line): Line {
    if content != [] && content[|content| - 1] == LF then content[..|content| - 1] else content
  }

  lemma {:induction false} JoinLines(s: seq<byte>)
    ensures Join(Lines(s)) == s
    decreases |s|
  {
    if s != [] {
      JoinLines(s[LineLength(s)..]);
      assert s == s[..LineLength(s)] + s[LineLength(s)..];
    }
  }

  lemma {:induction false} LinesSplit(s: seq<byte>)
    ensures forall i :: 0 <= i < |Lines(s)| ==>
              Lines(s)[i] != [] && LF !in Lines(s)[i][..|Lines(s)[i]| - 1]
              && (i < |Lines(s)| - 1 ==> Lines(s)[i][|Lines(s)[i]| - 1] == LF)
    decreases |s|
  {
    if s != [] {
      var n := LineLength(s);
      LinesSplit(s[n..]);
      assert s[..n][..n - 1] == s[..n - 1];
    }
  }

  lemma {:induction false} JoinConcat(a: seq<Line>, b: seq<Line>)
    ensures Join(a + b) == Join(a) + Join(b)
  {
    if a == [] {
      assert a + b == b;
    } else {
      assert (a + b)[1..] == a[1..] + b;
      JoinConcat(a[1..], b);
    }
  }

  lemma LineEnds(s: seq<byte>, start: nat, end: nat)
    requires start < end <= |s| && LF !in s[start..end - 1] && (s[end - 1] == LF || end == |s|)
    ensures Lines(s[start..]) == [s[start..end]] + Lines(s[end..])
  {
    LengthIs(s[start..], end - start);
    assert s[start..][..end - start] == s[start..end] && s[start..][end - start..] == s[end..];
  }

  lemma {:induction false} LengthIs(s: seq<byte>, n: nat)
    requires 0 < n <= |s| && LF !in s[..n - 1] && (s[n - 1] == LF || n == |s|)
    ensures LineLength(s) == n
  {
    if n > 1 {
      assert s[0] == s[..n - 1][0];
      assert s[1..][..n - 2] == s[..n - 1][1..];
      LengthIs(s[1..], n - 1);
    }
  }

  lemma JoinNothing()
    ensures forall ls: seq<Line> :: Join(ls[..0]) == []
  {
  }

  lemma JoinOne(l: Line)
    ensures Join([l]) == l
  {
  }

  /** The lines of a text, without line feeds. */
  function LineContents(s: seq<byte>): (ls: seq<Line>)
    ensures |ls| == |Lines(s)|
  {
    seq(|Lines(s)|, i requires 0 <= i < |Lines(s)| => Chopped(Lines(s)[i]))
  }

  /** The text in which every line, the last one too, has a line feed. */
  function TextOf(ls: seq<Line>): seq<byte> {
    if ls == [] then [] else TextOf(ls[..|ls| - 1]) + ls[|ls| - 1] + [LF]
  }

  lemma {:induction false} TextOfConcat(a: seq<Line>, b: seq<Line>)
    ensures TextOf(a + b) == TextOf(a) + TextOf(b)
  {
    if b == [] {
      assert a + b == a;
    } else {
      var n := |b| - 1;
      assert (a + b)[..|a| + n] == a + b[..n] && (a + b)[|a| + n] == b[n];
      TextOfConcat(a, b[..n]);
      assert TextOf(a) + (TextOf(b[..n]) + b[n] + [LF]) == TextOf(a) + TextOf(b[..n]) + b[n] + [LF];
    }
  }

  lemma TextOfOne(l: Line)
    ensures TextOf([l]) == l + [LF]
  {
    var ls := [l];
    assert ls[..0] == [];
    assert TextOf([]) + l + [LF] == l + [LF];
  }

  /** Reading the lines of such a text gives them back. */
  lemma {:induction false} ContentsOfText(ls: seq<Line>)
    requires forall i :: 0 <= i < |ls| ==> LF !in ls[i]
    ensures LineContents(TextOf(ls)) == ls
  {
    LinesOfText(ls);
    forall i | 0 <= i < |ls| ensures Chopped(ls[i] + [LF]) == ls[i] {
      assert (ls[i] + [LF])[..|ls[i]|] == ls[i];
    }
  }

  lemma {:induction false} LinesOfText(ls: seq<Line>)
    requires forall i :: 0 <= i < |ls| ==> LF !in ls[i]
    ensures |Lines(TextOf(ls))| == |ls| && forall i :: 0 <= i < |ls| ==> Lines(TextOf(ls))[i] == ls[i] + [LF]
  {
    if ls != [] {
      LinesOfText(ls[1..]);
      TextOfConcat([ls[0]], ls[1..]);
      assert ls == [ls[0]] + ls[1..];
      TextOfOne(ls[0]);
      var s, n := TextOf(ls), |ls[0]| + 1;
      assert s == ls[0] + [LF] + TextOf(ls[1..]);
      assert s[..n - 1] == ls[0] && s[n - 1] == LF && s[..n] == ls[0] + [LF] && s[n..] == TextOf(ls[1..]);
      hide TextOf;
      LengthIs(s, n);
    }
  }
}
