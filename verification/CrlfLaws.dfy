/** End-of-line conversion, in terms of the texts: what the filters convert and what they
    leave alone, whatever core.safecrlf says. */
module CrlfLaws {
  import opened Common
  import opened Crlf

  // ------------------------------------------------------------------ what is in a text

  ghost predicate HasCrlf(s: seq<byte>) { exists i :: 0 <= i && i + 1 < |s| && s[i] == 13 && s[i + 1] == 10 }

  /** A line feed without a carriage return before it. */
  ghost predicate HasNakedLf(s: seq<byte>) { exists i :: 0 <= i < |s| && s[i] == 10 && (i == 0 || s[i - 1] != 13) }

  ghost predicate InnerNakedLf(s: seq<byte>) { exists i :: 1 <= i < |s| && s[i] == 10 && s[i - 1] != 13 }

  /** A carriage return without a line feed behind it. */
  ghost predicate HasLoneCr(s: seq<byte>) { exists i :: 0 <= i < |s| && s[i] == 13 && (i + 1 == |s| || s[i + 1] != 10) }

  /** Control characters other than backspace, white space and escape, and delete. */
  predicate Unprintable(c: byte) { c < 8 || 14 <= c < 27 || 28 <= c < 32 || c == 127 }

  ghost function Unprintables(s: seq<byte>): set<nat> { set i: nat | i < |s| && Unprintable(s[i]) }

  /** All others but CR and LF. */
  ghost function Printables(s: seq<byte>): set<nat> { set i: nat | i < |s| && !Unprintable(s[i]) && s[i] != 13 && s[i] != 10 }

  /** What the heuristic takes for binary; a final end-of-file character does not count. */
  ghost predicate LooksBinary(x: seq<byte>) {
    var b := if x != [] && x[|x| - 1] == 26 then x[..|x| - 1] else x;
    HasLoneCr(b) || 0 in b || |Printables(b)| / 128 < |Unprintables(b)|
  }

  lemma {:induction false} CountLast(s: seq<byte>)
    requires s != []
    ensures var (a, r, one) := (Count(s), Count(s[..|s| - 1]), One(s[|s| - 1], false));
            && a.nul == r.nul + one.nul && a.printable == r.printable + one.printable && a.nonprintable == r.nonprintable + one.nonprintable
  {
    hide Count, One;
    CountStep(s);
    if |s| == 1 {
      NothingThere();
      assert s[1..] == [] && s[..0] == [];
    } else {
      CountLast(s[1..]);
      CountStep(s[..|s| - 1]);
      assert s[1..][..|s| - 2] == s[..|s| - 1][1..];
    }
  }

  lemma PositionsLast(s: seq<byte>)
    requires s != []
    ensures var (t, c) := (s[..|s| - 1], s[|s| - 1]);
            && |Unprintables(s)| == |Unprintables(t)| + (if Unprintable(c) then 1 else 0)
            && |Printables(s)| == |Printables(t)| + (if !Unprintable(c) && c != 13 && c != 10 then 1 else 0)
  {
    hide Unprintable;
    var n := |s| - 1;
    assert Unprintables(s) == Unprintables(s[..n]) + if Unprintable(s[n]) then {n} else {};
    assert Printables(s) == Printables(s[..n]) + if !Unprintable(s[n]) && s[n] != 13 && s[n] != 10 then {n} else {};
  }

  lemma OneSays(c: byte, followedByLf: bool)
    ensures var st := One(c, followedByLf);
            && st.nonprintable == (if Unprintable(c) then 1 else 0)
            && st.printable == (if !Unprintable(c) && c != 13 && c != 10 then 1 else 0)
            && st.nul == (if c == 0 then 1 else 0)
  {
  }

  lemma {:induction false} CharactersSay(s: seq<byte>)
    ensures var st := Count(s); st.nonprintable == |Unprintables(s)| && st.printable == |Printables(s)| && (st.nul == 0 <==> 0 !in s)
  {
    if s != [] {
      var n := |s| - 1;
      hide Count, One, Unprintables, Printables;
      CharactersSay(s[..n]);
      CountLast(s);
      OneSays(s[n], false);
      PositionsLast(s);
      assert s == s[..n] + [s[n]];
    } else {
      NothingThere();
      assert Unprintables(s) == {} && Printables(s) == {};
    }
  }

  lemma {:induction false} CountsSay(s: seq<byte>)
    ensures (Count(s).lf == 0 <==> 10 !in s) && (Count(s).cr == 0 <==> 13 !in s)
  {
    hide Count, One;
    if s != [] {
      CountsSay(s[1..]);
      CountStep(s);
      assert s == [s[0]] + s[1..];
    } else {
      NothingThere();
    }
  }

  lemma EndsStep(s: seq<byte>)
    requires s != []
    ensures HasCrlf(s) <==> EndsLine(s) || HasCrlf(s[1..])
    ensures HasLoneCr(s) <==> (s[0] == 13 && !EndsLine(s)) || HasLoneCr(s[1..])
    ensures InnerNakedLf(s) <==> (|s| > 1 && s[1] == 10 && s[0] != 13) || InnerNakedLf(s[1..])
    ensures HasNakedLf(s) <==> s[0] == 10 || InnerNakedLf(s)
  {
    var t := s[1..];
    if HasCrlf(t) {
      var i :| 0 <= i && i + 1 < |t| && t[i] == 13 && t[i + 1] == 10;
      var k := i + 1;
      assert s[k] == 13 && s[k + 1] == 10;
    }
    if HasCrlf(s) && !EndsLine(s) {
      var k :| 0 <= k && k + 1 < |s| && s[k] == 13 && s[k + 1] == 10;
      var i := k - 1;
      assert t[i] == 13 && t[i + 1] == 10;
    }
    if HasLoneCr(t) {
      var i :| 0 <= i < |t| && t[i] == 13 && (i + 1 == |t| || t[i + 1] != 10);
      assert s[i + 1] == 13;
    }
    if HasLoneCr(s) && !(s[0] == 13 && !EndsLine(s)) {
      var k :| 0 <= k < |s| && s[k] == 13 && (k + 1 == |s| || s[k + 1] != 10);
      assert t[k - 1] == 13;
    }
    InnerStep(s);
  }

  lemma InnerStep(s: seq<byte>)
    requires s != []
    ensures InnerNakedLf(s) <==> (|s| > 1 && s[1] == 10 && s[0] != 13) || InnerNakedLf(s[1..])
    ensures HasNakedLf(s) <==> s[0] == 10 || InnerNakedLf(s)
  {
    var t := s[1..];
    if InnerNakedLf(t) {
      var i :| 1 <= i < |t| && t[i] == 10 && t[i - 1] != 13;
      var k := i + 1;
      assert s[k] == 10 && s[k - 1] != 13;
    }
    if InnerNakedLf(s) && !(|s| > 1 && s[1] == 10 && s[0] != 13) {
      var k :| 1 <= k < |s| && s[k] == 10 && s[k - 1] != 13;
      var i := k - 1;
      assert t[i] == 10 && t[i - 1] != 13;
    }
  }

  lemma {:induction false} LineEndsSay(s: seq<byte>)
    ensures var (st, first) := (Count(s), if s != [] && s[0] == 10 then 1 else 0);
            && (st.crlf == 0 <==> !HasCrlf(s)) && st.crlf <= st.cr && (st.cr == st.crlf <==> !HasLoneCr(s))
            && st.crlf + first <= st.lf && (st.crlf + first == st.lf <==> !InnerNakedLf(s))
  {
    hide Count, One, HasCrlf, HasLoneCr, InnerNakedLf, HasNakedLf;
    if s == [] {
      NothingThere();
      NoEnds();
    } else {
      LineEndsSay(s[1..]);
      CountStep(s);
      EndsStep(s);
    }
  }

  lemma NoEnds()
    ensures !HasCrlf([]) && !HasLoneCr([]) && !InnerNakedLf([]) && !HasNakedLf([])
  {
  }

  /** What the counts say about a text. */
  lemma StatsSay(s: seq<byte>)
    ensures var st := Count(s);
            && (st.crlf == 0 <==> !HasCrlf(s)) && (st.crlf == st.lf <==> !HasNakedLf(s)) && (st.lf == 0 <==> 10 !in s) && (st.cr == 0 <==> 13 !in s)
            && (IsBinary(st) <==> HasLoneCr(s) || 0 in s || |Printables(s)| / 128 < |Unprintables(s)|)
  {
    hide Count, HasCrlf, HasLoneCr, InnerNakedLf, HasNakedLf, Unprintables, Printables;
    CharactersSay(s);
    CountsSay(s);
    LineEndsSay(s);
    if s != [] { EndsStep(s); } else { NoEnds(); }
  }

  lemma EofAside(s: seq<byte>)
    ensures HasCrlf(Body(s)) == HasCrlf(s) && HasNakedLf(Body(s)) == HasNakedLf(s)
    ensures (10 in Body(s) <==> 10 in s) && (13 in Body(s) <==> 13 in s)
  {
    var b := Body(s);
    if b != s {
      assert s == b + [26];
      if HasCrlf(s) { var i :| 0 <= i && i + 1 < |s| && s[i] == 13 && s[i + 1] == 10; assert b[i] == 13 && b[i + 1] == 10; }
      if HasCrlf(b) { var i :| 0 <= i && i + 1 < |b| && b[i] == 13 && b[i + 1] == 10; assert s[i] == 13 && s[i + 1] == 10; }
      if HasNakedLf(s) { var i :| 0 <= i < |s| && s[i] == 10 && (i == 0 || s[i - 1] != 13); assert b[i] == 10; }
      if HasNakedLf(b) { var i :| 0 <= i < |b| && b[i] == 10 && (i == 0 || b[i - 1] != 13); assert s[i] == 10; }
    }
  }

  // ------------------------------------------------------------------- what is dropped

  /** Every character stays but a carriage return before a line feed. */
  predicate Stays(s: seq<byte>, k: nat) { k < |s| && !(s[k] == 13 && k + 1 < |s| && s[k + 1] == 10) }

  /** t has the characters that stay from n on, in their order; `at` says where they are. */
  ghost predicate Drops(s: seq<byte>, n: nat, t: seq<byte>, at: seq<nat>) {
    && |at| == |t|
    && (forall i, j :: 0 <= i < j < |at| ==> at[i] < at[j])
    && (forall k: nat :: k in at <==> n <= k && Stays(s, k))
    && (forall j :: 0 <= j < |at| ==> n <= at[j] < |s| && t[j] == s[at[j]])
  }

  lemma {:induction false} CrlfToLfDrops(s: seq<byte>, n: nat) returns (at: seq<nat>)
    requires n <= |s|
    ensures Drops(s, n, CrlfToLf(s[n..]), at)
    decreases |s| - n
  {
    hide CrlfToLf, Drops;
    if n == |s| {
      ConvertedNothing();
      DropsNothing(s);
      at := [];
      assert s[n..] == [];
    } else {
      var r := CrlfToLfDrops(s, n + 1);
      CrlfToLfStep(s[n..]);
      assert s[n..][1..] == s[n + 1..] && s[n..][0] == s[n] && (n + 1 < |s| ==> s[n..][1] == s[n + 1]);
      DropsOne(s, n, CrlfToLf(s[n + 1..]), r);
      at := if Stays(s, n) then [n] + r else r;
      if EndsLine(s[n..]) {
        assert !Stays(s, n);
        assert CrlfToLf(s[n..]) == CrlfToLf(s[n + 1..]);
      } else {
        assert Stays(s, n);
      }
    }
  }

  lemma DropsNothing(s: seq<byte>)
    ensures Drops(s, |s|, [], [])
  {
  }

  lemma DropsOne(s: seq<byte>, n: nat, t: seq<byte>, r: seq<nat>)
    requires n < |s| && Drops(s, n + 1, t, r)
    ensures if Stays(s, n) then Drops(s, n, [s[n]] + t, [n] + r) else Drops(s, n, t, r)
  {
    hide Stays;
    if Stays(s, n) {
      var at := [n] + r;
      forall k: nat ensures k in at <==> n <= k && Stays(s, k) {
        assert k in at <==> k == n || k in r;
      }
    } else {
      forall k: nat ensures k in r <==> n <= k && Stays(s, k) {
        assert k in r <==> n + 1 <= k && Stays(s, k);
      }
    }
  }

  // ----------------------------------------------------------------------- the filters

  /** An automatic action leaves a file alone that looks binary or has a CR in the index. */
  ghost predicate LeftAlone(ca: Attrs, crInIndex: bool, x: seq<byte>) {
    ca.action == Binary || ((ca.action == Auto || ca.action == AutoInput || ca.action == AutoCrlf) && (LooksBinary(x) || crInIndex))
  }

  /** The clean filter, whatever core.safecrlf says: every text that is not left alone loses
      exactly the carriage returns before line feeds, unless safecrlf is to fail and checking
      out would not bring back its line endings. */
  lemma CleanExact(ca: Attrs, crInIndex: bool, x: seq<byte>) returns (at: seq<nat>)
    ensures var o := Clean(ca, crInIndex, x);
            && (o == Refused <==> !LeftAlone(ca, crInIndex, x) && ca.safeCrlf == SafeFail
                                  && if OutputEol(ca) == EolLf then HasCrlf(x) else OutputEol(ca) == EolCrlf && HasNakedLf(x))
            && (o.Converted? <==> !LeftAlone(ca, crInIndex, x) && o != Refused && HasCrlf(x))
            && (o != Refused ==> if LeftAlone(ca, crInIndex, x) then Result(x, o) == x else Drops(x, 0, Result(x, o), at))
  {
    hide Clean, CrlfToLf, HasCrlf, HasNakedLf, LooksBinary, OutputEol, Drops;
    at := CrlfToLfDrops(x, 0);
    assert x[0..] == x;
    CleanCases(ca, crInIndex, x);
    if !HasCrlf(x) { NothingDropped(x); }
  }

  lemma CleanCases(ca: Attrs, crInIndex: bool, x: seq<byte>)
    ensures var unsafe := if OutputEol(ca) == EolLf then HasCrlf(x) else OutputEol(ca) == EolCrlf && HasNakedLf(x);
            Clean(ca, crInIndex, x) ==
            if LeftAlone(ca, crInIndex, x) then Passthrough
            else if ca.safeCrlf == SafeFail && unsafe then Refused
            else if HasCrlf(x) then Converted(CrlfToLf(x)) else Passthrough
  {
    hide Count, CrlfToLf, HasCrlf, HasNakedLf, LooksBinary, IsBinary, OutputEol;
    TextSays(x);
    if x == [] { NoEnds(); }
  }

  /** The counts that the filters take, and the text. */
  lemma TextSays(x: seq<byte>)
    ensures var st := Count(Body(x));
            && (st.crlf == 0 <==> !HasCrlf(x)) && (st.crlf == st.lf <==> !HasNakedLf(x)) && (st.lf == 0 <==> 10 !in x) && (st.cr == 0 <==> 13 !in x)
            && (IsBinary(st) <==> LooksBinary(x))
  {
    hide Count, HasCrlf, HasLoneCr, HasNakedLf, Printables, Unprintables, IsBinary;
    StatsSay(Body(x));
    EofAside(x);
  }

  lemma {:induction false} NothingDropped(s: seq<byte>)
    requires !HasCrlf(s)
    ensures CrlfToLf(s) == s
  {
    hide HasCrlf, CrlfToLf, HasLoneCr, HasNakedLf, InnerNakedLf;
    if s == [] {
      ConvertedNothing();
    } else {
      EndsStep(s);
      NothingDropped(s[1..]);
      CrlfToLfStep(s);
      assert s == [s[0]] + s[1..];
    }
  }

  lemma {:induction false} NoNakedLf(s: seq<byte>)
    ensures !HasNakedLf(LfToCrlf(s))
  {
    hide LfToCrlf, HasNakedLf, InnerNakedLf, HasCrlf, HasLoneCr;
    if s == [] {
      ConvertedNothing();
      NoEnds();
    } else {
      var u, w := LfToCrlf(s[1..]), LfToCrlf(s);
      NoNakedLf(s[1..]);
      LfToCrlfStep(s);
      if |s| > 1 { LfToCrlfStarts(s[1..]); } else { ConvertedNothing(); }
      if u != [] { EndsStep(u); } else { NoEnds(); }
      if s[0] == LF {
        assert w[1..] == [LF] + u && w[1..][1..] == u;
        EndsStep(w);
        EndsStep(w[1..]);
      } else if EndsLine(s) {
        assert w == u;
      } else {
        assert w == [s[0]] + u && w[1..] == u;
        EndsStep(w);
      }
    }
  }

  /** The smudge filter: files that are to have CRLF get a carriage return before every line
      feed that lacks one, and nothing else changes: dropping them again gives the same. */
  lemma SmudgeExact(ca: Attrs, x: seq<byte>)
    ensures var o := Smudge(ca, x);
            && o != Refused
            && (o.Converted? <==> OutputEol(ca) == EolCrlf && HasNakedLf(x)
                                  && !((ca.action == Auto || ca.action == AutoInput || ca.action == AutoCrlf) && (13 in x || LooksBinary(x))))
            && (o.Converted? ==> !HasNakedLf(o.text) && CrlfToLf(o.text) == CrlfToLf(x))
  {
    hide Count, CrlfToLf, LfToCrlf, HasCrlf, HasNakedLf, LooksBinary, IsBinary, OutputEol;
    TextSays(x);
    if x == [] { NoEnds(); }
    if 10 !in x { NoLfAtAll(x); }
    NoNakedLf(x);
    CrlfAndBack(x);
  }

  lemma NoLfAtAll(x: seq<byte>)
    requires 10 !in x
    ensures !HasNakedLf(x)
  {
  }

  // ------------------------------------------------------------------- checked in again

  lemma NoCrNothingDropped(x: seq<byte>)
    requires 13 !in x
    ensures CrlfToLf(x) == x
  {
    NothingDropped(x);
  }

  /** Dropping carriage returns before line feeds: a text of an automatic action has none
      left, and whether it looks binary does not depend on them. */
  lemma DroppedLooks(w: seq<byte>)
    ensures var c := CrlfToLf(w);
            && (HasCrlf(c) <==> HasCrCrLf(w)) && (!LooksBinary(w) ==> 13 !in c && !LooksBinary(c))
            && (13 !in c && !LooksBinary(c) ==> !LooksBinary(w))
  {
    hide Count, CrlfToLf, LfToCrlf, HasCrlf, HasNakedLf, LooksBinary, HasCrCrLf;
    if w == [] {
      NothingThere();
      NoEnds();
    } else {
      TextSays(w);
      TextSays(CrlfToLf(w));
      CountCrlfToLf(Body(w));
      CrSplit(CrlfToLf(Body(w)));
      BodyConverted(w);
    }
  }

  /** With core.safecrlf off or only warning: once checked in and checked out, a file is
      checked in with the same content again, so that it does not show as modified.  For text
      files this is so exactly without two carriage returns before a line feed. */
  lemma CheckinStable(ca: Attrs, crInIndex: bool, x: seq<byte>)
    requires ca.safeCrlf != SafeFail
    ensures var c := Result(x, Clean(ca, crInIndex, x));
            var w := Result(c, Smudge(ca, c));
            Result(w, Clean(ca, 13 in c, w)) == c
            <==> ca.action == Binary || ca.action == Auto || ca.action == AutoInput || ca.action == AutoCrlf || !HasCrCrLf(x)
  {
    hide Clean, Smudge, CrlfToLf, HasCrlf, HasNakedLf, HasCrCrLf, LooksBinary;
    var c := Result(x, Clean(ca, crInIndex, x));
    var w := Result(c, Smudge(ca, c));
    CleanCases(ca, crInIndex, x);
    SmudgeExact(ca, c);
    CleanCases(ca, 13 in c, w);
    if ca.action != Binary {
      Uncleaned(x);
      Uncleaned(w);
      DroppedLooks(x);
      if IsAuto(ca.action) {
        if 13 !in c { NoCrNothingDropped(c); }
        DroppedLooks(w);
      } else {
        Uncleaned(c);
        ShorterDropped(c);
      }
    }
  }

  lemma Uncleaned(x: seq<byte>)
    ensures !HasCrlf(x) ==> CrlfToLf(x) == x
  {
    if !HasCrlf(x) { NothingDropped(x); }
  }

  lemma ShorterDropped(x: seq<byte>)
    ensures HasCrlf(x) ==> |CrlfToLf(x)| < |x|
  {
    hide Count, CrlfToLf, HasCrlf, InnerNakedLf, HasLoneCr;
    CountCrlfToLf(x);
    LineEndsSay(x);
  }

  // ------------------------------------------------------------------------ attributes

  /** The text attribute has that value or, if it has none that is known, the crlf attribute. */
  ghost predicate Says(attrs: Option<(Value, Value, Value)>, v: Value) {
    match attrs
    case None => false
    case Some((crlf, _, text)) =>
      text == v || (text != True && text != False && text != Is("input") && text != Is("auto") && crlf == v)
  }

  /** What the attributes mean for the files in the working directory. */
  lemma AttributesMean(settings: Attrs, allowUnsafe: bool, attrs: Option<(Value, Value, Value)>)
    ensures var ca := ConvertAttrs(settings, allowUnsafe, attrs);
            var eol := if attrs.Some? then attrs.value.1 else Unspecified;
            var crlf := settings.autoCrlf == AutoTrue
                        || (settings.autoCrlf == AutoFalse
                            && (settings.coreEol == EolCrlf || (settings.coreEol == EolUnset && settings.nativeIsCrlf)));
            && (Says(attrs, False) ==> ca.action == Binary)
            && (!Says(attrs, False) && eol == Is("lf") ==> OutputEol(ca) == EolLf)
            && (!Says(attrs, False) && eol == Is("crlf") ==> OutputEol(ca) == EolCrlf)
            && (!Says(attrs, False) && eol != Is("lf") && eol != Is("crlf") ==>
                  if Says(attrs, True) || Says(attrs, Is("auto")) then OutputEol(ca) == if crlf then EolCrlf else EolLf
                  else if Says(attrs, Is("input")) then OutputEol(ca) == EolLf
                  else match settings.autoCrlf
                       case AutoFalse => ca.action == Binary
                       case AutoTrue => OutputEol(ca) == EolCrlf
                       case AutoOnInput => OutputEol(ca) == EolLf)
  {
    AskedIs(attrs);
    var ca := ConvertAttrs(settings, allowUnsafe, attrs);
    hide ConvertAttrs, Says, CheckCrlf, Asked;
  }

  lemma AskedIs(attrs: Option<(Value, Value, Value)>)
    ensures (Asked(attrs) == Binary <==> Says(attrs, False)) && (Asked(attrs) == Text <==> Says(attrs, True))
    ensures (Asked(attrs) == Auto <==> Says(attrs, Is("auto"))) && (Asked(attrs) == TextInput <==> Says(attrs, Is("input")))
    ensures Asked(attrs) in {Binary, Text, Auto, TextInput, Undefined}
  {
  }
}
