/** End-of-line conversion (crlf.c and buf_text.c): the clean and smudge filters and
    what core.safecrlf promises about them. */
module Crlf {
  import opened Common
  import opened Buffer

  const LF: byte := 10
  const CR: byte := 13
  const EOF_CHAR: byte := 26

  // ------------------------------------------------------------------ conversions

  function CrlfToLf(s: seq<byte>): seq<byte> {
    if s == [] then []
    else if s[0] == CR && |s| > 1 && s[1] == LF then CrlfToLf(s[1..])
    else [s[0]] + CrlfToLf(s[1..])
  }

  function LfToCrlf(s: seq<byte>): seq<byte> {
    if s == [] then []
    else if s[0] == LF then [CR, LF] + LfToCrlf(s[1..])
    else if s[0] == CR && |s| > 1 && s[1] == LF then LfToCrlf(s[1..])
    else [s[0]] + LfToCrlf(s[1..])
  }

  /** git_buf_text_stats, without the byte order mark. */
  datatype Stats = Stats(nul: nat, cr: nat, lf: nat, crlf: nat, printable: nat, nonprintable: nat)

  function One(c: byte, followedByLf: bool): Stats {
    if c > 0x1f && c != 0x7f then Stats(0, 0, 0, 0, 1, 0)
    else
      match c
      case 0 => Stats(1, 0, 0, 0, 0, 1)
      case 10 => Stats(0, 0, 1, 0, 0, 0)
      case 13 => Stats(0, 1, 0, if followedByLf then 1 else 0, 0, 0)
      case 8 => Stats(0, 0, 0, 0, 1, 0) case 9 => Stats(0, 0, 0, 0, 1, 0) case 11 => Stats(0, 0, 0, 0, 1, 0)
      case 12 => Stats(0, 0, 0, 0, 1, 0) case 27 => Stats(0, 0, 0, 0, 1, 0)
      case _ => Stats(0, 0, 0, 0, 0, 1)
  }

  function Plus(a: Stats, b: Stats): Stats {
    Stats(a.nul + b.nul, a.cr + b.cr, a.lf + b.lf, a.crlf + b.crlf, a.printable + b.printable, a.nonprintable + b.nonprintable)
  }

  function Count(s: seq<byte>): Stats {
    if s == [] then Stats(0, 0, 0, 0, 0, 0)
    else Plus(One(s[0], |s| > 1 && s[1] == LF), Count(s[1..]))
  }

  /** The text without a final end-of-file character. */
  function Body(s: seq<byte>): seq<byte> {
    if s != [] && s[|s| - 1] == EOF_CHAR then s[..|s| - 1] else s
  }

  predicate IsBinary(st: Stats) {
    st.cr != st.crlf || st.nul > 0 || st.printable / 128 < st.nonprintable
  }

  // ------------------------------------------------------------------- attributes

  datatype Action = Undefined | Binary | Text | TextInput | TextCrlf | Auto | AutoInput | AutoCrlf

  datatype Eol = EolUnset | EolCrlf | EolLf

  datatype AutoCrlfSetting = AutoFalse | AutoTrue | AutoOnInput

  datatype SafeCrlf = SafeFalse | SafeFail | SafeWarn

  datatype Attrs = Attrs(action: Action, autoCrlf: AutoCrlfSetting, safeCrlf: SafeCrlf, coreEol: Eol, nativeIsCrlf: bool)

  /** The value of a git attribute. */
  datatype Value = True | False | Unspecified | Is(text: string)

  function CheckCrlf(v: Value): Action {
    match v
    case True => Text
    case False => Binary
    case Unspecified => Undefined
    case Is(t) => if t == "input" then TextInput else if t == "auto" then Auto else Undefined
  }

  function CheckEol(v: Value): Eol {
    if v == Is("lf") then EolLf else if v == Is("crlf") then EolCrlf else EolUnset
  }

  predicate TextEolIsCrlf(ca: Attrs) {
    if ca.autoCrlf == AutoTrue then true
    else if ca.autoCrlf == AutoOnInput then false
    else ca.coreEol == EolCrlf || (ca.coreEol == EolUnset && ca.nativeIsCrlf)
  }

  function OutputEol(ca: Attrs): Eol {
    match ca.action
    case Binary => EolUnset
    case TextCrlf => EolCrlf
    case TextInput => EolLf
    case Undefined => EolCrlf
    case AutoCrlf => EolCrlf
    case AutoInput => EolLf
    case Text => if TextEolIsCrlf(ca) then EolCrlf else EolLf
    case Auto => if TextEolIsCrlf(ca) then EolCrlf else EolLf
  }

  predicate IsAuto(a: Action) { a == Auto || a == AutoInput || a == AutoCrlf }

  /** What the attributes text and, in its place, crlf ask for. */
  function Asked(attrs: Option<(Value, Value, Value)>): Action {
    match attrs
    case None => Undefined
    case Some((crlf, _, text)) => if CheckCrlf(text) == Undefined then CheckCrlf(crlf) else CheckCrlf(text)
  }

  function AskedEol(attrs: Option<(Value, Value, Value)>): Eol { if attrs.Some? then CheckEol(attrs.value.1) else EolUnset }

  /** convert_attrs; None stands for a check that was bypassed.  A file that is not text
      stays binary; otherwise the eol attribute decides the line ending, then the text
      attribute with the settings, then core.autocrlf alone, without which the file is
      left alone. */
  function ConvertAttrs(settings: Attrs, allowUnsafe: bool, attrs: Option<(Value, Value, Value)>): (ca: Attrs)
    ensures ca.action != Undefined && ca.action != Text
    ensures ca.autoCrlf == settings.autoCrlf && ca.coreEol == settings.coreEol && ca.nativeIsCrlf == settings.nativeIsCrlf
    ensures ca.safeCrlf == if allowUnsafe && settings.safeCrlf == SafeFail then SafeWarn else settings.safeCrlf
    ensures Asked(attrs) == Binary ==> ca.action == Binary
    ensures Asked(attrs) != Binary && AskedEol(attrs) != EolUnset ==> OutputEol(ca) == AskedEol(attrs)
    ensures (Asked(attrs) == Text || Asked(attrs) == Auto) && AskedEol(attrs) == EolUnset ==>
              OutputEol(ca) == if TextEolIsCrlf(settings) then EolCrlf else EolLf
    ensures Asked(attrs) == TextInput && AskedEol(attrs) == EolUnset ==> OutputEol(ca) == EolLf
    ensures Asked(attrs) == Undefined && AskedEol(attrs) == EolUnset ==>
              match settings.autoCrlf
              case AutoFalse => ca.action == Binary
              case AutoTrue => OutputEol(ca) == EolCrlf
              case AutoOnInput => OutputEol(ca) == EolLf
    ensures IsAuto(ca.action) <==> Asked(attrs) == Auto || (Asked(attrs) == Undefined && AskedEol(attrs) == EolUnset && settings.autoCrlf != AutoFalse)
  {
    var ca := if allowUnsafe && settings.safeCrlf == SafeFail then settings.(safeCrlf := SafeWarn) else settings;
    var action :=
      match attrs
      case None => Undefined
      case Some((crlf, eol, text)) =>
        var a := if CheckCrlf(text) == Undefined then CheckCrlf(crlf) else CheckCrlf(text);
        if a == Binary then a
        else
          match CheckEol(eol)
          case EolLf => if a == Auto then AutoInput else TextInput
          case EolCrlf => if a == Auto then AutoCrlf else TextCrlf
          case EolUnset => a;
    var action :=
      if action == Text then (if TextEolIsCrlf(ca) then TextCrlf else TextInput)
      else if action != Undefined then action
      else match ca.autoCrlf case AutoFalse => Binary case AutoTrue => AutoCrlf case AutoOnInput => AutoInput;
    ca.(action := action)
  }

  // ---------------------------------------------------------------- the two filters

  datatype Outcome = Passthrough | Converted(text: seq<byte>) | Refused

  /** check_safecrlf: whether the text may be converted. */
  predicate Safe(ca: Attrs, st: Stats) {
    ca.safeCrlf != SafeFail || (
      if OutputEol(ca) == EolLf then st.crlf == 0
      else if OutputEol(ca) == EolCrlf then st.crlf == st.lf
      else true)
  }

  /** crlf_apply_to_odb */
  function Clean(ca: Attrs, crInIndex: bool, x: seq<byte>): Outcome {
    var st := Count(Body(x));
    if ca.action == Binary || x == [] then Passthrough
    else if IsAuto(ca.action) && (IsBinary(st) || crInIndex) then Passthrough
    else if !Safe(ca, st) then Refused
    else if st.crlf == 0 then Passthrough
    else Converted(CrlfToLf(x))
  }

  /** crlf_apply_to_workdir */
  function Smudge(ca: Attrs, x: seq<byte>): Outcome {
    var st := Count(Body(x));
    if x == [] || OutputEol(ca) != EolCrlf then Passthrough
    else if st.lf == 0 || st.lf == st.crlf then Passthrough
    else if IsAuto(ca.action) && (st.cr > 0 || IsBinary(st)) then Passthrough
    else Converted(LfToCrlf(x))
  }

  function Result(x: seq<byte>, o: Outcome): seq<byte> {
    if o.Converted? then o.text else x
  }

  // ------------------------------------------------------- what the conversions do

  ghost predicate HasCrCrLf(s: seq<byte>) {
    exists i :: 0 <= i && i + 2 < |s| && s[i] == CR && s[i + 1] == CR && s[i + 2] == LF
  }

  lemma HasCrCrLfTail(s: seq<byte>)
    requires s != []
    ensures HasCrCrLf(s) <==> HasCrCrLf(s[1..]) || (|s| > 2 && s[0] == CR && s[1] == CR && s[2] == LF)
  {
    if HasCrCrLf(s) && !(|s| > 2 && s[0] == CR && s[1] == CR && s[2] == LF) {
      var i :| 0 <= i && i + 2 < |s| && s[i] == CR && s[i + 1] == CR && s[i + 2] == LF;
      var j := i - 1;
      assert s[1..][j] == CR && s[1..][j + 1] == CR && s[1..][j + 2] == LF;
    }
    if HasCrCrLf(s[1..]) {
      var j :| 0 <= j && j + 2 < |s[1..]| && s[1..][j] == CR && s[1..][j + 1] == CR && s[1..][j + 2] == LF;
      var i := j + 1;
      assert s[i] == CR && s[i + 1] == CR && s[i + 2] == LF;
    }
  }

  predicate EndsLine(s: seq<byte>) { |s| > 1 && s[0] == CR && s[1] == LF }

  lemma CrlfToLfStep(s: seq<byte>)
    requires s != []
    ensures CrlfToLf(s) == (if EndsLine(s) then [] else [s[0]]) + CrlfToLf(s[1..])
    ensures CrlfToLf(s) != [] && (CrlfToLf(s)[0] == LF <==> s[0] == LF || EndsLine(s))
  {
  }

  lemma LfToCrlfStep(s: seq<byte>)
    requires s != []
    ensures LfToCrlf(s) == (if s[0] == LF then [CR, LF] else if EndsLine(s) then [] else [s[0]]) + LfToCrlf(s[1..])
  {
  }

  lemma OneCounts(c: byte, followedByLf: bool)
    ensures var st := One(c, followedByLf);
            && st.lf == (if c == LF then 1 else 0) && st.cr == (if c == CR then 1 else 0)
            && st.crlf == (if c == CR && followedByLf then 1 else 0)
            && (c == CR ==> st.nul == st.printable == st.nonprintable == 0)
            && (c != CR ==> st == One(c, false))
  {
  }

  lemma CountStep(s: seq<byte>)
    requires s != []
    ensures var (a, r, one) := (Count(s), Count(s[1..]), One(s[0], false));
            && a.lf == r.lf + (if s[0] == LF then 1 else 0) && a.cr == r.cr + (if s[0] == CR then 1 else 0)
            && a.crlf == r.crlf + (if EndsLine(s) then 1 else 0)
            && a.nul == r.nul + one.nul && a.printable == r.printable + one.printable && a.nonprintable == r.nonprintable + one.nonprintable
            && (s[0] == CR ==> one.nul == one.printable == one.nonprintable == 0)
  {
    OneCounts(s[0], |s| > 1 && s[1] == LF);
    OneCounts(s[0], false);
    hide One;
  }

  /** Dropping carriage returns leaves all other counts alone, so that the binary
      heuristic answers the same. */
  lemma {:induction false} CountCrlfToLf(s: seq<byte>)
    ensures var (a, b) := (Count(s), Count(CrlfToLf(s)));
            && b.nul == a.nul && b.lf == a.lf && b.printable == a.printable && b.nonprintable == a.nonprintable
            && b.cr + a.crlf == a.cr && a.crlf <= a.lf && (b.crlf == 0 <==> !HasCrCrLf(s))
            && |CrlfToLf(s)| + a.crlf == |s| && (s != [] && s[0] == LF ==> a.crlf < a.lf)
  {
    hide HasCrCrLf, Count, CrlfToLf, One;
    if s == [] {
      NothingThere();
    } else {
      CountCrlfToLf(s[1..]);
      HasCrCrLfTail(s);
      CountStep(s);
      CrlfToLfStep(s);
      CountStep(CrlfToLf(s));
      if |s| > 1 { CrlfToLfStep(s[1..]); }
      if EndsLine(s) {
        assert CrlfToLf(s) == CrlfToLf(s[1..]);
      } else {
        assert CrlfToLf(s)[1..] == CrlfToLf(s[1..]) && CrlfToLf(s)[0] == s[0];
      }
    }
  }

  lemma {:induction false} SizeOfLfToCrlf(s: seq<byte>)
    ensures |LfToCrlf(s)| + Count(s).crlf == |s| + Count(s).lf
  {
    if s != [] {
      SizeOfLfToCrlf(s[1..]);
      CountStep(s);
      LfToCrlfStep(s);
      hide Count, LfToCrlf, One;
    }
  }

  /** Where all line feeds follow a carriage return, and none follows two, the two
      conversions are inverse. */
  lemma {:induction false} LfToCrlfRestores(s: seq<byte>)
    requires Count(s).crlf == Count(s).lf && !HasCrCrLf(s)
    ensures LfToCrlf(CrlfToLf(s)) == s
  {
    hide HasCrCrLf, Count, CrlfToLf, LfToCrlf, One;
    if s == [] {
      ConvertedNothing();
    } else {
      CountCrlfToLf(s);
      CountCrlfToLf(s[1..]);
      HasCrCrLfTail(s);
      CountStep(s);
      CrlfToLfStep(s);
      var c := CrlfToLf(s);
      LfToCrlfStep(c);
      if EndsLine(s) {
        HasCrCrLfTail(s[1..]);
        CountStep(s[1..]);
        CrlfToLfStep(s[1..]);
        CountCrlfToLf(s[2..]);
        assert s[1..][1..] == s[2..];
        LfToCrlfRestores(s[2..]);
        assert c == [LF] + CrlfToLf(s[2..]) && c[1..] == CrlfToLf(s[2..]);
        assert s == [CR, LF] + s[2..];
      } else {
        if |s| > 1 { CrlfToLfStep(s[1..]); }
        LfToCrlfRestores(s[1..]);
        assert c == [s[0]] + CrlfToLf(s[1..]) && c[1..] == CrlfToLf(s[1..]);
        assert s[0] != LF;
        assert !EndsLine(c);
        assert s == [s[0]] + s[1..];
      }
    }
  }

  lemma ConvertedNothing()
    ensures CrlfToLf([]) == [] && LfToCrlf([]) == []
  {
  }

  /** Line endings made uniform in one way and then in the other. */
  lemma {:induction false} CrlfAndBack(s: seq<byte>)
    ensures CrlfToLf(LfToCrlf(s)) == CrlfToLf(s)
  {
    if s != [] {
      CrlfAndBack(s[1..]);
      CrlfToLfStep(s);
      LfToCrlfStep(s);
      var u, v := LfToCrlf(s[1..]), LfToCrlf(s);
      LfToCrlfStarts(s);
      CrlfToLfStep(v);
      if s[0] == LF {
        CrlfToLfStep(v[1..]);
        hide CrlfToLf, LfToCrlf;
        assert v[1..] == [LF] + u && v[1..][1..] == u;
      } else if EndsLine(s) {
        hide CrlfToLf, LfToCrlf;
        assert v == u;
      } else {
        if |s| > 1 { LfToCrlfStarts(s[1..]); }
        hide CrlfToLf, LfToCrlf;
        assert v == [s[0]] + u && v[1..] == u && !EndsLine(v);
      }
    }
  }

  lemma LfToCrlfStarts(s: seq<byte>)
    requires s != []
    ensures LfToCrlf(s) != []
    ensures LfToCrlf(s)[0] != LF && (s[0] != LF && !EndsLine(s) ==> LfToCrlf(s)[0] == s[0])
  {
    LfToCrlfStep(s);
    if EndsLine(s) { LfToCrlfStep(s[1..]); }
    hide LfToCrlf;
  }

  // ------------------------------------------------------- the end-of-file character

  lemma {:induction false} CrlfToLfSnoc(s: seq<byte>, c: byte)
    requires c != LF
    ensures CrlfToLf(s + [c]) == CrlfToLf(s) + [c]
  {
    if s != [] {
      assert (s + [c])[1..] == s[1..] + [c];
      CrlfToLfSnoc(s[1..], c);
    }
  }

  lemma {:induction false} LfToCrlfSnoc(s: seq<byte>, c: byte)
    requires c != LF
    ensures LfToCrlf(s + [c]) == LfToCrlf(s) + [c]
  {
    if s != [] {
      assert (s + [c])[1..] == s[1..] + [c];
      LfToCrlfSnoc(s[1..], c);
    }
  }

  lemma {:induction false} CrlfToLfLast(s: seq<byte>)
    requires s != []
    ensures CrlfToLf(s) != [] && CrlfToLf(s)[|CrlfToLf(s)| - 1] == s[|s| - 1]
  {
    if |s| > 1 { CrlfToLfLast(s[1..]); }
  }

  lemma EofConverted(b: seq<byte>)
    ensures CrlfToLf(b + [EOF_CHAR]) == CrlfToLf(b) + [EOF_CHAR]
    ensures LfToCrlf(CrlfToLf(b + [EOF_CHAR])) == LfToCrlf(CrlfToLf(b)) + [EOF_CHAR]
  {
    hide CrlfToLf, LfToCrlf;
    CrlfToLfSnoc(b, EOF_CHAR);
    LfToCrlfSnoc(CrlfToLf(b), EOF_CHAR);
  }

  /** The end-of-file character does not matter for what the conversions do. */
  lemma BodyConverted(s: seq<byte>)
    requires s != []
    ensures Body(CrlfToLf(s)) == CrlfToLf(Body(s)) && HasCrCrLf(Body(s)) == HasCrCrLf(s)
    ensures |CrlfToLf(s)| - |CrlfToLf(Body(s))| == |s| - |Body(s)|
    ensures |LfToCrlf(CrlfToLf(s))| - |LfToCrlf(CrlfToLf(Body(s)))| == |s| - |Body(s)|
    ensures LfToCrlf(CrlfToLf(Body(s))) == Body(s) ==> LfToCrlf(CrlfToLf(s)) == s
  {
    hide HasCrCrLf, CrlfToLf, LfToCrlf;
    CrlfToLfLast(s);
    BodyCrCrLf(s);
    if s[|s| - 1] == EOF_CHAR {
      EofConverted(Body(s));
      assert s == Body(s) + [EOF_CHAR];
      assert Body(CrlfToLf(s)) == CrlfToLf(Body(s));
    } else {
      assert Body(s) == s && Body(CrlfToLf(s)) == CrlfToLf(s);
    }
  }

  lemma BodyCrCrLf(s: seq<byte>)
    ensures HasCrCrLf(Body(s)) == HasCrCrLf(s)
  {
    var b := Body(s);
    if HasCrCrLf(s) {
      var i :| 0 <= i && i + 2 < |s| && s[i] == CR && s[i + 1] == CR && s[i + 2] == LF;
      assert b[i] == CR && b[i + 1] == CR && b[i + 2] == LF;
    }
    if HasCrCrLf(b) {
      var i :| 0 <= i && i + 2 < |b| && b[i] == CR && b[i + 1] == CR && b[i + 2] == LF;
      assert s[i] == CR && s[i + 1] == CR && s[i + 2] == LF;
    }
  }

  // ---------------------------------------------------------------------- safecrlf

  /** A non-binary text has no carriage return but before a line feed. */
  lemma {:induction false} NoBareCr(s: seq<byte>)
    requires Count(s).cr == Count(s).crlf
    ensures !HasCrCrLf(s)
  {
    CountCrlfToLf(s);
    if s != [] {
      CrSplit(s);
      NoBareCr(s[1..]);
      HasCrCrLfTail(s);
    }
  }

  lemma {:induction false} CrSplit(s: seq<byte>)
    ensures Count(s).crlf <= Count(s).cr
    ensures s != [] && Count(s).cr == Count(s).crlf ==>
              Count(s[1..]).cr == Count(s[1..]).crlf && !(|s| > 1 && s[0] == CR && s[1] != LF)
  {
    if s != [] {
      CountStep(s);
      CrSplit(s[1..]);
      hide Count, One;
    }
  }

  /** When checking out what was checked in gives the text back. */
  ghost predicate Restored(ca: Attrs, crInIndex: bool, x: seq<byte>) {
    var st := Count(Body(x));
    if OutputEol(ca) != EolCrlf then true
    else if IsAuto(ca.action) then !(crInIndex && st.lf > 0 && st.cr == 0 && !IsBinary(st))
    else !HasCrCrLf(x)
  }

  /** Clean passed a text that an automatic action would not convert. */
  lemma PassedRestored(ca: Attrs, crInIndex: bool, x: seq<byte>)
    requires x != [] && OutputEol(ca) == EolCrlf && IsAuto(ca.action) && (IsBinary(Count(Body(x))) || crInIndex)
    ensures Result(x, Smudge(ca, x)) == x <==> Restored(ca, crInIndex, x)
  {
    hide HasCrCrLf, IsBinary, Count;
    SizeOfLfToCrlf(Body(x));
    CrSplit(Body(x));
    if x[|x| - 1] == EOF_CHAR {
      assert x == Body(x) + [EOF_CHAR];
      LfToCrlfSnoc(Body(x), EOF_CHAR);
    }
  }

  /** The text has line endings, all of them CRLF. */
  lemma ConvertedRestored(ca: Attrs, crInIndex: bool, x: seq<byte>)
    requires x != [] && OutputEol(ca) == EolCrlf && Count(Body(x)).crlf == Count(Body(x)).lf > 0
    requires IsAuto(ca.action) ==> !IsBinary(Count(Body(x))) && !crInIndex
    ensures Result(CrlfToLf(x), Smudge(ca, CrlfToLf(x))) == x <==> Restored(ca, crInIndex, x)
  {
    hide HasCrCrLf, Count;
    var b, c := Body(x), CrlfToLf(x);
    CountCrlfToLf(b);
    BodyConverted(x);
    if IsAuto(ca.action) { NoBareCr(b); }
    if HasCrCrLf(x) {
      SizeOfLfToCrlf(CrlfToLf(b));
      assert |c| < |x| && |LfToCrlf(c)| < |x|;
    } else {
      LfToCrlfRestores(b);
    }
  }

  /** What core.safecrlf = true is for: a text that may be checked in is given back by
      checking it out.  With an automatic action that is so for every text, as long as
      the index holds no carriage return; with a text action it is so exactly for the
      texts without a line ending that has two carriage returns. */
  lemma SafeCrlfRoundTrip(ca: Attrs, crInIndex: bool, x: seq<byte>)
    requires ca.safeCrlf == SafeFail && !Clean(ca, crInIndex, x).Refused?
    ensures var c := Result(x, Clean(ca, crInIndex, x));
            Result(c, Smudge(ca, c)) == x <==> Restored(ca, crInIndex, x)
  {
    hide Count, CrlfToLf, LfToCrlf, HasCrCrLf, IsBinary;
    var st := Count(Body(x));
    if x == [] {
      NothingThere();
    } else if OutputEol(ca) == EolCrlf {
      if IsAuto(ca.action) && (IsBinary(st) || crInIndex) {
        PassedRestored(ca, crInIndex, x);
      } else if st.crlf == 0 {
        CountCrlfToLf(Body(x));
        CountCrlfToLf(CrlfToLf(Body(x)));
        BodyCrCrLf(x);
      } else {
        ConvertedRestored(ca, crInIndex, x);
      }
    }
  }

  lemma NothingThere()
    ensures Count([]) == Stats(0, 0, 0, 0, 0, 0) && CrlfToLf([]) == [] && !HasCrCrLf([])
  {
  }

  // ------------------------------------------------------------------------ the code

  /** The text from a to the carriage return at n. */
  lemma {:induction false} CrlfToLfChunk(s: seq<byte>, a: nat, n: nat)
    requires a <= n < |s| && s[n] == CR && forall k :: a <= k < n ==> s[k] != CR
    ensures CrlfToLf(s[a..]) == s[a..n] + (if n + 1 < |s| && s[n + 1] == LF then [] else [CR]) + CrlfToLf(s[n + 1..])
    decreases n - a
  {
    assert s[a..][1..] == s[a + 1..];
    if a < n {
      CrlfToLfChunk(s, a + 1, n);
      assert s[a..n] == [s[a]] + s[a + 1..n];
    }
  }

  lemma {:induction false} CrlfToLfRest(s: seq<byte>)
    requires forall k :: 0 <= k < |s| ==> s[k] != CR
    ensures CrlfToLf(s) == s
  {
    if s != [] {
      CrlfToLfRest(s[1..]);
      assert s == [s[0]] + s[1..];
    }
  }

  /** Appends what is between scan and the CR at n, which is dropped before a LF. */
  method PutUpToCr(tgt: Buf, src: seq<byte>, scan: nat, n: nat)
    requires tgt.Valid() && scan <= n < |src| && tgt.size + (n - scan) < tgt.ptr.Length
    modifies tgt`size, tgt.ptr
    ensures tgt.Valid() && tgt.ptr == old(tgt.ptr) && tgt.size <= old(tgt.size) + (n + 1 - scan)
    ensures tgt.Text() == old(tgt.Text()) + src[scan..n] + if n + 1 < |src| && src[n + 1] == LF then [] else [CR]
  {
    if n > scan {
      tgt.Copy(src, scan, n);
    }
    if n + 1 == |src| || src[n + 1] != LF {
      tgt.Store(CR);
    }
  }

  /** git_buf_text_crlf_to_lf: the room for the source is enough. */
  method GitBufTextCrlfToLf(tgt: Buf, src: seq<byte>)
    requires tgt.Valid()
    modifies tgt, tgt.ptr
    ensures tgt.Valid() && tgt.Text() == CrlfToLf(src)
  {
    hide CrlfToLf, EndsLine;
    var scan: nat := 0;
    var next := FindByte(src, scan, CR);
    if next.None? {
      CrlfToLfRest(src);
      tgt.Set(src);
      return;
    }
    tgt.EnsureSize(|src| + 1);
    tgt.size := 0;
    assert src[0..] == src;
    while next.Some?
      invariant scan <= |src| && tgt.Valid() && (tgt.ptr == old(tgt.ptr) || fresh(tgt.ptr)) && |src| + 1 < tgt.ptr.Length
      invariant tgt.size <= scan && tgt.Text() + CrlfToLf(src[scan..]) == CrlfToLf(src)
      invariant next.None? ==> forall k :: scan <= k < |src| ==> src[k] != CR
      invariant next.Some? ==> scan <= next.value < |src| && src[next.value] == CR && forall k :: scan <= k < next.value ==> src[k] != CR
      decreases |src| - scan
    {
      var n := next.value;
      CrlfToLfChunk(src, scan, n);
      Joined(tgt.Text(), src[scan..n], if n + 1 < |src| && src[n + 1] == LF then [] else [CR], CrlfToLf(src[n + 1..]));
      PutUpToCr(tgt, src, scan, n);
      scan := n + 1;
      next := FindByte(src, scan, CR);
    }
    CrlfToLfRest(src[scan..]);
    if scan < |src| {
      tgt.Copy(src, scan, |src|);
    }
    tgt.Terminate();
  }

  lemma Joined(a: seq<byte>, b: seq<byte>, c: seq<byte>, d: seq<byte>)
    ensures a + (b + c + d) == a + b + c + d
  {
  }

  /** The text from a to the line feed at n. */
  lemma {:induction false} LfToCrlfChunk(s: seq<byte>, a: nat, n: nat)
    requires a <= n < |s| && s[n] == LF && forall k :: a <= k < n ==> s[k] != LF
    ensures LfToCrlf(s[a..]) == s[a..if a < n && s[n - 1] == CR then n - 1 else n] + [CR, LF] + LfToCrlf(s[n + 1..])
    decreases n - a
  {
    assert s[a..][1..] == s[a + 1..];
    if a < n {
      LfToCrlfChunk(s, a + 1, n);
      if !(a + 1 == n && s[a] == CR) {
        var m := if s[n - 1] == CR then n - 1 else n;
        assert s[a..m] == [s[a]] + s[a + 1..m];
      }
    }
  }

  lemma {:induction false} LfToCrlfRest(s: seq<byte>)
    requires forall k :: 0 <= k < |s| ==> s[k] != LF
    ensures LfToCrlf(s) == s
  {
    if s != [] {
      LfToCrlfRest(s[1..]);
      assert s == [s[0]] + s[1..];
    }
  }

  /** Appends the line that starts at scan and ends at n, with a CRLF. */
  method PutLine(tgt: Buf, src: seq<byte>, scan: nat, n: nat)
    requires tgt.Valid() && scan <= n < |src|
    modifies tgt, tgt.ptr
    ensures tgt.Valid() && (tgt.ptr == old(tgt.ptr) || fresh(tgt.ptr)) && tgt.size < tgt.ptr.Length
    ensures tgt.Text() == old(tgt.Text()) + src[scan..if scan < n && src[n - 1] == CR then n - 1 else n] + [CR, LF]
  {
    var copyLen := n - scan;
    if copyLen > 0 && src[n - 1] == CR {
      copyLen := copyLen - 1;
    }
    tgt.EnsureSize(tgt.size + copyLen + 3);
    if copyLen > 0 {
      tgt.Copy(src, scan, scan + copyLen);
    }
    tgt.Store(CR);
    tgt.Store(LF);
  }

  /** git_buf_text_lf_to_crlf */
  method GitBufTextLfToCrlf(tgt: Buf, src: seq<byte>)
    requires tgt.Valid()
    modifies tgt, tgt.ptr
    ensures tgt.Valid() && tgt.Text() == LfToCrlf(src)
  {
    hide LfToCrlf, EndsLine;
    var scan: nat := 0;
    var next := FindByte(src, scan, LF);
    if next.None? {
      LfToCrlfRest(src);
      tgt.Set(src);
      return;
    }
    tgt.EnsureSize(|src| + |src| / 16 + 1);
    tgt.size := 0;
    assert src[0..] == src;
    while next.Some?
      invariant scan <= |src| && tgt.Valid() && (tgt.ptr == old(tgt.ptr) || fresh(tgt.ptr)) && tgt.size < tgt.ptr.Length
      invariant tgt.Text() + LfToCrlf(src[scan..]) == LfToCrlf(src)
      invariant next.None? ==> forall k :: scan <= k < |src| ==> src[k] != LF
      invariant next.Some? ==> scan <= next.value < |src| && src[next.value] == LF && forall k :: scan <= k < next.value ==> src[k] != LF
      decreases |src| - scan
    {
      var n := next.value;
      LfToCrlfChunk(src, scan, n);
      Joined(tgt.Text(), src[scan..if scan < n && src[n - 1] == CR then n - 1 else n], [CR, LF], LfToCrlf(src[n + 1..]));
      PutLine(tgt, src, scan, n);
      scan := n + 1;
      next := FindByte(src, scan, LF);
    }
    tgt.Terminate();
    LfToCrlfRest(src[scan..]);
    tgt.Put(src, scan, |src|);
  }

  lemma CountNext(s: seq<byte>, i: nat, st: Stats)
    requires i < |s| && Plus(st, Count(s[i..])) == Count(s)
    ensures Plus(Plus(st, One(s[i], i + 1 < |s| && s[i + 1] == LF)), Count(s[i + 1..])) == Count(s)
  {
    hide One, Count, Plus;
    CountUnfolds(s[i..]);
    assert s[i..][1..] == s[i + 1..] && s[i..][0] == s[i];
    PlusAssociates(st, One(s[i], i + 1 < |s| && s[i + 1] == LF), Count(s[i + 1..]));
  }

  lemma PlusAssociates(a: Stats, b: Stats, c: Stats)
    ensures Plus(Plus(a, b), c) == Plus(a, Plus(b, c))
  {
  }

  lemma CountUnfolds(s: seq<byte>)
    requires s != []
    ensures Count(s) == Plus(One(s[0], |s| > 1 && s[1] == LF), Count(s[1..]))
  {
    hide One, Plus;
  }

  /** The switch over one character. */
  method CountByte(st: Stats, c: byte, followedByLf: bool) returns (r: Stats)
    ensures r == Plus(st, One(c, followedByLf))
  {
    var nul, cr, lf, crlf, printable, nonprintable := st.nul, st.cr, st.lf, st.crlf, st.printable, st.nonprintable;
    if c > 0x1f && c != 0x7f {
      printable := printable + 1;
    } else {
      match c
      case 0 => nul, nonprintable := nul + 1, nonprintable + 1;
      case 10 => lf := lf + 1;
      case 13 =>
        cr := cr + 1;
        if followedByLf { crlf := crlf + 1; }
      case 9 => printable := printable + 1;
      case 12 => printable := printable + 1;
      case 11 => printable := printable + 1;
      case 8 => printable := printable + 1;
      case 27 => printable := printable + 1;
      case _ => nonprintable := nonprintable + 1;
    }
    r := Stats(nul, cr, lf, crlf, printable, nonprintable);
  }

  /** git_buf_text_gather_stats */
  method GitBufTextGatherStats(buf: seq<byte>) returns (st: Stats, binary: bool)
    ensures st == Count(Body(buf)) && binary == IsBinary(st)
  {
    hide Count, One, Plus;
    ghost var body := Body(buf);
    st := Stats(0, 0, 0, 0, 0, 0);
    var scan: nat, end: nat := 0, |buf|;
    if |buf| > 0 && buf[end - 1] == EOF_CHAR { end := end - 1; }
    assert body[0..] == body && body == buf[..end];
    CountNothing(Count(body));
    while scan < end
      invariant scan <= end == |body| && body == buf[..end] && Plus(st, Count(body[scan..])) == Count(body)
    {
      CountNext(body, scan, st);
      st := CountByte(st, buf[scan], scan + 1 < end && buf[scan + 1] == LF);
      scan := scan + 1;
    }
    assert body[scan..] == [];
    CountNothing(st);
    binary := st.cr != st.crlf || st.nul > 0 || st.printable / 128 < st.nonprintable;
  }

  lemma CountNothing(a: Stats)
    ensures Plus(Stats(0, 0, 0, 0, 0, 0), a) == a && Plus(a, Count([])) == a
  {
  }

  /** crlf_apply_to_odb; the answer of has_cr_in_index is a parameter. */
  method CrlfApplyToOdb(ca: Attrs, to: Buf, from: seq<byte>, crInIndex: bool) returns (code: Outcome)
    requires to.Valid()
    modifies to, to.ptr
    ensures code == Clean(ca, crInIndex, from) && to.Valid() && (code.Converted? ==> to.Text() == code.text)
  {
    hide Count, CrlfToLf, IsBinary;
    if ca.action == Binary || from == [] { return Passthrough; }
    var st, binary := GitBufTextGatherStats(from);
    if IsAuto(ca.action) {
      if binary { return Passthrough; }
      if crInIndex { return Passthrough; }
    }
    if !Safe(ca, st) { return Refused; }
    if st.crlf == 0 { return Passthrough; }
    GitBufTextCrlfToLf(to, from);
    code := Converted(CrlfToLf(from));
  }

  /** crlf_apply_to_workdir */
  method CrlfApplyToWorkdir(ca: Attrs, to: Buf, from: seq<byte>) returns (code: Outcome)
    requires to.Valid()
    modifies to, to.ptr
    ensures code == Smudge(ca, from) && to.Valid() && (code.Converted? ==> to.Text() == code.text)
  {
    hide Count, LfToCrlf, IsBinary;
    if from == [] || OutputEol(ca) != EolCrlf { return Passthrough; }
    var st, binary := GitBufTextGatherStats(from);
    if st.lf == 0 || st.lf == st.crlf { return Passthrough; }
    if IsAuto(ca.action) {
      if st.cr > 0 { return Passthrough; }
      if binary { return Passthrough; }
    }
    GitBufTextLfToCrlf(to, from);
    code := Converted(LfToCrlf(from));
  }
}
