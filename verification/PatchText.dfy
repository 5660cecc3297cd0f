/** What a patch does to texts: hunks that render the difference of two texts, with the
    markers of lines that have no line feed, turn the one text into the other. */
module PatchText {
  import opened Common
  import opened Buffer
  import opened TextLines
  import opened PatchApply

  // ------------------------------------------------------------------ one hunk, exactly

  /** A marker that says "no newline at end of file" follows line k. */
  ghost predicate Marked(ls: seq<DiffLine>, k: nat) {
    k + 1 < |ls| && (ls[k + 1].origin == ContextEofnl || ls[k + 1].origin == AddEofnl || ls[k + 1].origin == DelEofnl)
  }

  /** The text of line k, without its final line feed if a marker follows. */
  ghost function TextAt(ls: seq<DiffLine>, k: nat): Line
    requires k < |ls|
  {
    var c := ls[k].content;
    if Marked(ls, k) && c != [] && c[|c| - 1] == 10 then c[..|c| - 1] else c
  }

  /** `side` lists the texts of the context lines and of the lines of one other kind, in
      their order; `at` says where they are. */
  ghost predicate Lists(ls: seq<DiffLine>, kind: Origin, side: seq<Line>, at: seq<nat>) {
    && |at| == |side|
    && (forall i, j :: 0 <= i < j < |at| ==> at[i] < at[j])
    && (forall k: nat :: k in at <==> k < |ls| && (ls[k].origin == Context || ls[k].origin == kind))
    && (forall j :: 0 <= j < |at| ==> at[j] < |ls| && side[j] == TextAt(ls, at[j]))
  }

  lemma SettledText(ls: seq<DiffLine>)
    ensures forall k: nat :: k < |ls| ==> Settled(ls)[k].origin == ls[k].origin && Settled(ls)[k].content == TextAt(ls, k)
  {
  }

  lemma {:induction false} ImageLists(ls: seq<DiffLine>, r: seq<DiffLine>, kind: Origin, n: nat) returns (at: seq<nat>)
    requires n <= |ls| == |r| && forall k: nat :: k < |ls| ==> r[k].origin == ls[k].origin && r[k].content == TextAt(ls, k)
    ensures |at| == |Image(r[..n], kind)|
    ensures forall i, j :: 0 <= i < j < |at| ==> at[i] < at[j]
    ensures forall k: nat :: k in at <==> k < n && (ls[k].origin == Context || ls[k].origin == kind)
    ensures forall j :: 0 <= j < |at| ==> at[j] < n && Image(r[..n], kind)[j] == TextAt(ls, at[j])
  {
    hide TextAt;
    if n == 0 {
      at := [];
    } else {
      at := ImageLists(ls, r, kind, n - 1);
      assert r[..n][..n - 1] == r[..n - 1];
      if ls[n - 1].origin == Context || ls[n - 1].origin == kind { at := at + [n - 1]; }
    }
  }

  /** What a hunk expects are the texts of its context lines and deletions, what it puts there
      those of its context lines and additions, each in their order. */
  lemma HunkSides(lines: seq<DiffLine>, h: Hunk) returns (old_: seq<nat>, new_: seq<nat>)
    requires h.lineCount == 0 || h.lineStart + h.lineCount <= |lines|
    ensures EditOf(lines, h).Some?
    ensures var ls := if h.lineCount == 0 then [] else lines[h.lineStart..h.lineStart + h.lineCount];
            Lists(ls, Deletion, EditOf(lines, h).value.pre, old_) && Lists(ls, Addition, EditOf(lines, h).value.post, new_)
  {
    hide Image, Settled, TextAt;
    var ls := HunkLines(lines, h);
    var r := Settled(ls);
    SettledText(ls);
    old_ := ImageLists(ls, r, Deletion, |ls|);
    new_ := ImageLists(ls, r, Addition, |ls|);
    assert r[..|ls|] == r;
  }

  // ----------------------------------------------------------------- rendered differences

  /** A line that is in both texts, only in the old one or only in the new one. */
  datatype Item = Same(l: Line) | Gone(l: Line) | New(l: Line)

  function OldSide(items: seq<Item>): seq<Line> {
    if items == [] then [] else (if items[0].New? then [] else [items[0].l]) + OldSide(items[1..])
  }

  function NewSide(items: seq<Item>): seq<Line> {
    if items == [] then [] else (if items[0].Gone? then [] else [items[0].l]) + NewSide(items[1..])
  }

  /** How the lines of a patch come about: parsed from a text, where every line has a line
      feed and a marker has the kind of the line before, or generated from a difference,
      where the last line has none and the kinds are exchanged. */
  datatype Style = Parsed(note: Line) | Generated(note: Line)

  function Kind(item: Item): Origin { match item case Same(_) => Context case Gone(_) => Deletion case New(_) => Addition }

  function MarkerOf(item: Item, style: Style): Origin {
    match item
    case Same(_) => ContextEofnl
    case Gone(_) => if style.Parsed? then DelEofnl else AddEofnl
    case New(_) => if style.Parsed? then AddEofnl else DelEofnl
  }

  function RenderedItem(item: Item, style: Style): seq<DiffLine> {
    if item.l != [] && item.l[|item.l| - 1] == 10 then [DiffLine(Kind(item), item.l)]
    else [DiffLine(Kind(item), if style.Parsed? then item.l + [10] else item.l), DiffLine(MarkerOf(item, style), style.note)]
  }

  function Rendered(items: seq<Item>, style: Style): seq<DiffLine> {
    if items == [] then [] else RenderedItem(items[0], style) + Rendered(items[1..], style)
  }

  lemma {:induction false} ImageConcat(a: seq<DiffLine>, b: seq<DiffLine>, side: Origin)
    ensures Image(a + b, side) == Image(a, side) + Image(b, side)
  {
    if b == [] {
      assert a + b == a;
    } else {
      var n := |b| - 1;
      assert (a + b)[..|a| + n] == a + b[..n];
      ImageConcat(a, b[..n], side);
    }
  }

  /** A marker only touches the line before it. */
  lemma SettledConcat(a: seq<DiffLine>, b: seq<DiffLine>)
    requires b == [] || !IsEofnl(b[0].origin)
    ensures Settled(a + b) == Settled(a) + Settled(b)
  {
    hide IsEofnl, Chopped;
    var s := a + b;
    forall i | 0 <= i < |s| ensures SettledLine(s, i) == if i < |a| then SettledLine(a, i) else SettledLine(b, i - |a|) {
      assert i + 1 < |s| ==> s[i + 1] == if i + 1 < |a| then a[i + 1] else b[i + 1 - |a|];
    }
  }

  lemma ItemSettled(item: Item, style: Style)
    ensures var r := Settled(RenderedItem(item, style));
            && Image(r, Deletion) == (if item.New? then [] else [item.l])
            && Image(r, Addition) == (if item.Gone? then [] else [item.l])
    ensures RenderedItem(item, style) != [] && !IsEofnl(RenderedItem(item, style)[0].origin)
  {
    hide Settled, Image, IsEofnl, Chopped;
    var ls, d := RenderedItem(item, style), DiffLine(Kind(item), item.l);
    ImageOne(d, Deletion);
    ImageOne(d, Addition);
    MarkersOnly(item, style);
    if |ls| == 2 {
      ChoppedItem(item.l);
      SettledPair(ls[0], ls[1], Deletion);
      SettledPair(ls[0], ls[1], Addition);
      assert ls == [ls[0], ls[1]];
    } else {
      SettledOne(d);
    }
  }

  lemma MarkersOnly(item: Item, style: Style)
    ensures IsEofnl(MarkerOf(item, style)) && !IsEofnl(Kind(item))
  {
  }

  lemma ChoppedItem(l: Line)
    requires l == [] || l[|l| - 1] != 10
    ensures Chopped(l) == l && Chopped(l + [10]) == l
  {
    assert (l + [10])[..|l|] == l;
  }

  lemma SettledOne(d: DiffLine)
    ensures Settled([d]) == [d]
  {
  }

  lemma SettledPair(d: DiffLine, m: DiffLine, side: Origin)
    requires IsEofnl(m.origin) && (side == Deletion || side == Addition)
    ensures Image(Settled([d, m]), side) == Image([DiffLine(d.origin, Chopped(d.content))], side)
  {
    hide Chopped;
    var r, c := Settled([d, m]), DiffLine(d.origin, Chopped(d.content));
    assert r == [c, m];
    assert r[..1] == [c];
  }

  lemma ImageOne(d: DiffLine, side: Origin)
    ensures Image([d], side) == if d.origin == Context || d.origin == side then [d.content] else []
  {
    assert [d][..0] == [];
  }

  lemma RenderedStarts(items: seq<Item>, style: Style)
    ensures Rendered(items, style) == [] || !IsEofnl(Rendered(items, style)[0].origin)
  {
    if items != [] { ItemSettled(items[0], style); }
  }

  /** A rendered hunk expects the old lines and puts the new ones there, as they are in the
      texts, with or without a line feed. */
  lemma {:induction false} RenderedSides(items: seq<Item>, style: Style)
    ensures var r := Settled(Rendered(items, style)); Image(r, Deletion) == OldSide(items) && Image(r, Addition) == NewSide(items)
  {
    hide Settled, Image, RenderedItem, IsEofnl;
    if items == [] {
      SettledNothing();
      ImageNone();
    } else {
      var a, b := RenderedItem(items[0], style), Rendered(items[1..], style);
      RenderedSides(items[1..], style);
      RenderedStarts(items[1..], style);
      ItemSettled(items[0], style);
      SettledConcat(a, b);
      ImageConcat(Settled(a), Settled(b), Deletion);
      ImageConcat(Settled(a), Settled(b), Addition);
    }
  }

  lemma ImageNone()
    ensures Image([], Deletion) == Image([], Addition) == []
  {
  }

  // -------------------------------------------------------------------- whole differences

  /** Unchanged lines, and the lines of a hunk behind them. */
  datatype Block = Block(gap: seq<Line>, items: seq<Item>)

  /** The difference of two texts; `tail` is unchanged. */
  datatype Difference = Difference(blocks: seq<Block>, tail: seq<Line>, style: Style)

  function OldLines(bs: seq<Block>, n: nat): seq<Line>
    requires n <= |bs|
  {
    if n == 0 then [] else OldLines(bs, n - 1) + bs[n - 1].gap + OldSide(bs[n - 1].items)
  }

  function NewLines(bs: seq<Block>, n: nat): seq<Line>
    requires n <= |bs|
  {
    if n == 0 then [] else NewLines(bs, n - 1) + bs[n - 1].gap + NewSide(bs[n - 1].items)
  }

  /** The lines where the hunks are made that are not skipped. */
  function Merged(bs: seq<Block>, verdicts: seq<int>, n: nat): seq<Line>
    requires n <= |bs| == |verdicts|
  {
    if n == 0 then []
    else Merged(bs, verdicts, n - 1) + bs[n - 1].gap
         + if verdicts[n - 1] == 0 then NewSide(bs[n - 1].items) else OldSide(bs[n - 1].items)
  }

  /** The header of a hunk: how many lines it has on each side, and where the first one is in
      the new text, or the line before if there is none. */
  ghost predicate Headed(h: Hunk, bs: seq<Block>, i: nat)
    requires i < |bs|
  {
    && h.oldLines == |OldSide(bs[i].items)| && h.newLines == |NewSide(bs[i].items)|
    && h.newStart == |NewLines(bs, i)| + |bs[i].gap| + if NewSide(bs[i].items) == [] then 0 else 1
  }

  /** Something stands before a hunk that leaves no line, or it is at the top. */
  ghost predicate Spaced(bs: seq<Block>, i: nat)
    requires i < |bs|
  {
    NewSide(bs[i].items) == [] ==> i == 0 || bs[i].gap != []
  }

  /** The patch renders the difference, and the source is its old text. */
  ghost predicate Renders(d: Difference, src: seq<Line>, lines: seq<DiffLine>, hunks: seq<Hunk>) {
    && |hunks| == |d.blocks| && src == OldLines(d.blocks, |d.blocks|) + d.tail
    && forall i :: 0 <= i < |hunks| ==>
         && InRange(lines, hunks[i]) && HunkLines(lines, hunks[i]) == Rendered(d.blocks[i].items, d.style)
         && Headed(hunks[i], d.blocks, i) && Spaced(d.blocks, i)
  }

  /** A hunk that only deletes, below other lines and without context, repeats the line before
      it. */
  ghost predicate Repeats(b: Block) {
    NewSide(b.items) == [] && b.gap != [] ==> forall j :: 0 <= j < |OldSide(b.items)| ==> OldSide(b.items)[j] == b.gap[|b.gap| - 1]
  }

  /** No callback stops the patch, and every hunk that is not skipped is found. */
  ghost predicate Applies(bs: seq<Block>, verdicts: seq<int>)
    requires |bs| == |verdicts|
  {
    forall i :: 0 <= i < |bs| ==> verdicts[i] >= 0 && (verdicts[i] == 0 ==> Repeats(bs[i]))
  }

  /** The changes of a difference. */
  function Changes(bs: seq<Block>): (cs: seq<Change>)
    ensures |cs| == |bs|
  {
    seq(|bs|, i requires 0 <= i < |bs| => Change(|OldLines(bs, i)| + |bs[i].gap|, OldSide(bs[i].items), NewSide(bs[i].items)))
  }

  lemma ChangeIs(bs: seq<Block>, i: nat)
    requires i < |bs|
    ensures Changes(bs)[i] == Change(|OldLines(bs, i)| + |bs[i].gap|, OldSide(bs[i].items), NewSide(bs[i].items))
  {
  }

  lemma {:induction false} ChangesShift(bs: seq<Block>, n: nat)
    requires n <= |bs|
    ensures End(Changes(bs), n) == |OldLines(bs, n)|
    ensures Shift(Changes(bs), n) == |NewLines(bs, n)| - |OldLines(bs, n)|
  {
    hide OldSide, NewSide, Changes;
    if n > 0 {
      ChangesShift(bs, n - 1);
      ChangeIs(bs, n - 1);
    }
  }

  lemma RenderedEdit(lines: seq<DiffLine>, h: Hunk, items: seq<Item>, style: Style)
    requires InRange(lines, h) && HunkLines(lines, h) == Rendered(items, style)
    ensures EditOf(lines, h) == Some(Edit(OldSide(items), NewSide(items)))
  {
    hide Settled, Image, OldSide, NewSide, Rendered;
    RenderedSides(items, style);
  }

  lemma RendersAt(d: Difference, src: seq<Line>, lines: seq<DiffLine>, hunks: seq<Hunk>, i: nat)
    requires Renders(d, src, lines, hunks) && i < |hunks|
    ensures |hunks| == |d.blocks| && Headed(hunks[i], d.blocks, i) && Spaced(d.blocks, i)
    ensures EditOf(lines, hunks[i]) == Some(Edit(OldSide(d.blocks[i].items), NewSide(d.blocks[i].items)))
  {
    hide Headed, Spaced, HunkLines, Rendered, InRange, EditOf, OldSide, NewSide;
    RenderedEdit(lines, hunks[i], d.blocks[i].items, d.style);
  }

  /** Such a patch is an edit script. */
  lemma RendersScript(d: Difference, src: seq<Line>, lines: seq<DiffLine>, hunks: seq<Hunk>)
    requires Renders(d, src, lines, hunks)
    ensures Script(hunks, Edits(lines, hunks), Changes(d.blocks))
  {
    hide Renders, Changes, EditOf, OldSide, NewSide, Shift, End;
    var cs := Changes(d.blocks);
    RendersLength(d, src, lines, hunks);
    forall i | 0 <= i < |cs|
      ensures End(cs, i) <= cs[i].at && Describes(hunks[i], cs, i) && Separate(cs, i)
      ensures Edits(lines, hunks)[i] == Some(Edit(cs[i].pre, cs[i].post))
    {
      RendersAt(d, src, lines, hunks, i);
      ChangeIs(d.blocks, i);
      ChangesShift(d.blocks, i);
      if i == 0 { NoLines(d.blocks); }
    }
  }

  lemma NoLines(bs: seq<Block>)
    ensures OldLines(bs, 0) == []
  {
  }

  lemma RendersLength(d: Difference, src: seq<Line>, lines: seq<DiffLine>, hunks: seq<Hunk>)
    requires Renders(d, src, lines, hunks)
    ensures |hunks| == |d.blocks| && src == OldLines(d.blocks, |d.blocks|) + d.tail
  {
    hide OldLines;
  }

  lemma {:induction false} OldPrefix(bs: seq<Block>, n: nat, m: nat) returns (rest: seq<Line>)
    requires n <= m <= |bs|
    ensures OldLines(bs, m) == OldLines(bs, n) + rest
    decreases m
  {
    hide OldSide;
    rest := [];
    if n < m {
      var r := OldPrefix(bs, n, m - 1);
      rest := r + bs[m - 1].gap + OldSide(bs[m - 1].items);
    }
  }

  /** The old text has the lines of every hunk where the hunk is meant. */
  lemma BlockStands(bs: seq<Block>, tail: seq<Line>, i: nat)
    requires i < |bs|
    ensures var (src, e, at, end) := (OldLines(bs, |bs|) + tail, |OldLines(bs, i)|, |OldLines(bs, i)| + |bs[i].gap|, |OldLines(bs, i + 1)|);
            && end == at + |OldSide(bs[i].items)| && end <= |src|
            && src[e..at] == bs[i].gap && src[at..end] == OldSide(bs[i].items)
  {
    hide OldSide;
    var rest := OldPrefix(bs, i + 1, |bs|);
    var a, g, o := OldLines(bs, i), bs[i].gap, OldSide(bs[i].items);
    Stands(a, g, o, rest + tail);
    assert OldLines(bs, |bs|) + tail == a + g + o + (rest + tail);
  }

  lemma Stands(a: seq<Line>, g: seq<Line>, o: seq<Line>, z: seq<Line>)
    ensures var s := a + g + o + z; s[|a|..|a| + |g|] == g && s[|a| + |g|..|a| + |g| + |o|] == o && s[|a| + |g| + |o|..] == z
  {
  }

  lemma ChangesFind(bs: seq<Block>, tail: seq<Line>, verdicts: seq<int>, n: nat)
    requires n <= |bs| == |verdicts|
    ensures AllFind(OldLines(bs, |bs|) + tail, Changes(bs), verdicts, n)
  {
    hide OldSide, NewSide, OldLines, Changes;
    forall i | 0 <= i < n && verdicts[i] == 0 ensures Finds(OldLines(bs, |bs|) + tail, Changes(bs)[i]) {
      BlockStands(bs, tail, i);
      ChangeIs(bs, i);
    }
  }

  lemma {:induction false} MergedIsEdited(bs: seq<Block>, tail: seq<Line>, verdicts: seq<int>, n: nat)
    requires n <= |bs| == |verdicts|
    ensures Edited(OldLines(bs, |bs|) + tail, Changes(bs), verdicts, n) == Merged(bs, verdicts, n)
  {
    hide OldSide, NewSide, OldLines, Changes, End;
    if n > 0 {
      MergedIsEdited(bs, tail, verdicts, n - 1);
      BlockStands(bs, tail, n - 1);
      ChangeIs(bs, n - 1);
      ChangesShift(bs, n - 1);
      ChangesShift(bs, n);
    }
  }

  lemma MergedIsResult(bs: seq<Block>, tail: seq<Line>, verdicts: seq<int>)
    requires |bs| == |verdicts|
    ensures Result(OldLines(bs, |bs|) + tail, Changes(bs), verdicts, |bs|) == Merged(bs, verdicts, |bs|) + tail
  {
    hide OldLines, Changes, End, Edited;
    MergedIsEdited(bs, tail, verdicts, |bs|);
    ChangesShift(bs, |bs|);
    assert (OldLines(bs, |bs|) + tail)[|OldLines(bs, |bs|)|..] == tail;
  }

  /** With every hunk made the text is the new one, with every hunk skipped the old one. */
  lemma {:induction false} MergedEnds(bs: seq<Block>, verdicts: seq<int>, n: nat)
    requires n <= |bs| == |verdicts|
    ensures (forall i :: 0 <= i < n ==> verdicts[i] == 0) ==> Merged(bs, verdicts, n) == NewLines(bs, n)
    ensures (forall i :: 0 <= i < n ==> verdicts[i] != 0) ==> Merged(bs, verdicts, n) == OldLines(bs, n)
  {
    hide OldSide, NewSide;
    if n > 0 { MergedEnds(bs, verdicts, n - 1); }
  }

  lemma {:induction false} AllTheSame(x: Line, pre: seq<Line>, n: nat)
    requires n <= |pre| && forall j :: 0 <= j < n ==> pre[j] == ([x] + pre)[j]
    ensures forall j :: 0 <= j < n ==> pre[j] == x
  {
    if n > 0 { AllTheSame(x, pre, n - 1); }
  }

  /** Lines are also found a line higher exactly if they all repeat the line before. */
  lemma FoundHigher(src: seq<Line>, at: nat, pre: seq<Line>)
    requires 0 < at && MatchesAt(src, pre, at)
    ensures MatchesAt(src, pre, at - 1) <==> forall j :: 0 <= j < |pre| ==> pre[j] == src[at - 1]
  {
    var x, w := src[at - 1], src[at - 1..at - 1 + |pre|];
    assert forall j :: 0 <= j < |pre| ==> w[j] == ([x] + src[at..at + |pre|])[j];
    if MatchesAt(src, pre, at - 1) { AllTheSame(x, pre, |pre|); }
  }

  lemma BlockFound(bs: seq<Block>, tail: seq<Line>, i: nat)
    requires i < |bs| && Spaced(bs, i)
    ensures Finds(OldLines(bs, |bs|) + tail, Looked(Changes(bs))[i]) <==> Repeats(bs[i])
  {
    hide OldSide, NewSide, OldLines, Changes, Looked, Finds, MatchesAt;
    var src, at := OldLines(bs, |bs|) + tail, |OldLines(bs, i)| + |bs[i].gap|;
    BlockStands(bs, tail, i);
    ChangeIs(bs, i);
    LookedIs(Changes(bs), i);
    if i == 0 { NoLines(bs); }
    FindsStanding(src, at, OldSide(bs[i].items), NewSide(bs[i].items));
    if NewSide(bs[i].items) == [] && bs[i].gap != [] { GapEnd(src, |OldLines(bs, i)|, at, bs[i].gap); }
  }

  lemma LookedIs(cs: seq<Change>, i: nat)
    requires i < |cs|
    ensures Looked(cs)[i] == if cs[i].post == [] && cs[i].at > 0 then Change(cs[i].at - 1, cs[i].pre, []) else cs[i]
  {
  }

  lemma FindsStanding(src: seq<Line>, at: nat, pre: seq<Line>, post: seq<Line>)
    requires at + |pre| <= |src| && src[at..at + |pre|] == pre
    ensures Finds(src, Change(at, pre, post))
    ensures at > 0 ==> (Finds(src, Change(at - 1, pre, [])) <==> forall j :: 0 <= j < |pre| ==> pre[j] == src[at - 1])
  {
    if at > 0 { FoundHigher(src, at, pre); }
    hide MatchesAt;
  }

  lemma GapEnd(src: seq<Line>, from: nat, at: nat, gap: seq<Line>)
    requires from <= at <= |src| && src[from..at] == gap && gap != []
    ensures gap[|gap| - 1] == src[at - 1]
  {
  }

  /** The patch of a difference, whatever hunks are skipped: it applies if and only if no
      callback stops it and the hunks that only delete, without context, repeat the lines before
      them; and then it makes the merged text. */
  lemma DifferenceApplies(d: Difference, src: seq<Line>, lines: seq<DiffLine>, hunks: seq<Hunk>, verdicts: seq<int>)
    requires Renders(d, src, lines, hunks) && |verdicts| == |hunks|
    ensures |d.blocks| == |hunks|
    ensures var r := Run(Progress(src, 0, 0), Edits(lines, hunks), hunks, verdicts, |hunks|);
            && (r.Some? <==> Applies(d.blocks, verdicts))
            && (r.Some? ==> r.value.image == Merged(d.blocks, verdicts, |hunks|) + d.tail)
  {
    hide Renders, Script, AllFind, Run, Result, Looked, Changes, OldLines, Merged, NoneStops, Applies;
    var bs, edits := d.blocks, Edits(lines, hunks);
    RendersLength(d, src, lines, hunks);
    RendersScript(d, src, lines, hunks);
    RunFollowsScript(src, hunks, edits, Changes(bs), verdicts);
    ChangesFind(bs, d.tail, verdicts, |bs|);
    MergedIsResult(bs, d.tail, verdicts);
    BlocksFound(d, src, lines, hunks, verdicts);
  }

  lemma BlocksFound(d: Difference, src: seq<Line>, lines: seq<DiffLine>, hunks: seq<Hunk>, verdicts: seq<int>)
    requires Renders(d, src, lines, hunks) && |verdicts| == |hunks|
    ensures |d.blocks| == |hunks|
    ensures NoneStops(verdicts, |hunks|) && AllFind(src, Looked(Changes(d.blocks)), verdicts, |hunks|) <==> Applies(d.blocks, verdicts)
  {
    hide Renders, Finds, Looked, Changes, OldLines, Repeats, EditOf, OldSide, NewSide, Headed, Spaced;
    RendersLength(d, src, lines, hunks);
    forall i | 0 <= i < |hunks| ensures Finds(src, Looked(Changes(d.blocks))[i]) <==> Repeats(d.blocks[i]) {
      RendersAt(d, src, lines, hunks, i);
      BlockFound(d.blocks, d.tail, i);
    }
  }

  /** The patch of the difference of two texts turns the first one into the second. */
  lemma FirstToSecond(d: Difference, s: seq<byte>, t: seq<byte>, lines: seq<DiffLine>, hunks: seq<Hunk>, verdicts: seq<int>)
    requires Renders(d, Lines(s), lines, hunks) && Lines(t) == NewLines(d.blocks, |d.blocks|) + d.tail
    requires |verdicts| == |hunks| && forall i :: 0 <= i < |hunks| ==> verdicts[i] == 0
    requires forall i :: 0 <= i < |d.blocks| ==> Repeats(d.blocks[i])
    ensures var r := Run(Progress(Lines(s), 0, 0), Edits(lines, hunks), hunks, verdicts, |hunks|);
            r.Some? && Join(r.value.image) == t
  {
    hide Renders, Run, Merged, NewLines, Repeats, Lines, Join;
    DifferenceApplies(d, Lines(s), lines, hunks, verdicts);
    MergedEnds(d.blocks, verdicts, |hunks|);
    JoinLines(t);
  }

  // ------------------------------------------------------------------------ the code

  /** What git_apply__patch adds to the output, and whether it succeeds: a removal that leaves
      something is refused. */
  ghost predicate Adds(applies: bool, image: seq<Line>, before: seq<byte>, after: seq<byte>, removal: bool, ok: bool) {
    after == before + (if applies then Join(image) else []) && ok == (applies && !(removal && |after| > 0))
  }

  /** git_apply__patch for a text patch.  A patch that is an edit script makes its changes at
      the places where they are looked for, which has the meant outcome if they stand in the
      meant places.  One that renders a difference makes the merged text. */
  method GitApplyPatch(out: Buf, source: seq<byte>, lines: array<DiffLine>, hunks: seq<Hunk>, verdicts: seq<int>,
                       removal: bool, path: string, mode: nat)
    returns (ok: bool, filename: Option<string>, newMode: nat)
    requires out.Valid() && Apart(hunks) && |verdicts| == |hunks|
    modifies out, out.ptr, lines
    ensures out.Valid()
    ensures var r := Run(Progress(Lines(source), 0, 0), Edits(old(lines[..]), hunks), hunks, verdicts, |hunks|);
            Adds(r.Some?, if r.Some? then r.value.image else [], old(out.Text()), out.Text(), removal, ok)
    ensures forall d: Difference :: Renders(d, Lines(source), old(lines[..]), hunks) ==>
              && |d.blocks| == |hunks|
              && Adds(Applies(d.blocks, verdicts), Merged(d.blocks, verdicts, |hunks|) + d.tail, old(out.Text()), out.Text(), removal, ok)
    ensures forall cs: seq<Change> :: Script(hunks, Edits(old(lines[..]), hunks), cs) ==>
              var (src, n) := (Lines(source), |cs|);
              && n == |hunks|
              && Adds(NoneStops(verdicts, n) && AllFind(src, Looked(cs), verdicts, n), Result(src, Looked(cs), verdicts, n),
                      old(out.Text()), out.Text(), removal, ok)
              && (AllFind(src, Looked(cs), verdicts, n) && AllFind(src, cs, verdicts, n)
                  ==> Result(src, Looked(cs), verdicts, n) == Result(src, cs, verdicts, n))
              && (Grounded(cs) ==> Looked(cs) == cs)
    ensures ok ==> filename == (if removal then None else Some(path)) && newMode == if removal then 0 else if mode != 0 then mode else 0x81a4
    ensures !ok ==> filename == None && newMode == 0
  {
    hide Script, Renders, Applies, Merged, AllFind, NoneStops, Result, Looked, Join, Run, Lines, Apart, Edits, Grounded;
    var name: Option<string>, m := None, 0;
    filename, newMode := None, 0;
    if !removal {
      name, m := Some(path), if mode != 0 then mode else 0x81a4;
    }
    ghost var src, all, before := Lines(source), lines[..], out.Text();
    ghost var r := Run(Progress(src, 0, 0), Edits(all, hunks), hunks, verdicts, |hunks|);
    if |hunks| > 0 {
      ok := ApplyHunks(out, source, lines, hunks, verdicts);
    } else {
      out.Put(source, 0, |source|);
      assert source[0..|source|] == source;
      ok := true;
      JoinLines(source);
      RunNothing(Progress(src, 0, 0), Edits(all, hunks), hunks, verdicts);
    }
    assert out.Text() == before + if ok then Join(r.value.image) else [];
    if !ok {
    } else if removal && out.size > 0 {
      ok := false;
    } else {
      filename, newMode := name, m;
    }
    WhatItAdds(src, all, hunks, verdicts, before, out.Text(), removal, ok);
  }

  lemma WhatItAdds(src: seq<Line>, all: seq<DiffLine>, hunks: seq<Hunk>, verdicts: seq<int>,
                   before: seq<byte>, after: seq<byte>, removal: bool, ok: bool)
    requires |verdicts| == |hunks|
    requires var r := Run(Progress(src, 0, 0), Edits(all, hunks), hunks, verdicts, |hunks|);
             Adds(r.Some?, if r.Some? then r.value.image else [], before, after, removal, ok)
    ensures forall d: Difference :: Renders(d, src, all, hunks) ==>
              |d.blocks| == |hunks| && Adds(Applies(d.blocks, verdicts), Merged(d.blocks, verdicts, |hunks|) + d.tail, before, after, removal, ok)
    ensures forall cs: seq<Change> :: Script(hunks, Edits(all, hunks), cs) ==>
              var n := |cs|;
              && n == |hunks|
              && Adds(NoneStops(verdicts, n) && AllFind(src, Looked(cs), verdicts, n), Result(src, Looked(cs), verdicts, n), before, after, removal, ok)
              && (AllFind(src, Looked(cs), verdicts, n) && AllFind(src, cs, verdicts, n)
                  ==> Result(src, Looked(cs), verdicts, n) == Result(src, cs, verdicts, n))
              && (Grounded(cs) ==> Looked(cs) == cs)
  {
    hide Script, Renders, Applies, Merged, AllFind, NoneStops, Result, Looked, Join, Run, Edits, Grounded;
    forall d: Difference | Renders(d, src, all, hunks)
      ensures |d.blocks| == |hunks|
      ensures Adds(Applies(d.blocks, verdicts), Merged(d.blocks, verdicts, |hunks|) + d.tail, before, after, removal, ok)
    {
      DifferenceApplies(d, src, all, hunks, verdicts);
    }
    forall cs: seq<Change> | Script(hunks, Edits(all, hunks), cs)
      ensures var n := |cs|;
              && n == |hunks|
              && Adds(NoneStops(verdicts, n) && AllFind(src, Looked(cs), verdicts, n), Result(src, Looked(cs), verdicts, n), before, after, removal, ok)
              && (AllFind(src, Looked(cs), verdicts, n) && AllFind(src, cs, verdicts, n)
                  ==> Result(src, Looked(cs), verdicts, n) == Result(src, cs, verdicts, n))
              && (Grounded(cs) ==> Looked(cs) == cs)
    {
      ScriptLengths(hunks, Edits(all, hunks), cs);
      if Grounded(cs) { LookedWhereMeant(cs); }
      RunFollowsScript(src, hunks, Edits(all, hunks), cs, verdicts);
      if AllFind(src, Looked(cs), verdicts, |cs|) && AllFind(src, cs, verdicts, |cs|) {
        ResultAsMeant(src, hunks, Edits(all, hunks), cs, verdicts);
      }
    }
  }

  lemma RunNothing(p: Progress, edits: seq<Option<Edit>>, hunks: seq<Hunk>, verdicts: seq<int>)
    requires |hunks| == |verdicts| == |edits|
    ensures Run(p, edits, hunks, verdicts, 0) == Some(p)
  {
  }
}
