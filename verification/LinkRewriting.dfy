/** The scan of a Markdown text for links to excluded documents, and the exact
    condition under which its recorded edits can be undone. */
module LinkRewriting {
  import opened Prelude
  import opened LinkEdits

  type Span = (nat, nat)

  /** What is left to the regular expressions and the URL library: leading-space
      removal, the target spans that the three link patterns find on a line, the
      document a relative target names from a source, and a permanent URL's text
      after its scheme. */
  datatype Markdown = Markdown(
    lstrip: string -> string,
    targets: string -> seq<Span>,
    destination: (string, string) -> Option<string>,
    permalink: (string, string) -> string)
  {
    /** Every pattern's target group is nonempty and lies on the line. */
    ghost predicate Sound() {
      forall line: string, s: Span :: s in targets(line) ==> s.0 < s.1 <= |line|
    }
  }

  // ---- Lines, keeping their ends ----

  predicate IsLineBreak(c: char) {
    || '\n' <= c <= '\r' || '\U{1c}' <= c <= '\U{1e}'
    || c == '\U{85}' || c == '\U{2028}' || c == '\U{2029}'
  }

  function LineEnd(text: string, i: nat): (end: nat)
    requires i < |text|
    ensures i < end <= |text|
    decreases |text| - i
  {
    if text[i] == '\r' && i + 1 < |text| && text[i + 1] == '\n' then i + 2
    else if IsLineBreak(text[i]) || i + 1 == |text| then i + 1
    else LineEnd(text, i + 1)
  }

  function SplitLines(text: string): (lines: seq<string>)
    ensures Joined(lines) == text
  {
    if text == "" then []
    else
      var end := LineEnd(text, 0);
      assert text == text[..end] + text[end..];
      [text[..end]] + SplitLines(text[end..])
  }

  function Joined(lines: seq<string>): string {
    if lines == [] then "" else lines[0] + Joined(lines[1..])
  }

  // ---- The edits of one line ----

  function InsertByStart(s: Span, sorted: seq<Span>): (r: seq<Span>)
    ensures multiset(r) == multiset(sorted) + multiset{s}
  {
    if sorted == [] || s.0 < sorted[0].0 then [s] + sorted
    else
      assert sorted == [sorted[0]] + sorted[1..];
      [sorted[0]] + InsertByStart(s, sorted[1..])
  }

  ghost predicate StartsOrdered(spans: seq<Span>) {
    forall i, j :: 0 <= i < j < |spans| ==> spans[i].0 <= spans[j].0
  }

  lemma {:induction false} InsertByStartOrdered(s: Span, sorted: seq<Span>)
    requires StartsOrdered(sorted)
    ensures StartsOrdered(InsertByStart(s, sorted))
  {
    if sorted != [] && s.0 >= sorted[0].0 {
      var t := InsertByStart(s, sorted[1..]);
      InsertByStartOrdered(s, sorted[1..]);
      forall x | x in t ensures sorted[0].0 <= x.0 {
        assert x in multiset(t);
      }
    }
  }

  /** A stable sort by the start of the target. */
  function SortByStart(spans: seq<Span>): (r: seq<Span>)
    ensures StartsOrdered(r) && multiset(r) == multiset(spans)
  {
    if spans == [] then []
    else
      var last := |spans| - 1;
      assert spans == spans[..last] + [spans[last]];
      var t := SortByStart(spans[..last]);
      InsertByStartOrdered(spans[last], t);
      InsertByStart(spans[last], t)
  }

  /** The rewriting context: the source document, the excluded ones and the URL parts. */
  datatype Context = Context(md: Markdown, source: string, excluded: set<string>)

  function Replacement(ctx: Context, target: string, destination: string): (r: string)
    ensures r != ""
  {
    var url := "https://" + ctx.md.permalink(destination, target);
    if target != "" && target[0] == '<' then "<" + url + ">" else url
  }

  /** The edit for one target, unless it names no excluded document. */
  function TargetEdit(ctx: Context, line: string, offset: nat, s: Span): (r: Edits)
    requires s.0 < s.1 <= |line|
    ensures |r| <= 1
  {
    var target := line[s.0..s.1];
    match ctx.md.destination(ctx.source, target)
    case None => []
    case Some(destination) =>
      if destination !in ctx.excluded then []
      else [Edit(offset + s.0, offset + s.1, target, Replacement(ctx, target, destination))]
  }

  ghost predicate OnLine(line: string, spans: seq<Span>) {
    forall s :: s in spans ==> s.0 < s.1 <= |line|
  }

  function LineEdits(ctx: Context, line: string, offset: nat, spans: seq<Span>): Edits
    requires OnLine(line, spans)
  {
    if spans == [] then []
    else TargetEdit(ctx, line, offset, spans[0]) + LineEdits(ctx, line, offset, spans[1..])
  }

  // ---- The edits of a text, outside code fences ----

  type Fence = Option<string>

  function Marker(md: Markdown, line: string): string {
    Slice(md.lstrip(line), 0, 3)
  }

  predicate IsFence(marker: string) { marker == "```" || marker == "~~~" }

  function NextFence(fence: Fence, marker: string): Fence {
    match fence
    case None => Some(marker)
    case Some(open) => if open == marker then None else fence
  }

  lemma SortedOnLine(md: Markdown, line: string)
    requires md.Sound()
    ensures OnLine(line, SortByStart(md.targets(line)))
  {
    var spans := md.targets(line);
    TargetsInside(md, line);
    SortedIn(spans);
  }

  lemma TargetsInside(md: Markdown, line: string)
    requires md.Sound()
    ensures forall s :: s in md.targets(line) ==> s.0 < s.1 <= |line|
  {
  }

  lemma SortedIn(spans: seq<Span>)
    ensures forall s :: s in SortByStart(spans) ==> s in spans
  {
    assert forall s :: s in SortByStart(spans) ==> s in multiset(SortByStart(spans));
  }

  function Scan(ctx: Context, lines: seq<string>, offset: nat, fence: Fence): Edits
    requires ctx.md.Sound()
    decreases lines
  {
    if lines == [] then []
    else
      var line, marker := lines[0], Marker(ctx.md, lines[0]);
      if IsFence(marker) then Scan(ctx, lines[1..], offset + |line|, NextFence(fence, marker))
      else if fence.Some? then Scan(ctx, lines[1..], offset + |line|, fence)
      else
        SortedOnLine(ctx.md, line);
        LineEdits(ctx, line, offset, SortByStart(ctx.md.targets(line))) + Scan(ctx, lines[1..], offset + |line|, fence)
  }

  function FoundEdits(ctx: Context, text: string): Edits
    requires ctx.md.Sound()
  {
    Scan(ctx, SplitLines(text), 0, None)
  }

  /** The inner loop: the matches of one line, sorted by target start. */
  method RewriteLine(ctx: Context, line: string, offset: nat) returns (edits: Edits)
    requires ctx.md.Sound()
    requires OnLine(line, SortByStart(ctx.md.targets(line)))
    ensures edits == LineEdits(ctx, line, offset, SortByStart(ctx.md.targets(line)))
  {
    edits := [];
    var matches := SortByStart(ctx.md.targets(line));
    ghost var open := matches;
    for j := 0 to |matches|
      invariant open == matches[j..]
      invariant edits + LineEdits(ctx, line, offset, open) == LineEdits(ctx, line, offset, matches)
    {
      assert open[0] == matches[j];
      Prelude.Regroup(edits, TargetEdit(ctx, line, offset, matches[j]), LineEdits(ctx, line, offset, open[1..]));
      edits := edits + TargetEdit(ctx, line, offset, matches[j]);
      open := open[1..];
    }
  }

  /** What one line adds to the edits found before it. */
  lemma ScanOneMore(ctx: Context, todo: seq<string>, offset: nat, fence: Fence, edits: Edits)
    requires ctx.md.Sound() && todo != [] && OnLine(todo[0], SortByStart(ctx.md.targets(todo[0])))
    ensures var line, marker := todo[0], Marker(ctx.md, todo[0]);
      edits + Scan(ctx, todo, offset, fence) ==
        if IsFence(marker) then edits + Scan(ctx, todo[1..], offset + |line|, NextFence(fence, marker))
        else if fence.Some? then edits + Scan(ctx, todo[1..], offset + |line|, fence)
        else (edits + LineEdits(ctx, line, offset, SortByStart(ctx.md.targets(line)))
          + Scan(ctx, todo[1..], offset + |line|, fence))
  {
    if !IsFence(Marker(ctx.md, todo[0])) && fence == None {
      Prelude.Regroup(edits, LineEdits(ctx, todo[0], offset, SortByStart(ctx.md.targets(todo[0]))),
        Scan(ctx, todo[1..], offset + |todo[0]|, fence));
    }
  }

  lemma ScanNil(ctx: Context, offset: nat, fence: Fence)
    requires ctx.md.Sound()
    ensures Scan(ctx, [], offset, fence) == []
  {
  }

  method RewriteLinks(ctx: Context, text: string) returns (result: string, edits: Edits)
    requires ctx.md.Sound()
    ensures edits == FoundEdits(ctx, text)
    ensures result == ApplyReversed(text, edits)
  {
    hide Scan, SortByStart, LineEdits;
    edits := [];
    var offset: nat, fence: Fence := 0, None;
    var lines := SplitLines(text);
    ghost var todo := lines;
    for i := 0 to |lines|
      invariant todo == lines[i..]
      invariant edits + Scan(ctx, todo, offset, fence) == FoundEdits(ctx, text)
    {
      var line := lines[i];
      var marker := Marker(ctx.md, line);
      assert todo[0] == line;
      SortedOnLine(ctx.md, line);
      ScanOneMore(ctx, todo, offset, fence, edits);
      if IsFence(marker) {
        fence := NextFence(fence, marker);
      } else if fence == None {
        var found := RewriteLine(ctx, line, offset);
        edits := edits + found;
      }
      offset := offset + |line|;
      todo := todo[1..];
    }
    ScanNil(ctx, offset, fence);
    result := ApplyFromTheRight(text, edits);
  }

  // ---- What the scan records ----

  /** Ordered by start, nonempty, quoting the text, never put in as nothing. */
  ghost predicate Recorded(text: string, edits: Edits, lo: nat, hi: nat) {
    && (forall e :: e in edits ==> Quotes(text, e, lo, hi))
    && (forall i, j :: 0 <= i < j < |edits| ==> edits[i].start <= edits[j].start)
  }

  ghost predicate Quotes(text: string, e: Edit, lo: nat, hi: nat) {
    lo <= e.start < e.end <= hi <= |text| && text[e.start..e.end] == e.before && e.after != ""
  }

  lemma {:induction false} LineEditsRecorded(ctx: Context, prefix: string, line: string, suffix: string,
    spans: seq<Span>)
    requires OnLine(line, spans) && StartsOrdered(spans)
    ensures Recorded(prefix + line + suffix, LineEdits(ctx, line, |prefix|, spans), |prefix|, |prefix + line|)
    ensures spans != [] ==> forall e :: e in LineEdits(ctx, line, |prefix|, spans) ==> |prefix| + spans[0].0 <= e.start
  {
    if spans != [] {
      LineEditsRecorded(ctx, prefix, line, suffix, spans[1..]);
      var s, text := spans[0], prefix + line + suffix;
      assert text[|prefix| + s.0..|prefix| + s.1] == line[s.0..s.1];
      var first := TargetEdit(ctx, line, |prefix|, s);
      forall e | e in first ensures Quotes(text, e, |prefix|, |prefix + line|) && e.start == |prefix| + s.0 {
        assert e == first[0];
      }
    }
  }

  lemma RecordedAppend(text: string, a: Edits, b: Edits, lo: nat, mid: nat, hi: nat)
    requires Recorded(text, a, lo, mid) && Recorded(text, b, mid, hi) && lo <= mid <= hi <= |text|
    ensures Recorded(text, a + b, lo, hi)
  {
    forall e | e in a + b ensures Quotes(text, e, lo, hi) {
      if e in a {
        assert Quotes(text, e, lo, mid);
      } else {
        assert Quotes(text, e, mid, hi);
      }
    }
    forall i, j | 0 <= i < j < |a + b| ensures (a + b)[i].start <= (a + b)[j].start {
      if i < |a| <= j {
        assert Quotes(text, a[i], lo, mid) && Quotes(text, b[j - |a|], mid, hi);
      }
    }
  }

  lemma {:induction false} ScanRecorded(ctx: Context, prefix: string, lines: seq<string>, fence: Fence)
    requires ctx.md.Sound()
    ensures Recorded(prefix + Joined(lines), Scan(ctx, lines, |prefix|, fence), |prefix|, |prefix + Joined(lines)|)
    decreases lines
  {
    if lines != [] {
      var line, rest := lines[0], Joined(lines[1..]);
      var marker, longer, text := Marker(ctx.md, line), prefix + line, prefix + Joined(lines);
      assert text == longer + rest;
      var next := if IsFence(marker) then NextFence(fence, marker) else fence;
      ScanRecorded(ctx, longer, lines[1..], next);
      var later := Scan(ctx, lines[1..], |longer|, next);
      assert Recorded(text, [], |prefix|, |longer|);
      assert [] + later == later;
      RecordedAppend(text, [], later, |prefix|, |longer|, |text|);
      if !IsFence(marker) && fence == None {
        var spans := SortByStart(ctx.md.targets(line));
        SortedOnLine(ctx.md, line);
        LineEditsRecorded(ctx, prefix, line, rest, spans);
        RecordedAppend(text, LineEdits(ctx, line, |prefix|, spans), later, |prefix|, |longer|, |text|);
      }
    }
  }

  ghost predicate Disjoint(edits: Edits) {
    forall i, j :: 0 <= i < j < |edits| ==> edits[i].end <= edits[j].start
  }

  lemma {:induction false} DisjointFits(text: string, edits: Edits, from: nat)
    requires Recorded(text, edits, from, |text|) && Disjoint(edits) && from <= |text|
    ensures Fits(text, edits, from)
  {
    if edits != [] {
      assert Quotes(text, edits[0], from, |text|);
      forall e | e in edits[1..] ensures Quotes(text, e, edits[0].end, |text|) {
        assert Quotes(text, e, from, |text|);
      }
      DisjointFits(text, edits[1..], edits[0].end);
    }
  }

  /** A rewritten text is restored exactly when the rewritten targets are disjoint: then
      the rewrite was one simultaneous substitution and restoring returns the source,
      otherwise restoring rejects the rewrite's own record. */
  lemma RewriteIsReversible(ctx: Context, text: string)
    requires ctx.md.Sound()
    ensures var edits := FoundEdits(ctx, text); var result := ApplyReversed(text, edits);
      && (Disjoint(edits) ==> Fits(text, edits, 0) && Restored(result, edits) == Some(text))
      && (!Disjoint(edits) ==> Restored(result, edits) == None)
  {
    var edits := FoundEdits(ctx, text);
    ScanRecorded(ctx, "", SplitLines(text), None);
    assert "" + text == text;
    if Disjoint(edits) {
      DisjointFits(text, edits, 0);
      RestoreUndoesRewrite(text, edits);
    } else {
      var i, j :| 0 <= i < j < |edits| && edits[i].end > edits[j].start;
      OverlapIsRejected(ApplyReversed(text, edits), edits, i, j);
    }
  }

  lemma {:induction false} OneLine(text: string, i: nat)
    requires i < |text| && forall c :: c in text ==> !IsLineBreak(c)
    ensures LineEnd(text, i) == |text|
    decreases |text| - i
  {
    if i + 1 < |text| { OneLine(text, i + 1); }
  }

  lemma ScanOneLine(ctx: Context, text: string)
    requires ctx.md.Sound() && text != "" && (forall c :: c in text ==> !IsLineBreak(c))
    requires !IsFence(Marker(ctx.md, text))
    ensures OnLine(text, SortByStart(ctx.md.targets(text)))
    ensures FoundEdits(ctx, text) == LineEdits(ctx, text, 0, SortByStart(ctx.md.targets(text)))
  {
    OneLine(text, 0);
    SortedOnLine(ctx.md, text);
    assert text[..|text|] == text && text[|text|..] == "";
    var lines := SplitLines(text);
    assert lines == [text] + SplitLines("") && SplitLines("") == [];
    assert |lines[1..]| == 0;
    assert Scan(ctx, lines[1..], |text|, None) == [];
  }

  const NESTED := "[r]: [y](b/../AGENTS.md#x)"

  lemma NestedIsOneLine()
    ensures |NESTED| == 26 && forall c :: c in NESTED ==> !IsLineBreak(c)
  {
    forall c | c in NESTED ensures ' ' <= c <= 'z' {}
  }

  lemma SortTwo(a: Span, b: Span)
    requires b.0 < a.0
    ensures SortByStart([a, b]) == [b, a]
  {
    assert [a, b][..1] == [a] && |[a][..0]| == 0;
    assert SortByStart([a]) == [a];
  }

  lemma TwoNestedEdits(ctx: Context, text: string, outer: Span, inner: Span)
    requires OnLine(text, [outer, inner]) && inner.0 < outer.1 && outer.1 <= |text| && outer.0 < outer.1
    requires inner.0 < inner.1 <= |text|
    requires forall s :: s in [outer, inner] ==>
      var d := ctx.md.destination(ctx.source, text[s.0..s.1]); d.Some? && d.value in ctx.excluded
    ensures !Disjoint(LineEdits(ctx, text, 0, [outer, inner]))
  {
    var spans := [outer, inner];
    assert spans[1..] == [inner] && [inner][1..] == [];
    assert outer in spans && inner in spans;
    var edits := LineEdits(ctx, text, 0, spans);
    assert LineEdits(ctx, text, 0, [inner]) == TargetEdit(ctx, text, 0, inner) + [];
    assert edits == TargetEdit(ctx, text, 0, outer) + TargetEdit(ctx, text, 0, inner);
    assert edits[0].end == outer.1 && edits[1].start == inner.0;
  }

  lemma NestedTargets(ctx: Context, text: string, outer: Span, inner: Span)
    requires ctx.md.Sound() && text != "" && (forall c :: c in text ==> !IsLineBreak(c))
    requires !IsFence(Marker(ctx.md, text)) && ctx.md.targets(text) == [inner, outer]
    requires outer.0 < inner.0 < inner.1 <= |text| && inner.0 < outer.1 <= |text|
    requires forall s :: s in [outer, inner] ==>
      var d := ctx.md.destination(ctx.source, text[s.0..s.1]); d.Some? && d.value in ctx.excluded
    ensures Restored(ApplyReversed(text, FoundEdits(ctx, text)), FoundEdits(ctx, text)) == None
  {
    SortTwo(inner, outer);
    ScanOneLine(ctx, text);
    TwoNestedEdits(ctx, text, outer, inner);
    RewriteIsReversible(ctx, text);
  }

  /** What the patterns and the path normalisation give for the line `NESTED` in a document at
      the repository's root: the reference definition's target, `[y](b/../AGENTS.md#x)`, and the
      inline link's in it, `b/../AGENTS.md#x`, both name `AGENTS.md`. */
  ghost predicate ReadsNested(ctx: Context)
    requires |NESTED| == 26
  {
    && Marker(ctx.md, NESTED) == "[r]" && ctx.md.targets(NESTED) == [(9, 25), (5, 26)]
    && ctx.md.destination(ctx.source, NESTED[9..25]) == Some("AGENTS.md")
    && ctx.md.destination(ctx.source, NESTED[5..26]) == Some("AGENTS.md")
  }

  /** An inline link nested in a reference definition, where both targets normalise to the
      same excluded document, is a rewrite that cannot be restored. */
  lemma NestedTargetsAreNotReversible(ctx: Context)
    requires ctx.md.Sound() && "AGENTS.md" in ctx.excluded
    requires |NESTED| == 26 && ReadsNested(ctx)
    ensures !Disjoint(FoundEdits(ctx, NESTED))
    ensures Restored(ApplyReversed(NESTED, FoundEdits(ctx, NESTED)), FoundEdits(ctx, NESTED)) == None
  {
    NestedIsOneLine();
    NestedTargets(ctx, NESTED, (5, 26), (9, 25));
    RewriteIsReversible(ctx, NESTED);
  }
}
