/** Which lines of a Markdown text are outside code fences, and that exactly their links to
    excluded documents are rewritten. */
module CodeFences {
  import opened Prelude
  import opened LinkEdits
  import opened LinkRewriting
  import opened LinkTargets

  // ---- What a fence is ----

  /** Behind its leading space the line begins with three backquotes or three tildes. */
  ghost predicate Marks(md: Markdown, line: string, mark: string) {
    (mark == "```" || mark == "~~~") && mark <= md.lstrip(line)
  }

  ghost predicate IsProse(md: Markdown, line: string) {
    forall mark :: !Marks(md, line, mark)
  }

  /** The first line opens a fence, and the next one with the same mark closes it. */
  ghost predicate Encloses(md: Markdown, lines: seq<string>, close: nat, mark: string) {
    && 0 < close < |lines| && Marks(md, lines[0], mark) && Marks(md, lines[close], mark)
    && forall k :: 0 < k < close ==> !Marks(md, lines[k], mark)
  }

  /** Every fence is closed: prose and fenced blocks in any number. */
  ghost predicate Closed(md: Markdown, lines: seq<string>)
    decreases |lines|
  {
    || lines == []
    || (IsProse(md, lines[0]) && Closed(md, lines[1..]))
    || exists close: nat, mark: string :: Encloses(md, lines, close, mark) && Closed(md, lines[close + 1..])
  }

  lemma MarkerExactly(md: Markdown, line: string, mark: string)
    ensures Marks(md, line, mark) <==> IsFence(Marker(md, line)) && Marker(md, line) == mark
    ensures IsFence(Marker(md, line)) <==> !IsProse(md, line)
  {
    var s := md.lstrip(line);
    assert Marker(md, line) == s[..Min(3, |s|)];
    assert forall m :: Marks(md, line, m) <==> IsFence(Marker(md, line)) && Marker(md, line) == m by {
      forall m ensures Marks(md, line, m) <==> IsFence(Marker(md, line)) && Marker(md, line) == m {
        if Marks(md, line, m) { assert s[..3] == m; }
      }
    }
    if IsFence(Marker(md, line)) { assert Marks(md, line, Marker(md, line)); }
  }

  // ---- The state of the scan ----

  ghost function After(ctx: Context, lines: seq<string>, fence: Fence): Fence {
    if lines == [] then fence else After(ctx, lines[1..], FenceAfter(ctx, lines[0], fence))
  }

  lemma {:induction false} AfterSnoc(ctx: Context, lines: seq<string>, last: string, fence: Fence)
    ensures After(ctx, lines + [last], fence) == FenceAfter(ctx, last, After(ctx, lines, fence))
  {
    if lines == [] {
      assert [last][1..] == [];
    } else {
      assert (lines + [last])[1..] == lines[1..] + [last];
      AfterSnoc(ctx, lines[1..], last, FenceAfter(ctx, lines[0], fence));
    }
  }

  /** The first line with the mark, or the number of lines. */
  ghost function FirstMarked(md: Markdown, lines: seq<string>, mark: string): (j: nat)
    ensures j <= |lines| && forall k :: 0 <= k < j ==> !Marks(md, lines[k], mark)
    ensures j < |lines| ==> Marks(md, lines[j], mark)
  {
    if lines == [] || Marks(md, lines[0], mark) then 0 else 1 + FirstMarked(md, lines[1..], mark)
  }

  /** An open fence stays open up to the next line with its mark. */
  lemma {:induction false} OpenUntilMarked(ctx: Context, lines: seq<string>, mark: string)
    requires mark == "```" || mark == "~~~"
    ensures var j := FirstMarked(ctx.md, lines, mark);
      After(ctx, lines, Some(mark)) == if j < |lines| then After(ctx, lines[j + 1..], None) else Some(mark)
  {
    if lines != [] {
      MarkerExactly(ctx.md, lines[0], mark);
      hide Marks, IsProse, Marker, IsFence;
      if !Marks(ctx.md, lines[0], mark) {
        OpenUntilMarked(ctx, lines[1..], mark);
        var j := FirstMarked(ctx.md, lines[1..], mark);
        if j < |lines[1..]| { assert lines[1..][j + 1..] == lines[j + 2..]; }
      }
    }
  }

  /** The scan is outside a fence exactly when every fence so far is closed. */
  lemma {:induction false} ClosedExactly(ctx: Context, lines: seq<string>)
    ensures Closed(ctx.md, lines) <==> After(ctx, lines, None) == None
    decreases |lines|
  {
    if lines != [] {
      var line, rest := lines[0], lines[1..];
      var mark := Marker(ctx.md, line);
      MarkerExactly(ctx.md, line, mark);
      if IsFence(mark) {
        var j := FirstMarked(ctx.md, rest, mark);
        OpenUntilMarked(ctx, rest, mark);
        if j < |rest| {
          assert rest[j + 1..] == lines[j + 2..];
          ClosedExactly(ctx, lines[j + 2..]);
          assert Encloses(ctx.md, lines, j + 1, mark);
        }
        assert forall k :: 0 <= k < |rest| ==> lines[k + 1] == rest[k];
        forall close: nat, m: string | Encloses(ctx.md, lines, close, m) ensures m == mark && close == j + 1 {
          MarkerExactly(ctx.md, line, m);
          assert lines[close] == rest[close - 1];
        }
      } else {
        ClosedExactly(ctx, rest);
      }
    }
  }

  // ---- Exactly which edits are recorded ----

  /** The target names an excluded document, and the edit replaces it by the permanent URL, in
      angle brackets if the target is. */
  ghost predicate Replaces(ctx: Context, line: string, offset: nat, s: Span, e: Edit) {
    && s.0 < s.1 <= |line| && e.start == offset + s.0 && e.end == offset + s.1 && e.before == line[s.0..s.1]
    && var document := ctx.md.destination(ctx.source, e.before);
      && document.Some? && document.value in ctx.excluded
      && var url := "https://" + ctx.md.permalink(document.value, e.before);
        if e.before[0] == '<' then e.after == "<" + url + ">" else e.after == url
  }

  lemma TargetEditExactly(ctx: Context, line: string, offset: nat, s: Span, e: Edit)
    requires s.0 < s.1 <= |line|
    ensures e in TargetEdit(ctx, line, offset, s) <==> Replaces(ctx, line, offset, s, e)
  {
  }

  lemma {:induction false} LineEditsExactly(ctx: Context, line: string, offset: nat, spans: seq<Span>, e: Edit)
    requires OnLine(line, spans)
    ensures e in LineEdits(ctx, line, offset, spans) <==> exists s :: s in spans && Replaces(ctx, line, offset, s, e)
  {
    hide Replaces, TargetEdit;
    if spans != [] {
      var s, rest := spans[0], spans[1..];
      assert spans == [s] + rest && s in spans;
      TargetEditExactly(ctx, line, offset, s, e);
      LineEditsExactly(ctx, line, offset, rest, e);
    }
  }

  lemma SortedHas(spans: seq<Span>, s: Span)
    ensures s in SortByStart(spans) <==> s in spans
  {
    assert s in SortByStart(spans) <==> s in multiset(SortByStart(spans));
    assert s in spans <==> s in multiset(spans);
  }

  /** The edit replaces a target of the line. */
  ghost predicate EditsLine(ctx: Context, line: string, offset: nat, e: Edit) {
    exists s :: s in ctx.md.targets(line) && Replaces(ctx, line, offset, s, e)
  }

  lemma FirstEditsExactly(ctx: Context, line: string, offset: nat, fence: Fence, e: Edit)
    requires ctx.md.Sound() && OnLine(line, SortByStart(ctx.md.targets(line)))
    ensures e in FirstEdits(ctx, line, offset, fence) <==>
      fence == None && IsProse(ctx.md, line) && EditsLine(ctx, line, offset, e)
  {
    hide Replaces, SortByStart, LineEdits, IsProse;
    MarkerExactly(ctx.md, line, "");
    var spans := ctx.md.targets(line);
    LineEditsExactly(ctx, line, offset, SortByStart(spans), e);
    forall s ensures s in SortByStart(spans) <==> s in spans { SortedHas(spans, s); }
  }

  /** The edit replaces a target of a prose line at which the scan is outside any fence. */
  ghost predicate EditsProse(ctx: Context, lines: seq<string>, offset: nat, fence: Fence, i: nat, e: Edit) {
    && i < |lines| && IsProse(ctx.md, lines[i]) && After(ctx, lines[..i], fence) == None
    && EditsLine(ctx, lines[i], offset + |Joined(lines[..i])|, e)
  }

  lemma EditsProseHere(ctx: Context, line: string, rest: seq<string>, offset: nat, fence: Fence, e: Edit)
    ensures EditsProse(ctx, [line] + rest, offset, fence, 0, e) <==>
      fence == None && IsProse(ctx.md, line) && EditsLine(ctx, line, offset, e)
  {
    var lines := [line] + rest;
    assert lines[..0] == [] && Joined(lines[..0]) == "" && lines[0] == line;
  }

  lemma EditsProseLater(ctx: Context, line: string, rest: seq<string>, offset: nat, fence: Fence, i: nat, e: Edit)
    requires i > 0
    ensures EditsProse(ctx, [line] + rest, offset, fence, i, e) <==>
      EditsProse(ctx, rest, offset + |line|, FenceAfter(ctx, line, fence), i - 1, e)
  {
    hide IsProse, EditsLine, FenceAfter;
    var lines := [line] + rest;
    if i < |lines| {
      assert lines[..i] == [line] + rest[..i - 1];
      assert lines[..i][1..] == rest[..i - 1] && lines[i] == rest[i - 1];
      JoinedCons(line, rest[..i - 1]);
    }
  }

  lemma EditsProseCons(ctx: Context, line: string, rest: seq<string>, offset: nat, fence: Fence, later: nat,
    next: Fence, e: Edit)
    requires later == offset + |line| && next == FenceAfter(ctx, line, fence)
    ensures (exists i: nat :: EditsProse(ctx, [line] + rest, offset, fence, i, e)) <==>
      || (fence == None && IsProse(ctx.md, line) && EditsLine(ctx, line, offset, e))
      || exists i: nat :: EditsProse(ctx, rest, later, next, i, e)
  {
    hide *;
    var lines := [line] + rest;
    EditsProseHere(ctx, line, rest, offset, fence, e);
    if exists i: nat :: EditsProse(ctx, lines, offset, fence, i, e) {
      var i: nat :| EditsProse(ctx, lines, offset, fence, i, e);
      if i > 0 { EditsProseLater(ctx, line, rest, offset, fence, i, e); }
    }
    if exists i: nat :: EditsProse(ctx, rest, later, next, i, e) {
      var i: nat :| EditsProse(ctx, rest, later, next, i, e);
      EditsProseLater(ctx, line, rest, offset, fence, i + 1, e);
    }
  }

  lemma {:induction false} ScanExactly(ctx: Context, lines: seq<string>, offset: nat, fence: Fence, e: Edit)
    requires ctx.md.Sound()
    ensures e in Scan(ctx, lines, offset, fence) <==> exists i: nat :: EditsProse(ctx, lines, offset, fence, i, e)
    decreases |lines|
  {
    hide *;
    if lines != [] {
      var line, rest := lines[0], lines[1..];
      assert lines == [line] + rest;
      ScanCons(ctx, line, rest, offset, fence);
      FirstEditsExactly(ctx, line, offset, fence, e);
      ScanExactly(ctx, rest, offset + |line|, FenceAfter(ctx, line, fence), e);
      EditsProseCons(ctx, line, rest, offset, fence, offset + |line|, FenceAfter(ctx, line, fence), e);
    } else {
      ScanNil(ctx, offset, fence);
      NoProse(ctx, offset, fence, e);
    }
  }

  lemma NoProse(ctx: Context, offset: nat, fence: Fence, e: Edit)
    ensures forall i: nat :: !EditsProse(ctx, [], offset, fence, i, e)
  {
  }

  /** The line is prose with every fence before it closed, and the edit replaces one of its
      targets. */
  ghost predicate EditsOutside(ctx: Context, lines: seq<string>, i: nat, e: Edit) {
    && i < |lines| && IsProse(ctx.md, lines[i]) && Closed(ctx.md, lines[..i])
    && EditsLine(ctx, lines[i], |Joined(lines[..i])|, e)
  }

  /** Exactly the targets outside code fences that name excluded documents are recorded. */
  lemma RecordedExactly(ctx: Context, text: string, e: Edit)
    requires ctx.md.Sound()
    ensures e in FoundEdits(ctx, text) <==> exists i: nat :: EditsOutside(ctx, SplitLines(text), i, e)
  {
    hide *;
    var lines := SplitLines(text);
    FoundByScan(ctx, text);
    ScanExactly(ctx, lines, 0, None, e);
    forall i: nat ensures EditsProse(ctx, lines, 0, None, i, e) <==> EditsOutside(ctx, lines, i, e) {
      ProseOutside(ctx, lines, i, e);
    }
  }

  lemma FoundByScan(ctx: Context, text: string)
    requires ctx.md.Sound()
    ensures FoundEdits(ctx, text) == Scan(ctx, SplitLines(text), 0, None)
  {
  }

  lemma ProseOutside(ctx: Context, lines: seq<string>, i: nat, e: Edit)
    ensures EditsProse(ctx, lines, 0, None, i, e) <==> EditsOutside(ctx, lines, i, e)
  {
    hide Closed, After, EditsLine, IsProse, Joined;
    if i < |lines| { ClosedExactly(ctx, lines[..i]); }
  }

  // ---- Blocks between fences ----

  function Shifted(edits: Edits, far: int): Edits {
    seq(|edits|, i requires 0 <= i < |edits| =>
      Edit(edits[i].start + far, edits[i].end + far, edits[i].before, edits[i].after))
  }

  lemma ShiftedAppend(a: Edits, b: Edits, far: int)
    ensures Shifted(a + b, far) == Shifted(a, far) + Shifted(b, far)
  {
  }

  lemma {:induction false} LineEditsShift(ctx: Context, line: string, offset: nat, spans: seq<Span>)
    requires OnLine(line, spans)
    ensures LineEdits(ctx, line, offset, spans) == Shifted(LineEdits(ctx, line, 0, spans), offset)
  {
    if spans != [] {
      var s, rest := spans[0], spans[1..];
      assert s in spans;
      LineEditsShift(ctx, line, offset, rest);
      assert TargetEdit(ctx, line, offset, s) == Shifted(TargetEdit(ctx, line, 0, s), offset);
      ShiftedAppend(TargetEdit(ctx, line, 0, s), LineEdits(ctx, line, 0, rest), offset);
    }
  }

  lemma FirstEditsShift(ctx: Context, line: string, offset: nat, far: nat, fence: Fence)
    requires OnLine(line, SortByStart(ctx.md.targets(line))) && ctx.md.Sound()
    ensures FirstEdits(ctx, line, offset + far, fence) == Shifted(FirstEdits(ctx, line, offset, fence), far)
  {
    hide SortByStart, LineEdits;
    var spans := SortByStart(ctx.md.targets(line));
    LineEditsShift(ctx, line, offset, spans);
    LineEditsShift(ctx, line, offset + far, spans);
  }

  lemma {:induction false} ScanShift(ctx: Context, lines: seq<string>, offset: nat, far: nat, fence: Fence)
    requires ctx.md.Sound()
    ensures Scan(ctx, lines, offset + far, fence) == Shifted(Scan(ctx, lines, offset, fence), far)
    decreases |lines|
  {
    hide *;
    if lines != [] {
      var line, rest, next := lines[0], lines[1..], FenceAfter(ctx, lines[0], fence);
      assert lines == [line] + rest;
      ScanCons(ctx, line, rest, offset, fence);
      ScanCons(ctx, line, rest, offset + far, fence);
      FirstEditsShift(ctx, line, offset, far, fence);
      ScanShift(ctx, rest, offset + |line|, far, next);
      assert offset + far + |line| == offset + |line| + far;
      ShiftedAppend(FirstEdits(ctx, line, offset, fence), Scan(ctx, rest, offset + |line|, next), far);
    } else {
      ScanNil(ctx, offset, fence);
      ScanNil(ctx, offset + far, fence);
      ShiftedNone(far);
    }
  }

  lemma ShiftedNone(far: nat)
    ensures Shifted([], far) == []
  {
  }

  lemma AfterCons(ctx: Context, line: string, rest: seq<string>, fence: Fence)
    ensures After(ctx, [line] + rest, fence) == After(ctx, rest, FenceAfter(ctx, line, fence))
    ensures After(ctx, [], fence) == fence && Joined([]) == ""
  {
    assert ([line] + rest)[1..] == rest;
  }

  lemma {:induction false} ScanAppend(ctx: Context, a: seq<string>, b: seq<string>, offset: nat, fence: Fence)
    requires ctx.md.Sound()
    ensures Scan(ctx, a + b, offset, fence)
         == Scan(ctx, a, offset, fence) + Scan(ctx, b, offset + |Joined(a)|, After(ctx, a, fence))
    decreases |a|
  {
    hide *;
    if a != [] {
      var line, rest, next := a[0], a[1..], FenceAfter(ctx, a[0], fence);
      assert a == [line] + rest && a + b == [line] + (rest + b);
      JoinedCons(line, rest);
      AfterCons(ctx, line, rest, fence);
      ScanCons(ctx, line, rest + b, offset, fence);
      ScanCons(ctx, line, rest, offset, fence);
      ScanAppend(ctx, rest, b, offset + |line|, next);
      assert offset + |line| + |Joined(rest)| == offset + |Joined(a)|;
      Prelude.Regroup(FirstEdits(ctx, line, offset, fence), Scan(ctx, rest, offset + |line|, next),
        Scan(ctx, b, offset + |Joined(a)|, After(ctx, a, fence)));
    } else {
      ScanNil(ctx, offset, fence);
      AfterCons(ctx, "", [], fence);
      assert a + b == b;
    }
  }

  /** Nothing is recorded while a fence is open. */
  lemma {:induction false} NothingInside(ctx: Context, body: seq<string>, offset: nat, mark: string)
    requires ctx.md.Sound() && (mark == "```" || mark == "~~~")
    requires forall k :: 0 <= k < |body| ==> !Marks(ctx.md, body[k], mark)
    ensures Scan(ctx, body, offset, Some(mark)) == [] && After(ctx, body, Some(mark)) == Some(mark)
    decreases |body|
  {
    if body != [] {
      MarkerExactly(ctx.md, body[0], mark);
      NothingInside(ctx, body[1..], offset + |body[0]|, mark);
    }
  }

  // ---- Lines of a part of the text ----

  lemma {:induction false} LineEndOfPrefix(text: string, i: nat, n: nat)
    requires i < |text| && LineEnd(text, i) <= n <= |text|
    ensures LineEnd(text[..n], i) == LineEnd(text, i)
    decreases |text| - i
  {
    if LineEnd(text, i) > i + 1 && !(text[i] == '\r' && text[i + 1] == '\n') { LineEndOfPrefix(text, i + 1, n); }
  }

  /** Cut at a line's beginning, a text has the lines before the cut and those behind it. */
  lemma {:induction false} SplitsApart(text: string, i: nat)
    requires i <= |SplitLines(text)|
    ensures SplitLines(Joined(SplitLines(text)[..i])) == SplitLines(text)[..i]
    ensures SplitLines(Joined(SplitLines(text)[i..])) == SplitLines(text)[i..]
  {
    var lines := SplitLines(text);
    if i == 0 {
      assert lines[0..] == lines && lines[..0] == [];
    } else {
      var end := LineEnd(text, 0);
      var rest := SplitLines(text[end..]);
      SplitsApart(text[end..], i - 1);
      assert lines[i..] == rest[i - 1..];
      assert lines[..i] == [text[..end]] + rest[..i - 1];
      JoinedCons(text[..end], rest[..i - 1]);
      JoinedCut(rest, i - 1);
      var first := text[..end] + Joined(rest[..i - 1]);
      assert text[end..] == Joined(rest[..i - 1]) + Joined(rest[i - 1..]);
      assert first == text[..|first|];
      LineEndOfPrefix(text, 0, |first|);
      assert first[..end] == text[..end] && first[end..] == Joined(rest[..i - 1]);
    }
  }

  lemma {:induction false} JoinedCut(lines: seq<string>, i: nat)
    requires i <= |lines|
    ensures Joined(lines) == Joined(lines[..i]) + Joined(lines[i..])
  {
    if i == 0 {
      assert lines[0..] == lines;
    } else {
      JoinedCut(lines[1..], i - 1);
      assert lines[..i][1..] == lines[1..][..i - 1] && lines[i..] == lines[1..][i - 1..];
      Prelude.Regroup(lines[0], Joined(lines[1..][..i - 1]), Joined(lines[1..][i - 1..]));
    }
  }

  /** The characters that end a line: line feed, vertical tab, form feed, carriage return, the
      three separators, next line, and the line and paragraph separators. */
  ghost predicate Breaks(c: char) {
    || c == '\n' || c == '\U{0b}' || c == '\U{0c}' || c == '\r' || c == '\U{1c}' || c == '\U{1d}' || c == '\U{1e}'
    || c == '\U{85}' || c == '\U{2028}' || c == '\U{2029}'
  }

  /** A line with its end, before what follows it: no break but at its end, where a carriage
      return and a line feed count as one. */
  ghost predicate IsLine(line: string, following: string) {
    && line != ""
    && (forall p :: 0 <= p < |line| - 1 && Breaks(line[p]) ==>
          p == |line| - 2 && line[p] == '\r' && line[p + 1] == '\n')
    && (following != "" ==>
          Breaks(line[|line| - 1]) && !(line[|line| - 1] == '\r' && following[0] == '\n'))
  }

  lemma {:induction false} LineEndExactly(text: string, i: nat)
    requires i < |text|
    ensures IsLine(text[i..LineEnd(text, i)], text[LineEnd(text, i)..])
    decreases |text| - i
  {
    var end := LineEnd(text, i);
    if end > i + 1 && !(text[i] == '\r' && text[i + 1] == '\n') {
      LineEndExactly(text, i + 1);
      assert text[i..end] == [text[i]] + text[i + 1..end];
    }
  }

  /** The text is cut into its lines. */
  lemma {:induction false} LinesExactly(text: string, i: nat)
    requires i < |SplitLines(text)|
    ensures Joined(SplitLines(text)) == text
    ensures IsLine(SplitLines(text)[i], Joined(SplitLines(text)[i + 1..]))
  {
    var end := LineEnd(text, 0);
    var lines, rest := SplitLines(text), SplitLines(text[end..]);
    assert lines == [text[..end]] + rest;
    if i == 0 {
      LineEndExactly(text, 0);
      assert lines[1..] == rest && text[0..end] == text[..end];
    } else {
      LinesExactly(text[end..], i - 1);
      assert lines[i + 1..] == rest[i..];
    }
  }

  // ---- Fenced blocks are left alone ----

  /** A block from its opening fence to its closing one records nothing and leaves no fence open. */
  lemma BlockIsSilent(ctx: Context, open: string, body: seq<string>, close: string, offset: nat, mark: string)
    requires ctx.md.Sound() && Marks(ctx.md, open, mark) && Marks(ctx.md, close, mark)
    requires forall k :: 0 <= k < |body| ==> !Marks(ctx.md, body[k], mark)
    ensures var block := [open] + body + [close];
      Scan(ctx, block, offset, None) == [] && After(ctx, block, None) == None
  {
    var block := [open] + body + [close];
    UnclosedIsSilent(ctx, open, body, offset, mark);
    ScanAppend(ctx, [open] + body, [close], offset, None);
    AfterSnoc(ctx, [open] + body, close, None);
    MarkerExactly(ctx.md, close, mark);
    var last := offset + |Joined([open] + body)|;
    ScanCons(ctx, close, [], last, Some(mark));
    assert [close] + [] == [close];
    ScanNil(ctx, last + |close|, None);
  }

  lemma UnclosedIsSilent(ctx: Context, open: string, body: seq<string>, offset: nat, mark: string)
    requires ctx.md.Sound() && Marks(ctx.md, open, mark)
    requires forall k :: 0 <= k < |body| ==> !Marks(ctx.md, body[k], mark)
    ensures Scan(ctx, [open] + body, offset, None) == [] && After(ctx, [open] + body, None) == Some(mark)
  {
    MarkerExactly(ctx.md, open, mark);
    ScanCons(ctx, open, body, offset, None);
    AfterCons(ctx, open, body, None);
    NothingInside(ctx, body, offset + |open|, mark);
  }

  lemma WithinText(ctx: Context, text: string)
    requires ctx.md.Sound()
    ensures forall e :: e in FoundEdits(ctx, text) ==> 0 <= e.start < e.end <= |text|
  {
    hide Scan, SplitLines;
    ScanRecorded(ctx, "", SplitLines(text), None);
    assert "" + text == text;
    assert forall e :: e in FoundEdits(ctx, text) ==> Quotes(text, e, 0, |text|);
  }

  /** The edits of a text that continues lines whose fences are all closed. */
  lemma FoundBehind(ctx: Context, text: string, a: seq<string>, b: seq<string>)
    requires ctx.md.Sound() && SplitLines(text) == a + b && Closed(ctx.md, a)
    ensures FoundEdits(ctx, text) == FoundEdits(ctx, Joined(a)) + Scan(ctx, b, |Joined(a)|, None)
    ensures SplitLines(Joined(a)) == a && text == Joined(a) + Joined(b)
  {
    hide *;
    assert (a + b)[..|a|] == a && (a + b)[|a|..] == b;
    SplitsApart(text, |a|);
    JoinedCut(a + b, |a|);
    FoundByScan(ctx, text);
    FoundByScan(ctx, Joined(a));
    ScanAppend(ctx, a, b, 0, None);
    ClosedExactly(ctx, a);
  }

  lemma ShiftedStarts(edits: Edits, far: int)
    requires forall e :: e in edits ==> 0 <= e.start
    ensures forall e :: e in Shifted(edits, far) ==> far <= e.start
  {
  }

  /** A fenced block behind lines whose fences are all closed is passed over: the edits are those
      of the text before it and, moved, those of the text behind it. */
  lemma FencedBlock(ctx: Context, text: string, a: seq<string>, open: string, body: seq<string>, close: string,
    b: seq<string>, mark: string)
    requires ctx.md.Sound() && SplitLines(text) == a + ([open] + body + [close]) + b && Closed(ctx.md, a)
    requires Marks(ctx.md, open, mark) && Marks(ctx.md, close, mark)
    requires forall k :: 0 <= k < |body| ==> !Marks(ctx.md, body[k], mark)
    ensures var before, far := Joined(a), |Joined(a + ([open] + body + [close]))|;
      && FoundEdits(ctx, text) == FoundEdits(ctx, before) + Shifted(FoundEdits(ctx, Joined(b)), far)
      && forall e :: e in FoundEdits(ctx, text) ==> e.end <= |before| || far <= e.start
  {
    hide *;
    var block := [open] + body + [close];
    ClosedExactly(ctx, a);
    AfterBlock(ctx, a, open, body, close, mark);
    ClosedExactly(ctx, a + block);
    BlockIsSilent(ctx, open, body, close, |Joined(a)|, mark);
    BlockPassed(ctx, text, a, block, b);
    BothSides(ctx, Joined(a), Joined(b), |Joined(a + block)|);
  }

  lemma BlockPassed(ctx: Context, text: string, a: seq<string>, block: seq<string>, b: seq<string>)
    requires ctx.md.Sound() && SplitLines(text) == a + block + b && Closed(ctx.md, a) && Closed(ctx.md, a + block)
    requires Scan(ctx, block, |Joined(a)|, None) == []
    ensures FoundEdits(ctx, text)
         == FoundEdits(ctx, Joined(a)) + Shifted(FoundEdits(ctx, Joined(b)), |Joined(a + block)|)
  {
    hide *;
    var through := Joined(a + block);
    FoundBehind(ctx, text, a + block, b);
    FoundBehind(ctx, through, a, block);
    FoundLater(ctx, text, a + block, b);
    assert FoundEdits(ctx, through) == FoundEdits(ctx, Joined(a));
  }

  lemma FoundLater(ctx: Context, text: string, a: seq<string>, b: seq<string>)
    requires ctx.md.Sound() && SplitLines(text) == a + b
    ensures Scan(ctx, b, |Joined(a)|, None) == Shifted(FoundEdits(ctx, Joined(b)), |Joined(a)|)
  {
    hide *;
    assert (a + b)[|a|..] == b;
    SplitsApart(text, |a|);
    FoundByScan(ctx, Joined(b));
    ScanShift(ctx, b, 0, |Joined(a)|, None);
  }

  lemma BothSides(ctx: Context, before: string, behind: string, far: int)
    requires ctx.md.Sound()
    ensures forall e :: e in FoundEdits(ctx, before) + Shifted(FoundEdits(ctx, behind), far) ==>
      e.end <= |before| || far <= e.start
  {
    hide *;
    WithinText(ctx, before);
    WithinText(ctx, behind);
    ShiftedStarts(FoundEdits(ctx, behind), far);
  }

  lemma AfterBlock(ctx: Context, a: seq<string>, open: string, body: seq<string>, close: string, mark: string)
    requires ctx.md.Sound() && After(ctx, a, None) == None
    requires Marks(ctx.md, open, mark) && Marks(ctx.md, close, mark)
    requires forall k :: 0 <= k < |body| ==> !Marks(ctx.md, body[k], mark)
    ensures After(ctx, a + ([open] + body + [close]), None) == None
  {
    hide *;
    BlockIsSilent(ctx, open, body, close, 0, mark);
    AfterAppend(ctx, a, [open] + body + [close], None);
  }

  lemma {:induction false} AfterAppend(ctx: Context, a: seq<string>, b: seq<string>, fence: Fence)
    ensures After(ctx, a + b, fence) == After(ctx, b, After(ctx, a, fence))
    decreases |a|
  {
    if a == [] {
      assert a + b == b;
    } else {
      assert (a + b)[1..] == a[1..] + b;
      AfterAppend(ctx, a[1..], b, FenceAfter(ctx, a[0], fence));
    }
  }

  /** After a fence that is never closed nothing is rewritten. */
  lemma UnclosedBlock(ctx: Context, text: string, a: seq<string>, open: string, body: seq<string>, mark: string)
    requires ctx.md.Sound() && SplitLines(text) == a + ([open] + body) && Closed(ctx.md, a)
    requires Marks(ctx.md, open, mark) && forall k :: 0 <= k < |body| ==> !Marks(ctx.md, body[k], mark)
    ensures FoundEdits(ctx, text) == FoundEdits(ctx, Joined(a))
    ensures forall e :: e in FoundEdits(ctx, text) ==> e.end <= |Joined(a)|
  {
    hide *;
    FoundBehind(ctx, text, a, [open] + body);
    UnclosedIsSilent(ctx, open, body, |Joined(a)|, mark);
    WithinText(ctx, Joined(a));
  }

  // ---- Reversibility, line by line ----

  /** The line is not read, or its targets that name excluded documents are apart. */
  ghost predicate ApartWhenRead(ctx: Context, lines: seq<string>, fence: Fence, i: nat) {
    i < |lines| && IsProse(ctx.md, lines[i]) && After(ctx, lines[..i], fence) == None ==>
      NamedApart(ctx, lines[i], ctx.md.targets(lines[i]))
  }

  lemma ApartLater(ctx: Context, line: string, rest: seq<string>, fence: Fence, i: nat)
    ensures ApartWhenRead(ctx, [line] + rest, fence, i + 1)
       <==> ApartWhenRead(ctx, rest, FenceAfter(ctx, line, fence), i)
  {
    hide IsProse, NamedApart, FenceAfter;
    var lines := [line] + rest;
    if i < |rest| {
      assert lines[..i + 1] == [line] + rest[..i] && lines[i + 1] == rest[i];
      assert lines[..i + 1][1..] == rest[..i];
    }
  }

  lemma ApartFirst(ctx: Context, line: string, rest: seq<string>, fence: Fence)
    ensures ApartWhenRead(ctx, [line] + rest, fence, 0) <==>
      (fence == None && IsProse(ctx.md, line) ==> NamedApart(ctx, line, ctx.md.targets(line)))
  {
    var lines := [line] + rest;
    assert lines[..0] == [] && lines[0] == line;
  }

  lemma {:induction false} TargetsApartExactly(ctx: Context, lines: seq<string>, fence: Fence)
    requires ctx.md.Sound()
    ensures TargetsApart(ctx, lines, fence) <==> forall i: nat :: ApartWhenRead(ctx, lines, fence, i)
    decreases |lines|
  {
    if lines != [] {
      hide *;
      var line, rest := lines[0], lines[1..];
      var next := FenceAfter(ctx, line, fence);
      assert lines == [line] + rest;
      MarkerExactly(ctx.md, line, "");
      TargetsApartCons(ctx, line, rest, fence);
      TargetsApartExactly(ctx, rest, next);
      ApartFirst(ctx, line, rest, fence);
      if forall i: nat :: ApartWhenRead(ctx, lines, fence, i) {
        forall i: nat ensures ApartWhenRead(ctx, rest, next, i) { ApartLater(ctx, line, rest, fence, i); }
      }
      if ApartWhenRead(ctx, lines, fence, 0) && forall i: nat :: ApartWhenRead(ctx, rest, next, i) {
        forall i: nat ensures ApartWhenRead(ctx, lines, fence, i) {
          if i > 0 { ApartLater(ctx, line, rest, fence, i - 1); }
        }
      }
    }
  }

  /** The line is prose with every fence before it closed. */
  ghost predicate IsRead(md: Markdown, lines: seq<string>, i: nat) {
    i < |lines| && IsProse(md, lines[i]) && Closed(md, lines[..i])
  }

  /** A rewrite can be undone exactly when, on every prose line with all earlier fences closed,
      the targets that name excluded documents do not overlap. */
  lemma ReversibleOutsideFences(ctx: Context, text: string)
    requires ctx.md.Sound()
    ensures var lines, edits := SplitLines(text), FoundEdits(ctx, text);
      (Restored(ApplyReversed(text, edits), edits) == Some(text)) <==>
        forall i: nat :: IsRead(ctx.md, lines, i) ==> NamedApart(ctx, lines[i], ctx.md.targets(lines[i]))
  {
    hide *;
    var lines := SplitLines(text);
    ReversibleOnText(ctx, text);
    TargetsApartExactly(ctx, lines, None);
    forall i: nat
      ensures ApartWhenRead(ctx, lines, None, i) <==>
        (IsRead(ctx.md, lines, i) ==> i < |lines| && NamedApart(ctx, lines[i], ctx.md.targets(lines[i])))
    {
      ReadExactly(ctx, lines, i);
    }
    assert forall i: nat :: IsRead(ctx.md, lines, i) ==> i < |lines| by {
      forall i: nat ensures IsRead(ctx.md, lines, i) ==> i < |lines| { ReadExactly(ctx, lines, i); }
    }
  }

  lemma ReadExactly(ctx: Context, lines: seq<string>, i: nat)
    ensures ApartWhenRead(ctx, lines, None, i) <==>
      (IsRead(ctx.md, lines, i) ==> i < |lines| && NamedApart(ctx, lines[i], ctx.md.targets(lines[i])))
    ensures IsRead(ctx.md, lines, i) ==> i < |lines|
  {
    hide Closed, After, IsProse, NamedApart;
    if i < |lines| { ClosedExactly(ctx, lines[..i]); }
  }
}
