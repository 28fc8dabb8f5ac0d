/** Conditions on a Markdown text under which its rewrite can be undone, and how much a rewrite
    adds to it. */
module LinkTargets {
  import opened Prelude
  import opened LinkEdits
  import opened LinkRewriting

  // ---- Targets that overlap ----

  /** The target names an excluded document. */
  predicate Names(ctx: Context, line: string, s: Span) {
    s.0 < s.1 <= |line| &&
      var d := ctx.md.destination(ctx.source, line[s.0..s.1]);
      d.Some? && d.value in ctx.excluded
  }

  predicate Apart(s: Span, t: Span) {
    s.1 <= t.0 || t.1 <= s.0
  }

  /** Of the given targets, those that name excluded documents are pairwise apart. */
  ghost predicate NamedApart(ctx: Context, line: string, spans: seq<Span>) {
    forall i, j :: 0 <= i < j < |spans| && Names(ctx, line, spans[i]) && Names(ctx, line, spans[j]) ==>
      Apart(spans[i], spans[j])
  }

  /** On every line outside a code fence, the targets that name excluded documents are
      pairwise apart. */
  ghost predicate TargetsApart(ctx: Context, lines: seq<string>, fence: Fence) {
    lines == [] ||
      var line, marker := lines[0], Marker(ctx.md, lines[0]);
      if IsFence(marker) then TargetsApart(ctx, lines[1..], NextFence(fence, marker))
      else (fence.Some? || NamedApart(ctx, line, ctx.md.targets(line))) && TargetsApart(ctx, lines[1..], fence)
  }

  /** The order in which the patterns found the targets does not matter. */
  lemma ApartInAnyOrder(ctx: Context, line: string, a: seq<Span>, b: seq<Span>)
    requires multiset(a) == multiset(b) && NamedApart(ctx, line, a)
    ensures NamedApart(ctx, line, b)
  {
    forall i, j | 0 <= i < j < |b| && Names(ctx, line, b[i]) && Names(ctx, line, b[j]) ensures Apart(b[i], b[j]) {
      var k, l := TwoPlaces(a, b, i, j);
      assert k < l || l < k;
    }
  }

  /** The first target is apart from every other one that counts. */
  ghost predicate ApartFrom(ctx: Context, line: string, s: Span, rest: seq<Span>) {
    Names(ctx, line, s) ==> forall i :: 0 <= i < |rest| && Names(ctx, line, rest[i]) ==> Apart(s, rest[i])
  }

  lemma OnLineCons(line: string, s: Span, rest: seq<Span>)
    requires OnLine(line, [s] + rest)
    ensures OnLine(line, rest) && s.0 < s.1 <= |line|
  {
    assert s in [s] + rest && forall t :: t in rest ==> t in [s] + rest;
  }

  lemma NamedApartSplit(ctx: Context, line: string, s: Span, rest: seq<Span>)
    requires NamedApart(ctx, line, [s] + rest)
    ensures NamedApart(ctx, line, rest) && ApartFrom(ctx, line, s, rest)
  {
    hide Names, Apart;
    var all := [s] + rest;
    assert all[0] == s && forall i :: 0 <= i < |rest| ==> all[i + 1] == rest[i];
    forall i, j | 0 <= i < j < |rest| && Names(ctx, line, rest[i]) && Names(ctx, line, rest[j])
      ensures Apart(rest[i], rest[j])
    {
      assert Apart(all[i + 1], all[j + 1]);
    }
    forall i | 0 <= i < |rest| && Names(ctx, line, s) && Names(ctx, line, rest[i]) ensures Apart(s, rest[i]) {
      assert Apart(all[0], all[i + 1]);
    }
  }

  lemma NamedApartJoin(ctx: Context, line: string, s: Span, rest: seq<Span>)
    requires NamedApart(ctx, line, rest) && ApartFrom(ctx, line, s, rest)
    ensures NamedApart(ctx, line, [s] + rest)
  {
    hide Names, Apart;
    var all := [s] + rest;
    forall i, j | 0 <= i < j < |all| && Names(ctx, line, all[i]) && Names(ctx, line, all[j])
      ensures Apart(all[i], all[j])
    {
      assert all[j] == rest[j - 1];
      if i > 0 { assert all[i] == rest[i - 1]; }
    }
  }

  lemma DisjointTail(e: Edit, rest: Edits)
    requires Disjoint([e] + rest)
    ensures Disjoint(rest) && forall x :: x in rest ==> e.end <= x.start
  {
    var all := [e] + rest;
    forall i, j | 0 <= i < j < |rest| ensures rest[i].end <= rest[j].start {
      assert all[i + 1] == rest[i] && all[j + 1] == rest[j];
    }
    forall x | x in rest ensures e.end <= x.start {
      var i :| 0 <= i < |rest| && rest[i] == x;
      assert all[0] == e && all[i + 1] == x;
    }
  }

  lemma DisjointCons(e: Edit, rest: Edits)
    ensures Disjoint([e] + rest) <==> Disjoint(rest) && forall x :: x in rest ==> e.end <= x.start
  {
    var all := [e] + rest;
    if Disjoint(all) { DisjointTail(e, rest); }
    if Disjoint(rest) && (forall x :: x in rest ==> e.end <= x.start) {
      forall i, j | 0 <= i < j < |all| ensures all[i].end <= all[j].start {
        assert all[j] == rest[j - 1];
        if i > 0 { assert all[i] == rest[i - 1]; }
      }
    }
  }

  /** The edits of a line start where its targets that name excluded documents do. */
  lemma {:induction false} EditsStartAfter(ctx: Context, line: string, offset: nat, spans: seq<Span>, bound: int)
    requires OnLine(line, spans)
    ensures (forall e :: e in LineEdits(ctx, line, offset, spans) ==> bound <= e.start)
       <==> (forall t :: t in spans && Names(ctx, line, t) ==> bound <= offset + t.0)
  {
    if spans != [] {
      var s, rest := spans[0], spans[1..];
      assert s in spans && spans == [s] + rest;
      EditsStartAfter(ctx, line, offset, rest, bound);
      var first, more := TargetEdit(ctx, line, offset, s), LineEdits(ctx, line, offset, rest);
      assert LineEdits(ctx, line, offset, spans) == first + more;
      assert forall e :: e in first + more <==> e in first || e in more;
      if Names(ctx, line, s) { assert first[0] in first && first[0].start == offset + s.0; }
    }
  }

  lemma LineEditsCons(ctx: Context, line: string, offset: nat, s: Span, rest: seq<Span>)
    requires OnLine(line, [s] + rest) && OnLine(line, rest) && s.0 < s.1 <= |line|
    ensures LineEdits(ctx, line, offset, [s] + rest)
         == TargetEdit(ctx, line, offset, s) + LineEdits(ctx, line, offset, rest)
    ensures var first := TargetEdit(ctx, line, offset, s);
      if Names(ctx, line, s) then |first| == 1 && first[0].start == offset + s.0 && first[0].end == offset + s.1
      else first == []
  {
    assert ([s] + rest)[0] == s && ([s] + rest)[1..] == rest;
  }

  lemma StartsOrderedTail(s: Span, rest: seq<Span>)
    requires StartsOrdered([s] + rest)
    ensures StartsOrdered(rest) && forall t :: t in rest ==> s.0 <= t.0
  {
    var all := [s] + rest;
    assert all[0] == s && forall i :: 0 <= i < |rest| ==> all[i + 1] == rest[i];
    forall i, j | 0 <= i < j < |rest| ensures rest[i].0 <= rest[j].0 { assert all[i + 1].0 <= all[j + 1].0; }
    forall t | t in rest ensures s.0 <= t.0 {
      var i :| 0 <= i < |rest| && rest[i] == t;
      assert all[0].0 <= all[i + 1].0;
    }
  }

  /** From a target that starts first, being apart is ending before. */
  lemma ApartIsAfter(ctx: Context, line: string, s: Span, rest: seq<Span>)
    requires s.0 < s.1 && OnLine(line, rest) && forall t :: t in rest ==> s.0 <= t.0
    ensures ApartFrom(ctx, line, s, rest)
       <==> (Names(ctx, line, s) ==> forall t :: t in rest && Names(ctx, line, t) ==> s.1 <= t.0)
  {
    hide Names;
    forall i | 0 <= i < |rest| ensures Apart(s, rest[i]) <==> s.1 <= rest[i].0 {
      assert rest[i] in rest;
    }
    hide Apart;
  }

  /** The edits of a line are disjoint exactly when the targets behind them are. */
  lemma {:induction false} LineDisjointExactly(ctx: Context, line: string, offset: nat, spans: seq<Span>)
    requires OnLine(line, spans) && StartsOrdered(spans)
    ensures Disjoint(LineEdits(ctx, line, offset, spans)) <==> NamedApart(ctx, line, spans)
  {
    if spans != [] {
      hide *;
      var s, rest := spans[0], spans[1..];
      assert spans == [s] + rest;
      OnLineCons(line, s, rest);
      StartsOrderedTail(s, rest);
      ApartIsAfter(ctx, line, s, rest);
      LineDisjointExactly(ctx, line, offset, rest);
      LineEditsCons(ctx, line, offset, s, rest);
      if NamedApart(ctx, line, spans) { NamedApartSplit(ctx, line, s, rest); }
      if NamedApart(ctx, line, rest) && ApartFrom(ctx, line, s, rest) { NamedApartJoin(ctx, line, s, rest); }
      var first, more := TargetEdit(ctx, line, offset, s), LineEdits(ctx, line, offset, rest);
      if Names(ctx, line, s) {
        DisjointCons(first[0], more);
        assert first == [first[0]];
        EditsStartAfter(ctx, line, offset, rest, offset + s.1);
      } else {
        assert first + more == more;
      }
    } else {
      NothingApart(ctx, line, offset);
    }
  }

  lemma NothingApart(ctx: Context, line: string, offset: nat)
    ensures OnLine(line, []) && Disjoint(LineEdits(ctx, line, offset, [])) && NamedApart(ctx, line, [])
  {
  }

  lemma DisjointAppend(text: string, a: Edits, b: Edits, lo: nat, mid: nat, hi: nat)
    requires Recorded(text, a, lo, mid) && Recorded(text, b, mid, hi)
    ensures Disjoint(a + b) <==> Disjoint(a) && Disjoint(b)
  {
    var all := a + b;
    assert forall i :: 0 <= i < |b| ==> all[|a| + i] == b[i];
    if Disjoint(all) {
      forall i, j | 0 <= i < j < |a| ensures a[i].end <= a[j].start { assert all[i].end <= all[j].start; }
      forall i, j | 0 <= i < j < |b| ensures b[i].end <= b[j].start { assert all[|a| + i].end <= all[|a| + j].start; }
    }
    if Disjoint(a) && Disjoint(b) {
      forall i, j | 0 <= i < j < |all| ensures all[i].end <= all[j].start {
        if i < |a| <= j {
          assert Quotes(text, a[i], lo, mid) && Quotes(text, b[j - |a|], mid, hi);
        }
      }
    }
  }

  lemma SortedApart(ctx: Context, line: string)
    requires ctx.md.Sound()
    ensures NamedApart(ctx, line, SortByStart(ctx.md.targets(line))) <==> NamedApart(ctx, line, ctx.md.targets(line))
  {
    var spans := ctx.md.targets(line);
    if NamedApart(ctx, line, spans) { ApartInAnyOrder(ctx, line, spans, SortByStart(spans)); }
    if NamedApart(ctx, line, SortByStart(spans)) { ApartInAnyOrder(ctx, line, SortByStart(spans), spans); }
  }

  /** What one line adds to the scan, if its text is read at all. */
  function FirstEdits(ctx: Context, line: string, offset: nat, fence: Fence): Edits
    requires ctx.md.Sound() && OnLine(line, SortByStart(ctx.md.targets(line)))
  {
    if IsFence(Marker(ctx.md, line)) || fence.Some? then []
    else LineEdits(ctx, line, offset, SortByStart(ctx.md.targets(line)))
  }

  function FenceAfter(ctx: Context, line: string, fence: Fence): Fence {
    if IsFence(Marker(ctx.md, line)) then NextFence(fence, Marker(ctx.md, line)) else fence
  }

  lemma ScanCons(ctx: Context, line: string, rest: seq<string>, offset: nat, fence: Fence)
    requires ctx.md.Sound()
    ensures OnLine(line, SortByStart(ctx.md.targets(line)))
    ensures Scan(ctx, [line] + rest, offset, fence)
         == FirstEdits(ctx, line, offset, fence) + Scan(ctx, rest, offset + |line|, FenceAfter(ctx, line, fence))
  {
    SortedOnLine(ctx.md, line);
    assert ([line] + rest)[1..] == rest;
    var later := Scan(ctx, rest, offset + |line|, FenceAfter(ctx, line, fence));
    assert [] + later == later;
  }

  lemma TargetsApartCons(ctx: Context, line: string, rest: seq<string>, fence: Fence)
    requires ctx.md.Sound()
    ensures TargetsApart(ctx, [line] + rest, fence) <==>
      && (IsFence(Marker(ctx.md, line)) || fence.Some? || NamedApart(ctx, line, ctx.md.targets(line)))
      && TargetsApart(ctx, rest, FenceAfter(ctx, line, fence))
  {
    assert ([line] + rest)[1..] == rest;
  }

  lemma FirstRecorded(ctx: Context, prefix: string, line: string, rest: string, fence: Fence)
    requires ctx.md.Sound()
    ensures OnLine(line, SortByStart(ctx.md.targets(line)))
    ensures Recorded(prefix + line + rest, FirstEdits(ctx, line, |prefix|, fence), |prefix|, |prefix + line|)
  {
    SortedOnLine(ctx.md, line);
    LineEditsRecorded(ctx, prefix, line, rest, SortByStart(ctx.md.targets(line)));
  }

  lemma FirstDisjoint(ctx: Context, line: string, offset: nat, fence: Fence)
    requires ctx.md.Sound()
    ensures OnLine(line, SortByStart(ctx.md.targets(line)))
    ensures Disjoint(FirstEdits(ctx, line, offset, fence)) <==>
      IsFence(Marker(ctx.md, line)) || fence.Some? || NamedApart(ctx, line, ctx.md.targets(line))
  {
    SortedApart(ctx, line);
    SortedOnLine(ctx.md, line);
    LineDisjointExactly(ctx, line, offset, SortByStart(ctx.md.targets(line)));
  }

  lemma {:induction false} ScanDisjointExactly(ctx: Context, prefix: string, lines: seq<string>, fence: Fence)
    requires ctx.md.Sound()
    ensures Disjoint(Scan(ctx, lines, |prefix|, fence)) <==> TargetsApart(ctx, lines, fence)
    decreases lines
  {
    if lines != [] {
      hide *;
      var line, rest := lines[0], lines[1..];
      assert lines == [line] + rest;
      JoinedCons(line, rest);
      Prelude.Regroup(prefix, line, Joined(rest));
      ScanCons(ctx, line, rest, |prefix|, fence);
      TargetsApartCons(ctx, line, rest, fence);
      FirstRecorded(ctx, prefix, line, Joined(rest), fence);
      FirstDisjoint(ctx, line, |prefix|, fence);
      var next, longer := FenceAfter(ctx, line, fence), prefix + line;
      ScanRecorded(ctx, longer, rest, next);
      ScanDisjointExactly(ctx, longer, rest, next);
      DisjointAppend(longer + Joined(rest), FirstEdits(ctx, line, |prefix|, fence), Scan(ctx, rest, |longer|, next),
        |prefix|, |longer|, |longer + Joined(rest)|);
    } else {
      NothingScanned(ctx, |prefix|, fence);
    }
  }

  lemma NothingScanned(ctx: Context, offset: nat, fence: Fence)
    requires ctx.md.Sound()
    ensures Disjoint(Scan(ctx, [], offset, fence)) && TargetsApart(ctx, [], fence)
    ensures Net(Scan(ctx, [], offset, fence)) == 0
  {
  }

  lemma JoinedCons(line: string, rest: seq<string>)
    ensures Joined([line] + rest) == line + Joined(rest)
  {
    assert ([line] + rest)[1..] == rest;
  }

  /** A rewrite can be undone exactly when, on every line outside a code fence, the targets that
      name excluded documents do not overlap. */
  lemma ReversibleOnText(ctx: Context, text: string)
    requires ctx.md.Sound()
    ensures Disjoint(FoundEdits(ctx, text)) <==> TargetsApart(ctx, SplitLines(text), None)
    ensures var edits := FoundEdits(ctx, text);
      Restored(ApplyReversed(text, edits), edits)
        == if TargetsApart(ctx, SplitLines(text), None) then Some(text) else None
  {
    ScanDisjointExactly(ctx, "", SplitLines(text), None);
    RewriteIsReversible(ctx, text);
  }

  // ---- How much many links add ----

  const LINK_LINE := "[y](AGENTS.md)\n"

  function Repeated(line: string, k: nat): string {
    if k == 0 then "" else line + Repeated(line, k - 1)
  }

  function Copies(line: string, k: nat): seq<string> {
    if k == 0 then [] else [line] + Copies(line, k - 1)
  }

  lemma {:induction false} RepeatedLength(line: string, k: nat)
    ensures |Repeated(line, k)| == k * |line|
  {
    if k > 0 { RepeatedLength(line, k - 1); }
  }

  lemma {:induction false} LineEndsAtBreak(line: string, rest: string, i: nat)
    requires i < |line| && line[|line| - 1] == '\n' && forall c :: c in line[..|line| - 1] ==> !IsLineBreak(c)
    ensures LineEnd(line + rest, i) == |line|
    decreases |line| - i
  {
    if i + 1 < |line| {
      assert line[i] in line[..|line| - 1];
      LineEndsAtBreak(line, rest, i + 1);
    }
  }

  lemma {:induction false} RepeatedSplits(line: string, k: nat)
    requires line != "" && line[|line| - 1] == '\n' && forall c :: c in line[..|line| - 1] ==> !IsLineBreak(c)
    ensures SplitLines(Repeated(line, k)) == Copies(line, k)
  {
    if k > 0 {
      var text, rest := Repeated(line, k), Repeated(line, k - 1);
      LineEndsAtBreak(line, rest, 0);
      RepeatedSplits(line, k - 1);
      assert text[..|line|] == line && text[|line|..] == rest;
    }
  }

  lemma {:induction false} NetAppend(a: Edits, b: Edits)
    ensures Net(a + b) == Net(a) + Net(b)
  {
    if a == [] {
      assert a + b == b;
    } else {
      assert (a + b)[1..] == a[1..] + b;
      NetAppend(a[1..], b);
    }
  }

  lemma CopiesCons(line: string, k: nat)
    ensures Copies(line, k + 1) == [line] + Copies(line, k) && Copies(line, 0) == []
  {
  }

  lemma {:induction false} CopiesAdd(ctx: Context, line: string, k: nat, offset: nat, growth: int)
    requires ctx.md.Sound() && !IsFence(Marker(ctx.md, line)) && OnLine(line, SortByStart(ctx.md.targets(line)))
    requires forall o: nat :: Net(LineEdits(ctx, line, o, SortByStart(ctx.md.targets(line)))) == growth
    ensures Net(Scan(ctx, Copies(line, k), offset, None)) == k * growth
  {
    hide *;
    if k > 0 {
      var rest := Copies(line, k - 1);
      CopiesCons(line, k - 1);
      ScanCons(ctx, line, rest, offset, None);
      NotFenced(ctx, line, offset);
      CopiesAdd(ctx, line, k - 1, offset + |line|, growth);
      NetAppend(FirstEdits(ctx, line, offset, None), Scan(ctx, rest, offset + |line|, None));
    } else {
      CopiesCons(line, 0);
      NothingScanned(ctx, offset, None);
    }
  }

  lemma NotFenced(ctx: Context, line: string, offset: nat)
    requires ctx.md.Sound() && !IsFence(Marker(ctx.md, line)) && OnLine(line, SortByStart(ctx.md.targets(line)))
    ensures FirstEdits(ctx, line, offset, None) == LineEdits(ctx, line, offset, SortByStart(ctx.md.targets(line)))
    ensures FenceAfter(ctx, line, None) == None
  {
  }

  // ---- A text of many links ----

  /** What the patterns and the path normalisation give for the line `LINK_LINE` in a document at
      the repository's root.  The permanent URL holds a commit id of forty digits. */
  ghost predicate ReadsLink(ctx: Context)
    requires |LINK_LINE| == 15
  {
    && Marker(ctx.md, LINK_LINE) == "[y]" && ctx.md.targets(LINK_LINE) == [(4, 13)]
    && ctx.md.destination(ctx.source, LINK_LINE[4..13]) == Some("AGENTS.md") && "AGENTS.md" in ctx.excluded
    && |ctx.md.permalink("AGENTS.md", LINK_LINE[4..13])| >= 40
  }

  lemma LinkLineIsOneLine()
    ensures |LINK_LINE| == 15 && LINK_LINE[14] == '\n' && forall c :: c in LINK_LINE[..14] ==> !IsLineBreak(c)
  {
    assert LINK_LINE[..14] == "[y](AGENTS.md)";
    forall c | c in "[y](AGENTS.md)" ensures ' ' <= c <= 'z' {}
  }

  lemma SortOne(s: Span)
    ensures SortByStart([s]) == [s]
  {
    assert [s][..0] == [];
  }

  lemma OneTargetLine(ctx: Context, line: string, offset: nat, s: Span)
    requires ctx.md.Sound() && ctx.md.targets(line) == [s] && Names(ctx, line, s)
    ensures OnLine(line, SortByStart(ctx.md.targets(line)))
    ensures var d := ctx.md.destination(ctx.source, line[s.0..s.1]).value;
      Net(LineEdits(ctx, line, offset, SortByStart(ctx.md.targets(line))))
        == |Replacement(ctx, line[s.0..s.1], d)| - (s.1 - s.0)
  {
    SortedOnLine(ctx.md, line);
    SortOne(s);
    var e := TargetEdit(ctx, line, offset, s)[0];
    assert [s][0] == s && [s][1..] == [] && LineEdits(ctx, line, offset, []) == [];
    assert LineEdits(ctx, line, offset, [s]) == [e];
    assert [e][1..] == [];
  }

  lemma LinkIsOneTarget(ctx: Context)
    requires |LINK_LINE| == 15 && ReadsLink(ctx)
    ensures |ctx.md.targets(LINK_LINE)| == 1
  {
  }

  lemma {:induction false} TimesGrows(k: nat, a: int, b: int)
    requires a <= b
    ensures k * a <= k * b
  {
  }

  lemma LinkGrowth(ctx: Context) returns (growth: int)
    requires ctx.md.Sound() && |LINK_LINE| == 15 && ReadsLink(ctx)
    ensures growth >= 39 && !IsFence(Marker(ctx.md, LINK_LINE))
    ensures OnLine(LINK_LINE, SortByStart(ctx.md.targets(LINK_LINE)))
    ensures forall o: nat :: Net(LineEdits(ctx, LINK_LINE, o, SortByStart(ctx.md.targets(LINK_LINE)))) == growth
  {
    var target := LINK_LINE[4..13];
    assert Names(ctx, LINK_LINE, (4, 13));
    growth := |Replacement(ctx, target, "AGENTS.md")| - 9;
    OneTargetLine(ctx, LINK_LINE, 0, (4, 13));
    forall o: nat ensures Net(LineEdits(ctx, LINK_LINE, o, SortByStart(ctx.md.targets(LINK_LINE)))) == growth {
      OneTargetLine(ctx, LINK_LINE, o, (4, 13));
    }
  }

  lemma {:induction false} CopiesApart(ctx: Context, line: string, k: nat)
    requires ctx.md.Sound() && |ctx.md.targets(line)| <= 1 && !IsFence(Marker(ctx.md, line))
    ensures TargetsApart(ctx, Copies(line, k), None)
  {
    if k > 0 {
      CopiesApart(ctx, line, k - 1);
      TargetsApartCons(ctx, line, Copies(line, k - 1), None);
    }
  }

  /** Rewriting makes every such link at least 39 characters longer. */
  lemma ManyLinksGrow(ctx: Context, k: nat)
    requires ctx.md.Sound() && |LINK_LINE| == 15 && ReadsLink(ctx)
    ensures var text, edits := Repeated(LINK_LINE, k), FoundEdits(ctx, Repeated(LINK_LINE, k));
      |text| == 15 * k && Disjoint(edits) && |ApplyReversed(text, edits)| >= 54 * k
  {
    LinkIsOneTarget(ctx);
    hide Scan, SplitLines, ApplyReversed, Repeated, Copies, SortByStart, LineEdits, Disjoint, Net, ReadsLink, Recorded;
    hide TargetsApart;
    var text, edits := Repeated(LINK_LINE, k), FoundEdits(ctx, Repeated(LINK_LINE, k));
    LinkLineIsOneLine();
    RepeatedLength(LINK_LINE, k);
    RepeatedSplits(LINK_LINE, k);
    var growth := LinkGrowth(ctx);
    CopiesAdd(ctx, LINK_LINE, k, 0, growth);
    TimesGrows(k, 39, growth);
    ScanRecorded(ctx, "", SplitLines(text), None);
    assert "" + text == text;
    CopiesApart(ctx, LINK_LINE, k);
    ReversibleOnText(ctx, text);
    DisjointFits(text, edits, 0);
    RewrittenLength(text, edits);
  }
}
