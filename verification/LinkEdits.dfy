/** Recorded link rewrites: span edits applied from right to left, and their undoing. */
module LinkEdits {
  import opened Prelude

  datatype Edit = Edit(start: int, end: int, before: string, after: string)

  type Edits = seq<Edit>

  // ---- Slices with the source language's clamping rules ----

  function Clamp(i: int, n: nat): (r: nat)
    ensures r <= n
  {
    if i < 0 then (if n + i < 0 then 0 else n + i) else Min(i, n)
  }

  /** `text[lo:hi]`: out-of-range bounds are clamped, negative ones count from the end. */
  function Slice(text: string, lo: int, hi: int): string {
    var a, b := Clamp(lo, |text|), Clamp(hi, |text|);
    if a <= b then text[a..b] else ""
  }

  function Splice(text: string, e: Edit): string {
    text[..Clamp(e.start, |text|)] + e.after + text[Clamp(e.end, |text|)..]
  }

  /** The edits applied last one first, every offset relating to the text before any edit. */
  function ApplyReversed(text: string, edits: Edits): string {
    if edits == [] then text else Splice(ApplyReversed(text, edits[1..]), edits[0])
  }

  // ---- What the edits are meant to do: one simultaneous substitution ----

  /** A stretch of text left alone, and the replacement that follows it. */
  datatype Piece = Piece(gap: string, before: string, after: string)

  function Source(pieces: seq<Piece>, tail: string): string {
    if pieces == [] then tail else pieces[0].gap + pieces[0].before + Source(pieces[1..], tail)
  }

  function Output(pieces: seq<Piece>, tail: string): string {
    if pieces == [] then tail else pieces[0].gap + pieces[0].after + Output(pieces[1..], tail)
  }

  /** The spans of the replacements in the source, which continues at offset `from`. */
  function Spans(pieces: seq<Piece>, from: int): (r: Edits)
    ensures |r| == |pieces|
  {
    if pieces == [] then []
    else
      var start := from + |pieces[0].gap|;
      var end := start + |pieces[0].before|;
      [Edit(start, end, pieces[0].before, pieces[0].after)] + Spans(pieces[1..], end)
  }

  lemma Regroup(a: string, b: string, c: string, d: string)
    ensures a + b + c + d == a + (b + c + d)
  {
  }

  lemma SpliceInside(a: string, b: string, c: string, d: string, e: Edit)
    requires e.start == |a + b| && e.end == |a + b| + |c|
    ensures Splice(a + b + c + d, e) == a + (b + e.after + d)
  {
    var whole := a + b + c + d;
    assert whole[..e.start] == a + b;
    assert whole[e.end..] == d;
    Regroup(a, b, e.after, d);
  }

  /** Applying ordered, disjoint edits from right to left is that substitution. */
  lemma {:induction false} ReversedIsSubstitution(prefix: string, pieces: seq<Piece>, tail: string)
    ensures ApplyReversed(prefix + Source(pieces, tail), Spans(pieces, |prefix|)) == prefix + Output(pieces, tail)
    decreases pieces
  {
    if pieces != [] {
      var p, rest := pieces[0], pieces[1..];
      var longer := prefix + p.gap + p.before;
      ReversedIsSubstitution(longer, rest, tail);
      Regroup(prefix, p.gap, p.before, Source(rest, tail));
      assert Spans(pieces, |prefix|)[1..] == Spans(rest, |longer|);
      SpliceInside(prefix, p.gap, p.before, Output(rest, tail), Spans(pieces, |prefix|)[0]);
    }
  }

  // ---- Undoing recorded edits ----

  function Growth(e: Edit): int { |e.after| - (e.end - e.start) }

  ghost function Net(edits: Edits): int {
    if edits == [] then 0 else Growth(edits[0]) + Net(edits[1..])
  }

  /** The same edits seen from the rewritten text: each span moved by the growth of those
      before it, quoting the replacement and putting the original back. */
  function Inverse(edits: Edits, delta: int): (r: Edits)
    ensures |r| == |edits|
  {
    if edits == [] then []
    else
      var e := edits[0];
      [Edit(e.start + delta, e.start + delta + |e.after|, e.after, e.before)] + Inverse(edits[1..], delta + Growth(e))
  }

  /** The checks of the undo loop, from the running `previousEnd` and `delta`. */
  function Accepts(text: string, edits: Edits, previousEnd: int, delta: int): bool {
    edits != [] ==>
    var e := edits[0];
    && e.start >= previousEnd
    && e.end - e.start == |e.before|
    && Slice(text, e.start + delta, e.start + delta + |e.after|) == e.after
    && Accepts(text, edits[1..], e.end, delta + Growth(e))
  }

  datatype UndoError = InvalidRange | RewrittenLinkMismatch

  lemma CheckOneMore(text: string, edits: Edits, previousEnd: int, delta: int, adjusted: Edits)
    requires edits != []
    ensures var e := edits[0];
      && Accepts(text, edits, previousEnd, delta) == (
           && e.start >= previousEnd && e.end - e.start == |e.before|
           && Slice(text, e.start + delta, e.start + delta + |e.after|) == e.after
           && Accepts(text, edits[1..], e.end, delta + Growth(e)))
      && adjusted + Inverse(edits, delta)
      == adjusted + [Edit(e.start + delta, e.start + delta + |e.after|, e.after, e.before)]
           + Inverse(edits[1..], delta + Growth(e))
  {
  }

  lemma AcceptsNil(text: string, previousEnd: int, delta: int)
    ensures Accepts(text, [], previousEnd, delta)
  {
  }

  lemma InverseNil(delta: int)
    ensures Inverse([], delta) == []
  {
  }

  method RestoreLinks(text: string, edits: Edits) returns (r: Result<string, UndoError>)
    ensures r.Ok? <==> Accepts(text, edits, 0, 0)
    ensures r.Ok? ==> r.value == ApplyReversed(text, Inverse(edits, 0))
  {
    hide *;
    var delta, previousEnd := 0, 0;
    var adjusted: Edits := [];
    ghost var todo := edits;
    for i := 0 to |edits|
      invariant todo == edits[i..]
      invariant Inverse(edits, 0) == adjusted + Inverse(todo, delta)
      invariant Accepts(text, edits, 0, 0) == Accepts(text, todo, previousEnd, delta)
    {
      var e := edits[i];
      CheckOneMore(text, todo, previousEnd, delta, adjusted);
      GrowthIs(e);
      todo := todo[1..];
      if e.start < previousEnd || e.end - e.start != |e.before| {
        return Err(InvalidRange);
      }
      var outputStart := e.start + delta;
      var outputEnd := outputStart + |e.after|;
      if Slice(text, outputStart, outputEnd) != e.after {
        return Err(RewrittenLinkMismatch);
      }
      adjusted := adjusted + [Edit(outputStart, outputEnd, e.after, e.before)];
      delta := delta + |e.after| - (e.end - e.start);
      previousEnd := e.end;
    }
    InverseNil(delta);
    AcceptsNil(text, previousEnd, delta);
    assert todo == [] && adjusted + [] == adjusted && edits[0..] == edits;
    var restored := ApplyFromTheRight(text, adjusted);
    return Ok(restored);
  }

  /** The loop over `reversed(edits)` shared by rewriting and restoring. */
  method ApplyFromTheRight(text: string, edits: Edits) returns (result: string)
    ensures result == ApplyReversed(text, edits)
  {
    result := text;
    var i := |edits|;
    assert edits[i..] == [];
    while i > 0
      invariant 0 <= i <= |edits|
      invariant result == ApplyReversed(text, edits[i..])
    {
      i := i - 1;
      assert edits[i..][1..] == edits[i + 1..];
      result := Splice(result, edits[i]);
    }
    assert edits[0..] == edits;
  }

  /** The outcome of `RestoreLinks` as a value. */
  function Restored(text: string, edits: Edits): Option<string> {
    if Accepts(text, edits, 0, 0) then Some(ApplyReversed(text, Inverse(edits, 0))) else None
  }

  // ---- Restoring after rewriting ----

  function Flip(pieces: seq<Piece>): seq<Piece> {
    if pieces == [] then []
    else [Piece(pieces[0].gap, pieces[0].after, pieces[0].before)] + Flip(pieces[1..])
  }

  lemma {:induction false} FlipSwaps(pieces: seq<Piece>, tail: string, from: int, delta: int)
    ensures Source(Flip(pieces), tail) == Output(pieces, tail)
    ensures Output(Flip(pieces), tail) == Source(pieces, tail)
    ensures Inverse(Spans(pieces, from), delta) == Spans(Flip(pieces), from + delta)
  {
    if pieces != [] {
      var p, spans := pieces[0], Spans(pieces, from);
      FlipSwaps(pieces[1..], tail, spans[0].end, delta + Growth(spans[0]));
      assert Flip(pieces)[1..] == Flip(pieces[1..]);
      assert spans[1..] == Spans(pieces[1..], spans[0].end);
    }
  }

  lemma SliceMiddle(a: string, b: string, c: string, d: string)
    ensures Slice(a + b + c + d, |a + b|, |a + b| + |c|) == c
  {
    assert (a + b + c + d)[|a + b|..|a + b| + |c|] == c;
  }

  lemma AcceptsCons(text: string, e: Edit, rest: Edits, previousEnd: int, delta: int)
    ensures Accepts(text, [e] + rest, previousEnd, delta) <==>
      && e.start >= previousEnd && e.end - e.start == |e.before|
      && Slice(text, e.start + delta, e.start + delta + |e.after|) == e.after
      && Accepts(text, rest, e.end, delta + Growth(e))
  {
    assert ([e] + rest)[1..] == rest;
  }

  function SpanOf(p: Piece, from: int): Edit {
    Edit(from + |p.gap|, from + |p.gap| + |p.before|, p.before, p.after)
  }

  lemma PiecesCons(p: Piece, rest: seq<Piece>, tail: string, from: int)
    ensures Spans([p] + rest, from) == [SpanOf(p, from)] + Spans(rest, SpanOf(p, from).end)
    ensures Output([p] + rest, tail) == p.gap + p.after + Output(rest, tail)
  {
    assert ([p] + rest)[1..] == rest;
  }

  lemma SpansNil(from: int)
    ensures Spans([], from) == []
  {
  }

  lemma SpanGrowth(p: Piece, from: int)
    ensures Growth(SpanOf(p, from)) == |p.after| - |p.before|
  {
  }

  lemma {:induction false} OutputIsAccepted(prefix: string, pieces: seq<Piece>, tail: string, previousEnd: int)
    ensures Accepts(prefix + Output(pieces, tail), Spans(pieces, previousEnd), previousEnd, |prefix| - previousEnd)
    decreases |pieces|
  {
    hide *;
    if pieces == [] {
      SpansNil(previousEnd);
      AcceptsNil(prefix + Output(pieces, tail), previousEnd, |prefix| - previousEnd);
    } else {
      var p, rest := pieces[0], pieces[1..];
      var longer, e := prefix + p.gap + p.after, SpanOf(p, previousEnd);
      assert pieces == [p] + rest;
      PiecesCons(p, rest, tail, previousEnd);
      SpanGrowth(p, previousEnd);
      SpanShape(p, previousEnd);
      OutputIsAccepted(longer, rest, tail, e.end);
      Regroup(prefix, p.gap, p.after, Output(rest, tail));
      SliceMiddle(prefix, p.gap, p.after, Output(rest, tail));
      AcceptsCons(prefix + Output(pieces, tail), e, Spans(rest, e.end), previousEnd, |prefix| - previousEnd);
    }
  }

  lemma SpanShape(p: Piece, from: int)
    ensures SpanOf(p, from) == Edit(from + |p.gap|, from + |p.gap| + |p.before|, p.before, p.after)
  {
  }

  lemma RewriteSource(pieces: seq<Piece>, tail: string)
    ensures ApplyReversed(Source(pieces, tail), Spans(pieces, 0)) == Output(pieces, tail)
  {
    ReversedIsSubstitution("", pieces, tail);
    assert "" + Source(pieces, tail) == Source(pieces, tail);
    assert "" + Output(pieces, tail) == Output(pieces, tail);
  }

  lemma AcceptOutput(pieces: seq<Piece>, tail: string)
    ensures Accepts(Output(pieces, tail), Spans(pieces, 0), 0, 0)
  {
    hide *;
    OutputIsAccepted("", pieces, tail, 0);
    assert "" + Output(pieces, tail) == Output(pieces, tail);
  }

  /** Undoing a substitution: the recorded edits are accepted on its result, and the
      inverse edits bring the source back. */
  lemma OutputIsRestored(pieces: seq<Piece>, tail: string)
    ensures ApplyReversed(Source(pieces, tail), Spans(pieces, 0)) == Output(pieces, tail)
    ensures Restored(Output(pieces, tail), Spans(pieces, 0)) == Some(Source(pieces, tail))
  {
    hide Accepts, ApplyReversed, Inverse, Source, Output, Spans, Flip;
    RewriteSource(pieces, tail);
    AcceptOutput(pieces, tail);
    FlipSwaps(pieces, tail, 0, 0);
    RewriteSource(Flip(pieces), tail);
  }

  /** The edits are ordered, disjoint, lie inside `text[from..]` and quote what they replace. */
  ghost predicate Fits(text: string, edits: Edits, from: int) {
    && 0 <= from <= |text|
    && (edits != [] ==>
      && from <= edits[0].start <= edits[0].end <= |text|
      && text[edits[0].start..edits[0].end] == edits[0].before
      && Fits(text, edits[1..], edits[0].end))
  }

  lemma ThreeParts(text: string, from: nat, lo: nat, hi: nat)
    requires from <= lo <= hi <= |text|
    ensures text[from..] == text[from..lo] + text[lo..hi] + text[hi..]
  {
  }

  /** Fitting edits cut the text into pieces. */
  lemma {:induction false} Cut(text: string, edits: Edits, from: int) returns (pieces: seq<Piece>, tail: string)
    requires Fits(text, edits, from)
    ensures text[from..] == Source(pieces, tail) && edits == Spans(pieces, from)
  {
    if edits == [] {
      pieces, tail := [], text[from..];
    } else {
      var e := edits[0];
      var rest;
      rest, tail := Cut(text, edits[1..], e.end);
      pieces := [Piece(text[from..e.start], e.before, e.after)] + rest;
      ThreeParts(text, from, e.start, e.end);
      assert pieces[1..] == rest && edits == [e] + edits[1..];
    }
  }

  /** Restoring accepts the result of rewriting by fitting edits, and returns the original. */
  lemma RestoreUndoesRewrite(text: string, edits: Edits)
    requires Fits(text, edits, 0)
    ensures Restored(ApplyReversed(text, edits), edits) == Some(text)
  {
    var pieces, tail := Cut(text, edits, 0);
    assert text[0..] == text;
    OutputIsRestored(pieces, tail);
  }

  lemma {:induction false} OutputLength(pieces: seq<Piece>, tail: string, from: int)
    ensures |Output(pieces, tail)| == |Source(pieces, tail)| + Net(Spans(pieces, from))
  {
    if pieces != [] {
      var p, rest, end := pieces[0], pieces[1..], from + |pieces[0].gap| + |pieces[0].before|;
      OutputLength(rest, tail, end);
      assert Spans(pieces, from)[1..] == Spans(rest, end);
    }
  }

  /** Rewriting by fitting edits changes the length by what each replacement adds. */
  lemma RewrittenLength(text: string, edits: Edits)
    requires Fits(text, edits, 0)
    ensures |ApplyReversed(text, edits)| == |text| + Net(edits)
  {
    var pieces, tail := Cut(text, edits, 0);
    assert text[0..] == text && "" + text == text && "" + Output(pieces, tail) == Output(pieces, tail);
    ReversedIsSubstitution("", pieces, tail);
    OutputLength(pieces, tail, 0);
  }

  // ---- The converse: what an accepted undo guarantees ----

  /** Every edit that replaced something had its replacement looked up inside the text. */
  ghost predicate QuotedInside(text: string, edits: Edits, delta: int) {
    edits != [] ==>
    && (edits[0].before != "" ==> edits[0].start + delta + |edits[0].after| <= |text|)
    && QuotedInside(text, edits[1..], delta + Growth(edits[0]))
  }

  ghost predicate AllNonempty(edits: Edits) {
    forall e :: e in edits ==> e.after != ""
  }

  lemma {:induction false} NonemptyIsInside(text: string, edits: Edits, previousEnd: int, delta: int)
    requires Accepts(text, edits, previousEnd, delta) && AllNonempty(edits) && 0 <= previousEnd
    requires 0 <= previousEnd + delta
    ensures QuotedInside(text, edits, delta)
  {
    if edits != [] {
      NonemptyIsInside(text, edits[1..], edits[0].end, delta + Growth(edits[0]));
    }
  }

  /** Edits with nothing to quote and nothing to put. */
  ghost predicate Idle(edits: Edits) {
    forall e :: e in edits ==> e.before == "" && e.after == "" && e.start == e.end
  }

  lemma {:induction false} IdleDoesNothing(text: string, edits: Edits)
    requires Idle(edits)
    ensures ApplyReversed(text, edits) == text
  {
    if edits != [] {
      IdleDoesNothing(text, edits[1..]);
      var c := Clamp(edits[0].start, |text|);
      assert text == text[..c] + text[c..];
    }
  }

  /** Once a check looked past the end of the text, so do all later ones. */
  lemma {:induction false} BeyondIsIdle(text: string, edits: Edits, previousEnd: int, delta: int)
    requires Accepts(text, edits, previousEnd, delta) && QuotedInside(text, edits, delta)
    requires 0 <= previousEnd && |text| < previousEnd + delta
    ensures Idle(edits) && Idle(Inverse(edits, delta))
  {
    if edits != [] {
      BeyondIsIdle(text, edits[1..], edits[0].end, delta + Growth(edits[0]));
    }
  }

  lemma FirstBeyond(text: string, edits: Edits, previousEnd: int, delta: int)
    requires edits != [] && Accepts(text, edits, previousEnd, delta) && QuotedInside(text, edits, delta)
    requires 0 <= previousEnd && 0 <= previousEnd + delta && edits[0].start + delta + |edits[0].after| > |text|
    ensures Idle(edits) && Idle(Inverse(edits, delta))
  {
    var e := edits[0];
    assert e.start + delta > |text| && e.before == e.after == "";
    BeyondIsIdle(text, edits[1..], e.end, delta + Growth(e));
    assert Inverse(edits, delta)[1..] == Inverse(edits[1..], delta + Growth(e));
    assert forall x :: x in edits ==> x == e || x in edits[1..];
    assert forall x :: x in Inverse(edits, delta) ==> x == Inverse(edits, delta)[0] || x in Inverse(edits, delta)[1..];
  }

  /** The leading edits whose replacement was looked up inside the text. */
  ghost function Live(text: string, edits: Edits, delta: int): Edits {
    if edits == [] || edits[0].start + delta + |edits[0].after| > |text| then []
    else [edits[0]] + Live(text, edits[1..], delta + Growth(edits[0]))
  }

  lemma {:induction false} LiveRedoes(text: string, edits: Edits, previousEnd: int, delta: int, x: string)
    requires Accepts(text, edits, previousEnd, delta) && QuotedInside(text, edits, delta)
    requires 0 <= previousEnd && 0 <= previousEnd + delta
    ensures ApplyReversed(x, edits) == ApplyReversed(x, Live(text, edits, delta))
  {
    if edits != [] {
      var e := edits[0];
      if e.start + delta + |e.after| > |text| {
        FirstBeyond(text, edits, previousEnd, delta);
        IdleDoesNothing(x, edits);
      } else {
        LiveRedoes(text, edits[1..], e.end, delta + Growth(e), x);
        assert Live(text, edits, delta)[1..] == Live(text, edits[1..], delta + Growth(e));
      }
    }
  }

  function Flipped(e: Edit, delta: int): Edit {
    Edit(e.start + delta, e.start + delta + |e.after|, e.after, e.before)
  }

  lemma InverseCons(e: Edit, rest: Edits, delta: int)
    ensures Inverse([e] + rest, delta) == [Flipped(e, delta)] + Inverse(rest, delta + Growth(e))
  {
    assert ([e] + rest)[1..] == rest;
  }

  lemma UndoOne(x: string, e: Edit, edits: Edits, delta: int)
    ensures ApplyReversed(x, Inverse([e] + edits, delta))
         == Splice(ApplyReversed(x, Inverse(edits, delta + Growth(e))), Flipped(e, delta))
  {
    InverseCons(e, edits, delta);
    assert Inverse([e] + edits, delta)[1..] == Inverse(edits, delta + Growth(e));
  }

  lemma UndoBeyond(text: string, edits: Edits, previousEnd: int, delta: int, x: string)
    requires edits != [] && Accepts(text, edits, previousEnd, delta) && QuotedInside(text, edits, delta)
    requires 0 <= previousEnd && 0 <= previousEnd + delta && edits[0].start + delta + |edits[0].after| > |text|
    ensures ApplyReversed(x, Inverse(edits, delta)) == x && Live(text, edits, delta) == []
  {
    FirstBeyond(text, edits, previousEnd, delta);
    IdleDoesNothing(x, Inverse(edits, delta));
  }

  lemma {:induction false} LiveUndoes(text: string, edits: Edits, previousEnd: int, delta: int, x: string)
    requires Accepts(text, edits, previousEnd, delta) && QuotedInside(text, edits, delta)
    requires 0 <= previousEnd && 0 <= previousEnd + delta
    ensures ApplyReversed(x, Inverse(edits, delta)) == ApplyReversed(x, Inverse(Live(text, edits, delta), delta))
  {
    hide Splice;
    if edits == [] {
    } else if edits[0].start + delta + |edits[0].after| > |text| {
      UndoBeyond(text, edits, previousEnd, delta, x);
    } else {
      var e, rest := edits[0], edits[1..];
      LiveUndoes(text, rest, e.end, delta + Growth(e), x);
      UndoOne(x, e, rest, delta);
      UndoOne(x, e, Live(text, rest, delta + Growth(e)), delta);
      assert edits == [e] + rest;
    }
  }

  lemma {:induction false} LiveFits(text: string, edits: Edits, previousEnd: int, delta: int)
    requires Accepts(text, edits, previousEnd, delta) && 0 <= previousEnd && 0 <= previousEnd + delta <= |text|
    ensures Fits(text, Inverse(Live(text, edits, delta), delta), previousEnd + delta)
    ensures forall e :: e in Live(text, edits, delta) ==> e.end - e.start == |e.before|
  {
    hide *;
    LiveCases(text, edits, delta);
    if edits == [] || edits[0].start + delta + |edits[0].after| > |text| {
      InverseNil(delta);
      FitsNil(text, previousEnd + delta);
    } else {
      var e, rest := edits[0], edits[1..];
      var live := Live(text, rest, delta + Growth(e));
      assert edits == [e] + rest;
      AcceptsCons(text, e, rest, previousEnd, delta);
      GrowthIs(e);
      LiveFits(text, rest, e.end, delta + Growth(e));
      InverseCons(e, live, delta);
      FlippedIs(e, delta);
      FitsCons(text, Flipped(e, delta), Inverse(live, delta + Growth(e)), previousEnd + delta);
    }
  }

  lemma LiveCases(text: string, edits: Edits, delta: int)
    ensures Live(text, edits, delta) ==
      if edits == [] || edits[0].start + delta + |edits[0].after| > |text| then []
      else [edits[0]] + Live(text, edits[1..], delta + Growth(edits[0]))
  {
  }

  lemma FitsNil(text: string, from: int)
    requires 0 <= from <= |text|
    ensures Fits(text, [], from)
  {
  }

  lemma FlippedIs(e: Edit, delta: int)
    ensures Flipped(e, delta) == Edit(e.start + delta, e.start + delta + |e.after|, e.after, e.before)
  {
  }

  lemma FitsCons(text: string, e: Edit, rest: Edits, from: int)
    requires 0 <= from <= e.start <= e.end <= |text| && Slice(text, e.start, e.end) == e.before
    requires Fits(text, rest, e.end)
    ensures Fits(text, [e] + rest, from)
  {
    assert ([e] + rest)[1..] == rest;
  }

  lemma FlipTwice(e: Edit, delta: int)
    requires e.end - e.start == |e.before|
    ensures Flipped(Flipped(e, delta), -delta) == e && Growth(Flipped(e, delta)) == -Growth(e)
  {
  }

  lemma {:induction false} InverseOfInverse(edits: Edits, delta: int)
    requires forall e :: e in edits ==> e.end - e.start == |e.before|
    ensures Inverse(Inverse(edits, delta), -delta) == edits
  {
    hide *;
    if edits == [] {
      InverseNil(delta);
      InverseNil(-delta);
    } else {
      var e, rest := edits[0], edits[1..];
      InverseOfInverse(rest, delta + Growth(e));
      assert edits == [e] + rest;
      FlipTwice(e, delta);
      InverseCons(e, rest, delta);
      InverseCons(Flipped(e, delta), Inverse(rest, delta + Growth(e)), -delta);
    }
  }

  lemma SpliceLength(text: string, e: Edit, limit: nat)
    requires 0 <= e.start <= e.end && (e.end <= |text| || e.start == e.end)
    requires limit <= e.start && limit <= |text|
    ensures |Splice(text, e)| == |text| + Growth(e)
    ensures Splice(text, e)[..limit] == text[..limit]
  {
  }

  lemma UndoLengthStep(text: string, later: string, e: Edit, previousEnd: int, delta: int)
    requires 0 <= previousEnd <= e.start && 0 <= previousEnd + delta && e.end - e.start == |e.before|
    requires Slice(text, e.start + delta, e.start + delta + |e.after|) == e.after
    requires var inner := Min(e.end + delta + Growth(e), |text|); |later| >= inner && later[..inner] == text[..inner]
    ensures var limit, undone := Min(previousEnd + delta, |text|), Splice(later, Flipped(e, delta));
      |undone| == |later| - Growth(e) && |undone| >= limit && undone[..limit] == text[..limit]
  {
    var limit, inner := Min(previousEnd + delta, |text|), Min(e.end + delta + Growth(e), |text|);
    assert later[..limit] == later[..inner][..limit] == text[..inner][..limit] == text[..limit];
    SpliceLength(later, Flipped(e, delta), limit);
  }

  lemma GrowthIs(e: Edit)
    ensures Growth(e) == |e.after| - (e.end - e.start)
  {
  }

  lemma MinOfBounds(a: int, b: nat)
    ensures Min(a, b) <= b
  {
  }

  lemma NothingToUndo(text: string, delta: int)
    ensures ApplyReversed(text, Inverse([], delta)) == text && Net([]) == 0
  {
  }

  lemma NetCons(e: Edit, rest: Edits)
    ensures Net([e] + rest) == Growth(e) + Net(rest)
  {
    assert ([e] + rest)[1..] == rest;
  }

  lemma {:induction false} UndoLength(text: string, edits: Edits, previousEnd: int, delta: int)
    requires Accepts(text, edits, previousEnd, delta) && 0 <= previousEnd && 0 <= previousEnd + delta
    ensures var undone := ApplyReversed(text, Inverse(edits, delta)); var limit := Min(previousEnd + delta, |text|);
      |undone| == |text| - Net(edits) && |undone| >= limit && undone[..limit] == text[..limit]
  {
    hide *;
    if edits == [] {
      NothingToUndo(text, delta);
      MinOfBounds(previousEnd + delta, |text|);
    } else {
      var e, rest := edits[0], edits[1..];
      assert edits == [e] + rest;
      AcceptsCons(text, e, rest, previousEnd, delta);
      GrowthIs(e);
      UndoLength(text, rest, e.end, delta + Growth(e));
      UndoOne(text, e, rest, delta);
      NetCons(e, rest);
      UndoLengthStep(text, ApplyReversed(text, Inverse(rest, delta + Growth(e))), e, previousEnd, delta);
    }
  }

  lemma {:induction false} RedoLength(text: string, edits: Edits, j: nat)
    requires forall e :: e in edits ==> 0 <= e.start && e.end - e.start == |e.before|
    requires j < |edits| && edits[j].before != "" && edits[j].end > |text| && Idle(edits[j + 1..])
    ensures |ApplyReversed(text, edits)| > |text| + Net(edits)
  {
    if j == 0 {
      IdleDoesNothing(text, edits[1..]);
      IdleNet(edits[1..]);
    } else {
      assert edits[1..][j..] == edits[j + 1..];
      RedoLength(text, edits[1..], j - 1);
    }
  }

  lemma {:induction false} IdleNet(edits: Edits)
    requires Idle(edits)
    ensures Net(edits) == 0
  {
    if edits != [] { IdleNet(edits[1..]); }
  }

  lemma {:induction false} LastUnquoted(text: string, edits: Edits, previousEnd: int, delta: int) returns (j: nat)
    requires Accepts(text, edits, previousEnd, delta) && !QuotedInside(text, edits, delta)
    requires 0 <= previousEnd && 0 <= previousEnd + delta
    ensures j < |edits| && edits[j].before != "" && Idle(edits[j + 1..])
    ensures edits[j].end > |text| - delta - Net(edits)
  {
    var e, rest := edits[0], edits[1..];
    if QuotedInside(text, rest, delta + Growth(e)) {
      j := 0;
      BeyondIsIdle(text, rest, e.end, delta + Growth(e));
      IdleNet(rest);
    } else {
      var i := LastUnquoted(text, rest, e.end, delta + Growth(e));
      j := i + 1;
      assert edits[j + 1..] == rest[i + 1..];
    }
  }

  lemma {:induction false} AcceptedSpans(text: string, edits: Edits, previousEnd: int, delta: int)
    requires Accepts(text, edits, previousEnd, delta) && 0 <= previousEnd
    ensures forall e :: e in edits ==> 0 <= e.start && e.end - e.start == |e.before|
    ensures forall i, j :: 0 <= i < j < |edits| ==> edits[i].end <= edits[j].start
    ensures forall i :: 0 <= i < |edits| ==> previousEnd <= edits[i].start
  {
    if edits != [] { AcceptedSpans(text, edits[1..], edits[0].end, delta + Growth(edits[0])); }
  }

  /** Overlapping, unordered or negative spans are never accepted. */
  lemma OverlapIsRejected(text: string, edits: Edits, i: nat, j: nat)
    requires j < |edits| && (edits[j].start < 0 || (i < j && edits[j].start < edits[i].end))
    ensures Restored(text, edits) == None
  {
    if Accepts(text, edits, 0, 0) { AcceptedSpans(text, edits, 0, 0); }
  }

  lemma InverseRestores(text: string, live: Edits)
    requires Fits(text, Inverse(live, 0), 0) && forall e :: e in live ==> e.end - e.start == |e.before|
    ensures ApplyReversed(ApplyReversed(text, Inverse(live, 0)), live) == text
  {
    InverseOfInverse(live, 0);
    RestoreUndoesRewrite(text, Inverse(live, 0));
  }

  lemma RedoInside(text: string, edits: Edits)
    requires Accepts(text, edits, 0, 0) && QuotedInside(text, edits, 0)
    ensures ApplyReversed(ApplyReversed(text, Inverse(edits, 0)), edits) == text
  {
    var live := Live(text, edits, 0);
    LiveFits(text, edits, 0, 0);
    InverseRestores(text, live);
    LiveUndoes(text, edits, 0, 0, text);
    LiveRedoes(text, edits, 0, 0, ApplyReversed(text, Inverse(live, 0)));
  }

  /** Redoing an accepted undo gives the rewritten text back exactly when every edit that
      replaced something was looked up inside the text; a list whose replacements are all
      nonempty always meets that. */
  lemma RewriteUndoesRestore(text: string, edits: Edits)
    requires Restored(text, edits).Some?
    ensures ApplyReversed(Restored(text, edits).value, edits) == text <==> QuotedInside(text, edits, 0)
    ensures AllNonempty(edits) ==> ApplyReversed(Restored(text, edits).value, edits) == text
  {
    if AllNonempty(edits) { NonemptyIsInside(text, edits, 0, 0); }
    if QuotedInside(text, edits, 0) {
      RedoInside(text, edits);
    } else {
      UndoLength(text, edits, 0, 0);
      AcceptedSpans(text, edits, 0, 0);
      var j := LastUnquoted(text, edits, 0, 0);
      RedoLength(Restored(text, edits).value, edits, j);
    }
  }

  /** The exception is real: an edit recorded past the end with an empty replacement is
      accepted, and restoring it adds text that redoing does not remove. */
  lemma AcceptedButNotRedone()
    ensures Restored("ab", [Edit(5, 6, "x", "")]) == Some("abx")
    ensures ApplyReversed("abx", [Edit(5, 6, "x", "")]) == "abx" != "ab"
  {
    var e := Edit(5, 6, "x", "");
    assert [e][1..] == [] && Inverse([], -1) == [];
    assert Splice("ab", Edit(5, 5, "", "x")) == "abx" && Splice("abx", e) == "abx";
    assert Inverse([e], 0) == [Edit(5, 5, "", "x")];
    assert [Edit(5, 5, "", "x")][1..] == [];
    assert Accepts("ab", [e][1..], 6, -1);
    assert ApplyReversed("ab", []) == "ab" && ApplyReversed("abx", []) == "abx";
  }
}
