/** Splitting an excerpt into clause units with a carried scope, and the units from which an
    event may take its date.  The text patterns themselves are parameters. */
module ClauseUnits {
  import opened Prelude

  datatype Scope = Aligned | Different | Unresolved | NotRequested

  datatype Unit = Unit(start: nat, end: nat, text: string, sentence: string, scope: Scope, date: bool)

  /** Where sentences end, where conjunctions and commas begin inside a sentence, and what the
      patterns say of a clause. */
  datatype Grammar = Grammar(
    ends: string -> seq<nat>,
    splits: string -> seq<nat>,
    subjects: bool,
    names: string -> Scope,
    dated: string -> bool,
    unknownDate: string -> bool,
    coordinated: string -> bool,
    completed: (string, string) -> bool)

  /** Match positions in ascending order, none past the end. */
  predicate Cuts(at: seq<nat>, n: nat) {
    && (forall i :: 0 <= i < |at| ==> at[i] <= n)
    && (forall i, j :: 0 <= i < j < |at| ==> at[i] <= at[j])
  }

  ghost predicate WellFormed(g: Grammar) {
    && (forall e :: Cuts(g.ends(e), |e|))
    && (forall s :: Cuts(g.splits(s), |s|))
    && (forall t :: g.names(t) != NotRequested)
  }

  /** `_scope`. */
  function Local(g: Grammar, text: string): Scope {
    if g.subjects then g.names(text) else NotRequested
  }

  predicate Explicit(s: Scope) {
    s != Unresolved && s != NotRequested
  }

  function Initial(g: Grammar): Scope {
    if g.subjects then Unresolved else NotRequested
  }

  // ---- Tiling and carried scope ----

  /** The last explicit scope among the units. */
  function Carried(g: Grammar, units: seq<Unit>): Scope {
    if units == [] then Initial(g)
    else
      var last := units[|units| - 1];
      if Explicit(Local(g, last.text)) then Local(g, last.text) else Carried(g, units[..|units| - 1])
  }

  function DueScope(g: Grammar, units: seq<Unit>, text: string): Scope {
    if Local(g, text) == Unresolved then Carried(g, units) else Local(g, text)
  }

  /** Contiguous units from the beginning of the excerpt up to `upTo`, each with its own text. */
  ghost predicate Tiles(units: seq<Unit>, excerpt: string, upTo: nat) {
    && upTo <= |excerpt|
    && (units == [] ==> upTo == 0)
    && (units != [] ==> units[0].start == 0 && units[|units| - 1].end == upTo)
    && (forall i :: 0 <= i < |units| - 1 ==> units[i].end == units[i + 1].start)
    && (forall i :: 0 <= i < |units| ==>
         units[i].start <= units[i].end <= |excerpt| && units[i].text == excerpt[units[i].start..units[i].end])
  }

  ghost predicate Marked(g: Grammar, units: seq<Unit>) {
    forall i :: 0 <= i < |units| ==>
      units[i].scope == DueScope(g, units[..i], units[i].text) && units[i].date == g.dated(units[i].text)
  }

  function Left(g: Grammar, excerpt: string, k: nat): nat {
    if 0 < k <= |g.ends(excerpt)| then g.ends(excerpt)[k - 1] else 0
  }

  function Right(g: Grammar, excerpt: string, k: nat): nat {
    if k < |g.ends(excerpt)| then g.ends(excerpt)[k] else |excerpt|
  }

  /** A unit lies in the sentence of that number, and carries its text. */
  ghost predicate InSentence(g: Grammar, excerpt: string, u: Unit, k: nat) {
    && k <= |g.ends(excerpt)| && Left(g, excerpt, k) <= u.start && u.end <= Right(g, excerpt, k)
    && Left(g, excerpt, k) <= Right(g, excerpt, k) <= |excerpt|
    && u.sentence == excerpt[Left(g, excerpt, k)..Right(g, excerpt, k)]
  }

  /** The number of every unit's sentence; a later sentence begins with its first part. */
  ghost predicate Placed(g: Grammar, excerpt: string, units: seq<Unit>, place: seq<nat>) {
    && |place| == |units|
    && (forall i :: 0 <= i < |units| ==> InSentence(g, excerpt, units[i], place[i]))
    && (forall i :: 0 < i < |units| ==> place[i] == place[i - 1] || units[i].text == FirstPart(g, units[i].sentence))
  }

  function Texts(units: seq<Unit>): string {
    if units == [] then "" else Texts(units[..|units| - 1]) + units[|units| - 1].text
  }

  lemma {:induction false} TilesConcatenate(units: seq<Unit>, excerpt: string, upTo: nat)
    requires Tiles(units, excerpt, upTo)
    ensures Texts(units) == excerpt[..upTo]
  {
    if units != [] {
      var init, last := units[..|units| - 1], units[|units| - 1];
      assert init != [] ==> init[|init| - 1].end == last.start;
      TilesConcatenate(init, excerpt, last.start);
      assert excerpt[..last.start] + excerpt[last.start..last.end] == excerpt[..upTo];
    }
  }

  lemma TileOneMore(g: Grammar, units: seq<Unit>, excerpt: string, left: nat, u: Unit)
    requires Tiles(units, excerpt, left) && Marked(g, units)
    requires u.start == left <= u.end <= |excerpt| && u.text == excerpt[left..u.end]
    requires u.scope == DueScope(g, units, u.text) && u.date == g.dated(u.text)
    ensures Tiles(units + [u], excerpt, u.end) && Marked(g, units + [u])
  {
    var more := units + [u];
    assert more[..|units|] == units;
    forall i | 0 <= i < |more|
      ensures more[i].scope == DueScope(g, more[..i], more[i].text) && more[i].date == g.dated(more[i].text)
    {
      assert i < |units| ==> more[..i] == units[..i];
    }
  }

  lemma CarryOneMore(g: Grammar, units: seq<Unit>, u: Unit)
    ensures Carried(g, units + [u]) == if Explicit(Local(g, u.text)) then Local(g, u.text) else Carried(g, units)
  {
    assert (units + [u])[..|units|] == units;
  }

  /** The carried scope is that of the last clause with an explicit one. */
  lemma {:induction false} CarriedIsLastExplicit(g: Grammar, units: seq<Unit>)
    ensures (exists j :: 0 <= j < |units| && Explicit(Local(g, units[j].text))
               && Carried(g, units) == Local(g, units[j].text)
               && forall k :: j < k < |units| ==> !Explicit(Local(g, units[k].text)))
         || ((forall j :: 0 <= j < |units| ==> !Explicit(Local(g, units[j].text))) && Carried(g, units) == Initial(g))
  {
    if units != [] {
      var n := |units| - 1;
      if !Explicit(Local(g, units[n].text)) {
        CarriedIsLastExplicit(g, units[..n]);
        assert forall j :: 0 <= j < n ==> units[..n][j] == units[j];
      }
    }
  }

  /** Without subjects nothing is asked for.  With subjects a clause that says whom it is about has
      that scope, and any other one has the scope of the last clause before it that does. */
  ghost predicate ScopedAt(g: Grammar, units: seq<Unit>, i: nat)
    requires i < |units|
  {
    var own, scope := g.names(units[i].text), units[i].scope;
    if !g.subjects then scope == NotRequested
    else if own == Aligned || own == Different then scope == own
    else
      || (scope == Unresolved && forall j :: 0 <= j < i ==> g.names(units[j].text) == Unresolved)
      || exists j: nat :: LastNamed(g, units, j, i) && scope == g.names(units[j].text)
  }

  ghost predicate LastNamed(g: Grammar, units: seq<Unit>, j: nat, i: nat)
    requires i <= |units|
  {
    && j < i && g.names(units[j].text) != Unresolved
    && forall k :: j < k < i ==> g.names(units[k].text) == Unresolved
  }

  lemma MarkedIsScoped(g: Grammar, units: seq<Unit>, i: nat)
    requires WellFormed(g) && Marked(g, units) && i < |units|
    ensures ScopedAt(g, units, i)
  {
    var before := units[..i];
    assert forall j :: 0 <= j < i ==> before[j] == units[j];
    CarriedIsLastExplicit(g, before);
    assert units[i].scope == DueScope(g, before, units[i].text);
    if exists j: nat :: j < i && Explicit(Local(g, before[j].text)) && Carried(g, before) == Local(g, before[j].text)
        && forall k :: j < k < i ==> !Explicit(Local(g, before[k].text)) {
      var j: nat :| j < i && Explicit(Local(g, before[j].text)) && Carried(g, before) == Local(g, before[j].text)
        && forall k :: j < k < i ==> !Explicit(Local(g, before[k].text));
      assert g.subjects ==> LastNamed(g, units, j, i);
    }
  }

  lemma MarkedHasDate(g: Grammar, units: seq<Unit>, i: nat)
    requires Marked(g, units) && i < |units|
    ensures units[i].date == g.dated(units[i].text)
  {
  }

  // ---- The two loops ----

  /** The unit of one clause, and the scope carried past it. */
  method NextClause(g: Grammar, excerpt: string, sentence: string, partLeft: nat, partEnd: nat, ghost units: seq<Unit>,
    inherited: Scope)
    returns (u: Unit, carried: Scope)
    requires partLeft <= partEnd <= |excerpt| && Tiles(units, excerpt, partLeft) && Marked(g, units)
    requires inherited == Carried(g, units)
    ensures Tiles(units + [u], excerpt, partEnd) && Marked(g, units + [u]) && carried == Carried(g, units + [u])
    ensures u.start == partLeft && u.end == partEnd && u.text == excerpt[partLeft..partEnd] && u.sentence == sentence
  {
    var raw := excerpt[partLeft..partEnd];
    var here := Local(g, raw);
    carried := if here != Unresolved && here != NotRequested then here else inherited;
    var scope := if here == Unresolved then carried else here;
    u := Unit(partLeft, partEnd, raw, sentence, scope, g.dated(raw));
    TileOneMore(g, units, excerpt, partLeft, u);
    CarryOneMore(g, units, u);
  }

  function PartEnd(g: Grammar, sentence: string, i: int): nat {
    var splits := g.splits(sentence);
    if i < 0 then 0 else if i < |splits| then splits[i] else |sentence|
  }

  /** What precedes the first conjunction or comma of a sentence. */
  function FirstPart(g: Grammar, sentence: string): string {
    sentence[..Min(PartEnd(g, sentence, 0), |sentence|)]
  }

  lemma FirstPartIs(g: Grammar, excerpt: string, left: nat, end: nat)
    requires left <= end <= |excerpt| && PartEnd(g, excerpt[left..end], 0) <= end - left
    ensures FirstPart(g, excerpt[left..end]) == excerpt[left..left + PartEnd(g, excerpt[left..end], 0)]
  {
  }

  /** The later units all belong to one stretch of text. */
  ghost predicate Within(units: seq<Unit>, from: nat, left: nat, end: nat, sentence: string) {
    forall j :: from <= j < |units| ==> left <= units[j].start && units[j].end <= end && units[j].sentence == sentence
  }

  function Ends(units: seq<Unit>): (r: seq<nat>)
    ensures |r| == |units|
  {
    seq(|units|, i requires 0 <= i < |units| => units[i].end)
  }

  /** Where the clauses of a sentence end: at every split, and at its end. */
  function PartEnds(g: Grammar, sentence: string, left: nat): (r: seq<nat>)
    ensures |r| == |g.splits(sentence)| + 1
  {
    seq(|g.splits(sentence)| + 1, j requires 0 <= j => left + PartEnd(g, sentence, j))
  }

  /** Where the clauses of the first `k` sentences end. */
  function AllEnds(g: Grammar, excerpt: string, k: nat): seq<nat> {
    if k == 0 then []
    else AllEnds(g, excerpt, k - 1) + PartEnds(g, SentenceAt(g, excerpt, k - 1), Left(g, excerpt, k - 1))
  }

  function SentenceAt(g: Grammar, excerpt: string, k: nat): string {
    var left, right := Left(g, excerpt, k), Right(g, excerpt, k);
    if left <= right <= |excerpt| then excerpt[left..right] else ""
  }

  /** `i` clauses of the sentence follow the earlier units. */
  ghost predicate Grown(g: Grammar, units: seq<Unit>, before: seq<Unit>, i: nat, left: nat, end: nat,
    sentence: string)
  {
    && before <= units && |units| == |before| + i && Within(units, |before|, left, end, sentence)
    && (i > 0 ==> units[|before|].text == FirstPart(g, sentence))
    && forall j :: 0 <= j < i ==> units[|before| + j].end == left + PartEnd(g, sentence, j)
  }

  lemma GrownOneMore(g: Grammar, units: seq<Unit>, before: seq<Unit>, i: nat, left: nat, end: nat, sentence: string,
    u: Unit)
    requires Grown(g, units, before, i, left, end, sentence)
    requires left <= u.start && u.end <= end && u.sentence == sentence && (i == 0 ==> u.text == FirstPart(g, sentence))
    requires u.end == left + PartEnd(g, sentence, i)
    ensures Grown(g, units + [u], before, i + 1, left, end, sentence)
  {
  }

  /** One round of the inner loop. */
  method NextPart(g: Grammar, excerpt: string, left: nat, end: nat, partLeft: nat, i: nat, ghost before: seq<Unit>,
    units: seq<Unit>, inherited: Scope)
    returns (more: seq<Unit>, carried: Scope, partEnd: nat)
    requires left <= end <= |excerpt| && Cuts(g.splits(excerpt[left..end]), end - left)
    requires partLeft == left + PartEnd(g, excerpt[left..end], i - 1)
    requires Tiles(units, excerpt, partLeft) && Marked(g, units) && inherited == Carried(g, units)
    requires Grown(g, units, before, i, left, end, excerpt[left..end])
    ensures partEnd == left + PartEnd(g, excerpt[left..end], i) <= end
    ensures Tiles(more, excerpt, partEnd) && Marked(g, more) && carried == Carried(g, more)
    ensures Grown(g, more, before, i + 1, left, end, excerpt[left..end])
  {
    var sentence := excerpt[left..end];
    PartEndsAscend(g, sentence, i);
    partEnd := left + PartEnd(g, sentence, i);
    var u: Unit;
    u, carried := NextClause(g, excerpt, sentence, partLeft, partEnd, units, inherited);
    if i == 0 { FirstPartIs(g, excerpt, left, end); }
    GrownOneMore(g, units, before, i, left, end, sentence, u);
    more := units + [u];
  }

  /** The clauses of one sentence. */
  method SentenceUnits(g: Grammar, excerpt: string, left: nat, end: nat, before: seq<Unit>, carried: Scope)
    returns (units: seq<Unit>, inherited: Scope)
    requires left <= end <= |excerpt| && Cuts(g.splits(excerpt[left..end]), end - left)
    requires Tiles(before, excerpt, left) && Marked(g, before) && carried == Carried(g, before)
    ensures before < units && Tiles(units, excerpt, end) && Marked(g, units) && inherited == Carried(g, units)
    ensures Within(units, |before|, left, end, excerpt[left..end])
    ensures units[|before|].text == FirstPart(g, excerpt[left..end])
    ensures Ends(units) == Ends(before) + PartEnds(g, excerpt[left..end], left)
  {
    hide Grown, Tiles, Marked, Carried, PartEnd, PartEnds, Ends, FirstPart, Within;
    var n := |g.splits(excerpt[left..end])|;
    units, inherited := before, carried;
    NothingGrown(g, before, left, end, excerpt[left..end]);
    var partLeft: nat := left;
    for i := 0 to n + 1
      invariant partLeft == left + PartEnd(g, excerpt[left..end], i - 1) <= end
      invariant Tiles(units, excerpt, partLeft) && Marked(g, units) && inherited == Carried(g, units)
      invariant Grown(g, units, before, i, left, end, excerpt[left..end])
    {
      units, inherited, partLeft := NextPart(g, excerpt, left, end, partLeft, i, before, units, inherited);
    }
    AllGrown(g, units, before, left, end, excerpt[left..end]);
  }

  lemma NothingGrown(g: Grammar, before: seq<Unit>, left: nat, end: nat, sentence: string)
    ensures Grown(g, before, before, 0, left, end, sentence) && PartEnd(g, sentence, -1) == 0
  {
  }

  lemma AllGrown(g: Grammar, units: seq<Unit>, before: seq<Unit>, left: nat, end: nat, sentence: string)
    requires Grown(g, units, before, |g.splits(sentence)| + 1, left, end, sentence)
    ensures before < units && Within(units, |before|, left, end, sentence)
    ensures units[|before|].text == FirstPart(g, sentence)
    ensures Ends(units) == Ends(before) + PartEnds(g, sentence, left)
    ensures PartEnd(g, sentence, |g.splits(sentence)|) == |sentence|
  {
  }

  lemma PartEndsAscend(g: Grammar, sentence: string, i: nat)
    requires Cuts(g.splits(sentence), |sentence|)
    ensures PartEnd(g, sentence, i - 1) <= PartEnd(g, sentence, i) <= |sentence|
  {
  }

  lemma SentenceEndsAscend(g: Grammar, excerpt: string, k: nat)
    requires WellFormed(g) && k <= |g.ends(excerpt)|
    ensures Left(g, excerpt, k) <= Right(g, excerpt, k) <= |excerpt|
    ensures Left(g, excerpt, k + 1) == if k < |g.ends(excerpt)| then Right(g, excerpt, k) else 0
    ensures k == |g.ends(excerpt)| ==> Right(g, excerpt, k) == |excerpt|
    ensures AllEnds(g, excerpt, k + 1)
         == AllEnds(g, excerpt, k) + PartEnds(g, SentenceAt(g, excerpt, k), Left(g, excerpt, k))
    ensures var left, right := Left(g, excerpt, k), Right(g, excerpt, k);
      Cuts(g.splits(excerpt[left..right]), right - left)
  {
    assert Cuts(g.ends(excerpt), |excerpt|);
    var s := excerpt[Left(g, excerpt, k)..Right(g, excerpt, k)];
    assert Cuts(g.splits(s), |s|);
  }

  lemma PlaceSentence(g: Grammar, excerpt: string, units: seq<Unit>, place: seq<nat>, more: seq<Unit>, k: nat,
    extra: seq<nat>)
    requires Placed(g, excerpt, units, place) && units < more && k <= |g.ends(excerpt)|
    requires Left(g, excerpt, k) <= Right(g, excerpt, k) <= |excerpt|
    requires var left, right := Left(g, excerpt, k), Right(g, excerpt, k);
      Within(more, |units|, left, right, excerpt[left..right])
    requires more[|units|].text == FirstPart(g, excerpt[Left(g, excerpt, k)..Right(g, excerpt, k)])
    requires |extra| == |more| - |units| && forall i :: 0 <= i < |extra| ==> extra[i] == k
    ensures Placed(g, excerpt, more, place + extra)
  {
    var all := place + extra;
    forall i | 0 <= i < |more| ensures InSentence(g, excerpt, more[i], all[i]) {
      assert i < |units| ==> more[i] == units[i];
    }
    forall i | 0 < i < |more| ensures all[i] == all[i - 1] || more[i].text == FirstPart(g, more[i].sentence) {
      assert i < |units| ==> more[i] == units[i];
    }
  }

  /** One round of the outer loop. */
  method NextSentence(g: Grammar, excerpt: string, k: nat, left: nat, units: seq<Unit>, inherited: Scope,
    ghost place: seq<nat>)
    returns (more: seq<Unit>, carried: Scope, end: nat, ghost places: seq<nat>)
    requires k <= |g.ends(excerpt)| && left == Left(g, excerpt, k) <= Right(g, excerpt, k) <= |excerpt|
    requires Cuts(g.splits(excerpt[left..Right(g, excerpt, k)]), Right(g, excerpt, k) - left)
    requires Tiles(units, excerpt, left) && Marked(g, units) && inherited == Carried(g, units)
    requires Placed(g, excerpt, units, place)
    ensures end == Right(g, excerpt, k) <= |excerpt|
    ensures Tiles(more, excerpt, end) && Marked(g, more) && carried == Carried(g, more)
    ensures Placed(g, excerpt, more, places)
    ensures Ends(more) == Ends(units) + PartEnds(g, SentenceAt(g, excerpt, k), left)
  {
    end := if k < |g.ends(excerpt)| then g.ends(excerpt)[k] else |excerpt|;
    more, carried := SentenceUnits(g, excerpt, left, end, units, inherited);
    ghost var extra := seq(|more| - |units|, _ => k as nat);
    PlaceSentence(g, excerpt, units, place, more, k, extra);
    places := place + extra;
  }

  lemma NoUnits(g: Grammar, excerpt: string)
    ensures Tiles([], excerpt, 0) && Marked(g, []) && Placed(g, excerpt, [], []) && Carried(g, []) == Initial(g)
    ensures Left(g, excerpt, 0) == 0 && Ends([]) == AllEnds(g, excerpt, 0)
  {
  }

  /** `_units`: the units end at every split and every sentence end and tile the excerpt, each
      has the last explicit scope at or before it, and each lies in its sentence. */
  method Units(g: Grammar, excerpt: string) returns (units: seq<Unit>, ghost place: seq<nat>)
    requires WellFormed(g)
    ensures Tiles(units, excerpt, |excerpt|) && Texts(units) == excerpt
    ensures Marked(g, units) && Placed(g, excerpt, units, place)
    ensures forall i :: 0 <= i < |units| ==> ScopedAt(g, units, i) && units[i].date == g.dated(units[i].text)
    ensures Ends(units) == AllEnds(g, excerpt, |g.ends(excerpt)| + 1)
  {
    hide *;
    var n := |g.ends(excerpt)|;
    var inherited := Initial(g);
    var left: nat := 0;
    units, place := [], [];
    NoUnits(g, excerpt);
    for k := 0 to n + 1
      invariant left == if k <= n then Left(g, excerpt, k) else |excerpt|
      invariant Tiles(units, excerpt, left) && Marked(g, units) && inherited == Carried(g, units)
      invariant Placed(g, excerpt, units, place) && Ends(units) == AllEnds(g, excerpt, k)
    {
      SentenceEndsAscend(g, excerpt, k);
      units, inherited, left, place := NextSentence(g, excerpt, k, left, units, inherited, place);
    }
    TilesConcatenate(units, excerpt, |excerpt|);
    forall i | 0 <= i < |units| ensures ScopedAt(g, units, i) && units[i].date == g.dated(units[i].text) {
      MarkedIsScoped(g, units, i);
      MarkedHasDate(g, units, i);
    }
    assert excerpt[..|excerpt|] == excerpt;
  }

  // ---- The date of an event ----

  /** `_event_has_date`. */
  function EventHasDate(g: Grammar, units: seq<Unit>, i: nat): bool
    requires i < |units|
    decreases i
  {
    var u := units[i];
    if g.unknownDate(u.text) then false
    else if u.date then true
    else if i == 0 || !g.coordinated(u.text) then false
    else
      var previous := units[i - 1];
      previous.sentence == u.sentence && previous.scope == u.scope
      && g.completed(previous.text, previous.sentence) && EventHasDate(g, units, i - 1)
  }

  /** Unit `k` continues a completed action of the unit before it. */
  predicate Continues(g: Grammar, units: seq<Unit>, k: nat)
    requires 0 < k < |units|
  {
    && g.coordinated(units[k].text)
    && units[k - 1].sentence == units[k].sentence && units[k - 1].scope == units[k].scope
    && g.completed(units[k - 1].text, units[k - 1].sentence)
  }

  /** From a dated unit to unit `i`, each continuing the one before, none with an unknown date. */
  predicate Chain(g: Grammar, units: seq<Unit>, j: nat, i: nat)
    requires j <= i < |units|
  {
    && units[j].date
    && (forall k :: j <= k <= i ==> !g.unknownDate(units[k].text))
    && (forall k :: j < k <= i ==> Continues(g, units, k))
  }

  /** An event has a date exactly when a chain leads back to a dated unit. */
  lemma {:induction false} EventHasDateExactly(g: Grammar, units: seq<Unit>, i: nat)
    requires i < |units|
    ensures EventHasDate(g, units, i) <==> exists j: nat :: j <= i && Chain(g, units, j, i)
  {
    if units[i].date {
      assert !g.unknownDate(units[i].text) ==> Chain(g, units, i, i);
    } else if i > 0 {
      EventHasDateExactly(g, units, i - 1);
      if EventHasDate(g, units, i) {
        var j: nat :| j <= i - 1 && Chain(g, units, j, i - 1);
        assert Continues(g, units, i) && Chain(g, units, j, i);
      }
      if exists j: nat :: j <= i && Chain(g, units, j, i) {
        var j: nat :| j <= i && Chain(g, units, j, i);
        assert Continues(g, units, i) && Chain(g, units, j, i - 1);
      }
    }
  }

  /** A conjunction begins a clause of its own, so the first part of a sentence never begins
      with one. */
  ghost predicate SplitsAtConjunctions(g: Grammar) {
    forall s :: !g.coordinated(FirstPart(g, s))
  }

  /** Comparing the texts of sentences suffices: a chain never leaves its sentence, even when
      neighbouring sentences read alike. */
  lemma {:induction false} ChainStaysInItsSentence(g: Grammar, excerpt: string, units: seq<Unit>, place: seq<nat>,
    j: nat, i: nat)
    requires Placed(g, excerpt, units, place) && SplitsAtConjunctions(g)
    requires j <= i < |units| && Chain(g, units, j, i)
    ensures forall k :: j <= k <= i ==> place[k] == place[j] && units[k].scope == units[j].scope
    decreases i
  {
    if j < i {
      assert Continues(g, units, i) && Chain(g, units, j, i - 1);
      ChainStaysInItsSentence(g, excerpt, units, place, j, i - 1);
    }
  }
}
