/** Functional retrieval metrics: alias collapse before truncation, and the
    top-five and NDCG figures computed from the collapsed ranking. */
module RankingMetrics {
  import opened Prelude

  type Id = string

  /** A search hit names a current path, or none at all. */
  type Hit = Option<string>

  /** The relevance dictionary of one query, in insertion order. */
  datatype Judgments = Judgments(order: seq<Id>, grade: map<Id, nat>) {
    /** What the fixture loader guarantees: every pinned grade is at least one. */
    ghost predicate Valid() {
      && Distinct(order)
      && (forall id :: id in grade <==> id in order)
      && (forall id :: id in grade ==> grade[id] >= 1)
    }

    function Get(id: Id): nat {
      if id in grade then grade[id] else 0
    }
  }

  // ---- Collapsing hits to logical documents ----

  function LogicalId(hit: Hit, entries: map<string, Id>): Id {
    match hit
    case None => "unknown:None"
    case Some(path) => if path in entries then entries[path] else "unknown:" + path
  }

  function LogicalIds(hits: seq<Hit>, entries: map<string, Id>): seq<Id> {
    seq(|hits|, i requires 0 <= i < |hits| => LogicalId(hits[i], entries))
  }

  function FirstIndex<T(==)>(s: seq<T>, x: T): (i: nat)
    requires x in s
    ensures i < |s| && s[i] == x && forall k :: 0 <= k < i ==> s[k] != x
  {
    if s[0] == x then 0 else 1 + FirstIndex(s[1..], x)
  }

  /** `r` lists the members of `s` once each, in the order they first appear. */
  ghost predicate FirstAppearances<T(!new)>(s: seq<T>, r: seq<T>) {
    && Distinct(r)
    && (forall x :: x in r <==> x in s)
    && (forall i, j :: 0 <= i < j < |r| ==> FirstIndex(s, r[i]) < FirstIndex(s, r[j]))
  }

  lemma FirstIndexOfPrefix<T>(s: seq<T>, y: T, x: T)
    requires x in s
    ensures x in s + [y] && FirstIndex(s + [y], x) == FirstIndex(s, x)
  {
    assert (s + [y])[FirstIndex(s, x)] == x;
    assert forall k :: 0 <= k < FirstIndex(s, x) ==> (s + [y])[k] == s[k];
  }

  lemma FirstIndexOfNew<T>(s: seq<T>, y: T)
    requires y !in s
    ensures FirstIndex(s + [y], y) == |s|
  {
    assert forall k :: 0 <= k < |s| ==> (s + [y])[k] == s[k];
  }

  lemma AppearancesExtend<T(!new)>(s: seq<T>, r: seq<T>, y: T)
    requires FirstAppearances(s, r)
    ensures FirstAppearances(s + [y], if y in r then r else r + [y])
  {
    forall x | x in s
      ensures x in s + [y] && FirstIndex(s + [y], x) == FirstIndex(s, x) { FirstIndexOfPrefix(s, y, x); }
    if y !in r { FirstIndexOfNew(s, y); }
  }

  /** The path is in the catalogue. */
  predicate Catalogued(hit: Hit, entries: map<string, Id>) {
    hit.Some? && hit.value in entries
  }

  /** A catalogued hit is shown as the resource its path belongs to, any other one as unknown. */
  ghost predicate Shows(hit: Hit, entries: map<string, Id>, id: Id) {
    if Catalogued(hit, entries) then id == entries[hit.value]
    else id == "unknown:" + (if hit.Some? then hit.value else "None")
  }

  /** The hit takes the place, and every hit before it has an earlier one. */
  ghost predicate FirstAt(places: seq<nat>, h: nat, p: nat) {
    h < |places| && places[h] == p && forall g :: 0 <= g < h ==> places[g] < p
  }

  ghost predicate Taken(places: seq<nat>, p: nat) {
    exists h: nat :: FirstAt(places, h, p)
  }

  /** A place of the ranking for every hit, which shows it there; the places are taken in turn. */
  ghost predicate Placed(hits: seq<Hit>, entries: map<string, Id>, result: seq<Id>, places: seq<nat>) {
    && |places| == |hits|
    && (forall h :: 0 <= h < |hits| ==> places[h] < |result| && Shows(hits[h], entries, result[places[h]]))
    && (forall p: nat :: p < |result| ==> Taken(places, p))
  }

  lemma FirstStays(places: seq<nat>, last: nat, h: nat, p: nat)
    requires FirstAt(places, h, p)
    ensures FirstAt(places + [last], h, p)
  {
  }

  /** A hit shown at a place that is there, or at the next one. */
  lemma PlacedOneMore(hits: seq<Hit>, entries: map<string, Id>, result: seq<Id>, places: seq<nat>, hit: Hit,
    more: seq<Id>, p: nat)
    requires Placed(hits, entries, result, places) && p < |more| && Shows(hit, entries, more[p])
    requires more == result || (more[..|more| - 1] == result && p == |result| == |more| - 1)
    ensures Placed(hits + [hit], entries, more, places + [p])
  {
    hide Shows;
    forall q: nat | q < |more| ensures Taken(places + [p], q) {
      if q < |result| {
        assert Taken(places, q);
        var h: nat :| FirstAt(places, h, q);
        FirstStays(places, p, h, q);
      } else {
        assert FirstAt(places + [p], |places|, q);
      }
    }
    forall h | 0 <= h < |hits| ensures Shows((hits + [hit])[h], entries, more[(places + [p])[h]]) {
      assert more[places[h]] == result[places[h]];
    }
  }

  lemma PlacesTellResources(hits: seq<Hit>, entries: map<string, Id>, result: seq<Id>, places: seq<nat>)
    requires Distinct(result) && Placed(hits, entries, result, places)
    ensures forall g, h :: 0 <= g < h < |hits| && Catalogued(hits[g], entries) && Catalogued(hits[h], entries) ==>
      (places[g] == places[h] <==> entries[hits[g].value] == entries[hits[h].value])
    ensures forall id :: id in result <==> exists h :: 0 <= h < |hits| && Shows(hits[h], entries, id)
  {
    hide FirstAt;
    forall g, h | 0 <= g < h < |hits| && Catalogued(hits[g], entries) && Catalogued(hits[h], entries)
      ensures places[g] == places[h] <==> entries[hits[g].value] == entries[hits[h].value]
    {
      assert Shows(hits[g], entries, result[places[g]]) && Shows(hits[h], entries, result[places[h]]);
    }
    forall id | id in result ensures exists h :: 0 <= h < |hits| && Shows(hits[h], entries, id) {
      var p: nat :| p < |result| && result[p] == id;
      assert Taken(places, p);
      var h: nat :| FirstAt(places, h, p);
      TakesPlace(places, h, p);
      assert Shows(hits[h], entries, result[places[h]]);
    }
    forall h | 0 <= h < |hits| ensures forall id :: Shows(hits[h], entries, id) ==> id in result {
      assert Shows(hits[h], entries, result[places[h]]);
    }
  }

  lemma TakesPlace(places: seq<nat>, h: nat, p: nat)
    requires FirstAt(places, h, p)
    ensures h < |places| && places[h] == p
  {
  }

  lemma AppearOnce(s: seq<Id>, r: seq<Id>)
    requires FirstAppearances(s, r)
    ensures Distinct(r)
  {
  }

  lemma StartsEmpty(ids: seq<Id>, hits: seq<Hit>, entries: map<string, Id>)
    ensures FirstAppearances(ids[..0], []) && Placed(hits[..0], entries, [], [])
  {
  }

  /** The collapsed ranking: two catalogued hits have one place exactly when their paths belong to
      one resource, and nothing is in it that no hit shows. */
  method LogicalRanking(hits: seq<Hit>, entries: map<string, Id>) returns (result: seq<Id>, ghost places: seq<nat>)
    ensures FirstAppearances(LogicalIds(hits, entries), result)
    ensures Distinct(result) && Placed(hits, entries, result, places)
    ensures forall g, h :: 0 <= g < h < |hits| && Catalogued(hits[g], entries) && Catalogued(hits[h], entries) ==>
      (places[g] == places[h] <==> entries[hits[g].value] == entries[hits[h].value])
    ensures forall id :: id in result <==> exists h :: 0 <= h < |hits| && Shows(hits[h], entries, id)
  {
    hide Placed, FirstAppearances;
    StartsEmpty(LogicalIds(hits, entries), hits, entries);
    result, places := [], [];
    var seen: set<Id> := {};
    ghost var ids := LogicalIds(hits, entries);
    for h := 0 to |hits|
      invariant forall x :: x in seen <==> x in result
      invariant FirstAppearances(ids[..h], result)
      invariant Placed(hits[..h], entries, result, places)
    {
      assert hits[..h + 1] == hits[..h] + [hits[h]];
      var logical := LogicalId(hits[h], entries);
      assert ids[..h + 1] == ids[..h] + [logical];
      AppearancesExtend(ids[..h], result, logical);
      if logical !in seen {
        PlacedOneMore(hits[..h], entries, result, places, hits[h], result + [logical], |result|);
        places := places + [|result|];
        seen := seen + {logical};
        result := result + [logical];
      } else {
        ghost var p: nat :| p < |result| && result[p] == logical;
        PlacedOneMore(hits[..h], entries, result, places, hits[h], result, p);
        places := places + [p];
      }
    }
    assert ids[..|hits|] == ids && hits[..|hits|] == hits;
    AppearOnce(ids, result);
    PlacesTellResources(hits, entries, result, places);
  }

  // ---- Graded gain and its discounted sum ----

  function Gain(grade: nat): nat { Pow2(grade) - 1 }

  lemma {:induction false} GainIncreases(a: nat, b: nat)
    ensures a < b ==> Gain(a) < Gain(b)
    ensures Gain(a) == Gain(b) <==> a == b
    decreases a + b
  {
    if a > 0 && b > 0 {
      GainIncreases(a - 1, b - 1);
    }
  }

  /** `1 / log2(position + 2)`, of which only sign and strict decrease matter. */
  ghost predicate Discount(d: nat -> real) {
    && (forall i: nat :: d(i) > 0.0)
    && (forall i: nat, j: nat :: i < j ==> d(i) > d(j))
  }

  function At(grades: seq<nat>, i: nat): nat {
    if i < |grades| then grades[i] else 0
  }

  function Top<T>(s: seq<T>, k: nat): seq<T> {
    s[..Min(k, |s|)]
  }

  /** What a grade contributes at a position: its gain times the discount there. */
  function Contribution(d: nat -> real): (nat, nat) -> real {
    (grade: nat, i: nat) => Gain(grade) as real * d(i)
  }

  /** The sum over `enumerate(grades)` of the contributions. */
  function Discounted(grades: seq<nat>, c: (nat, nat) -> real): real {
    if grades == [] then 0.0
    else var n := |grades| - 1; Discounted(grades[..n], c) + c(grades[n], n)
  }

  function GradesOf(ids: seq<Id>, rel: Judgments): seq<nat> {
    seq(|ids|, i requires 0 <= i < |ids| => rel.Get(ids[i]))
  }

  ghost predicate NonIncreasing(s: seq<nat>) {
    forall i, j :: 0 <= i < j < |s| ==> s[i] >= s[j]
  }

  function InsertDescending(x: nat, s: seq<nat>): (r: seq<nat>)
    ensures multiset(r) == multiset(s) + multiset{x}
  {
    if s == [] || x >= s[0] then [x] + s
    else
      assert s == [s[0]] + s[1..];
      [s[0]] + InsertDescending(x, s[1..])
  }

  lemma {:induction false} InsertDescendingOrdered(x: nat, s: seq<nat>)
    requires NonIncreasing(s)
    ensures NonIncreasing(InsertDescending(x, s))
  {
    if s != [] && x < s[0] {
      hide InsertDescending;
      var rest, t := s[1..], InsertDescending(x, s[1..]);
      assert s == [s[0]] + rest && forall j :: 0 <= j < |rest| ==> rest[j] == s[j + 1];
      InsertDescendingOrdered(x, rest);
      forall j | 0 <= j < |t| ensures s[0] >= t[j] {
        assert t[j] in multiset(t);
      }
      InsertedLater(x, s[0], rest);
      NonIncreasingCons(s[0], t);
    } else if s != [] {
      NonIncreasingCons(x, s);
    }
  }

  lemma InsertedLater(x: nat, first: nat, rest: seq<nat>)
    requires x < first
    ensures InsertDescending(x, [first] + rest) == [first] + InsertDescending(x, rest)
  {
    assert ([first] + rest)[1..] == rest;
  }

  lemma NonIncreasingCons(x: nat, s: seq<nat>)
    requires NonIncreasing(s) && forall j :: 0 <= j < |s| ==> x >= s[j]
    ensures NonIncreasing([x] + s)
  {
    var all := [x] + s;
    assert forall j :: 0 < j < |all| ==> all[j] == s[j - 1];
  }

  /** `sorted(values, reverse=True)`. */
  function SortDescending(s: seq<nat>): (r: seq<nat>)
    ensures NonIncreasing(r) && multiset(r) == multiset(s) && |r| == |s|
  {
    if s == [] then []
    else
      assert s == [s[0]] + s[1..];
      var t := SortDescending(s[1..]);
      InsertDescendingOrdered(s[0], t);
      var r := InsertDescending(s[0], t);
      assert |multiset(r)| == |multiset(s)|;
      r
  }

  function IdealGrades(rel: Judgments): seq<nat> {
    SortDescending(GradesOf(rel.order, rel))
  }

  const NDCG_CUTOFF: nat := 10
  const RECALL_CUTOFF: nat := 5

  datatype Metrics = Metrics(success: real, recall: real, ndcg: real)

  function Dcg(ranking: seq<Id>, rel: Judgments, d: nat -> real): real {
    Discounted(GradesOf(Top(ranking, NDCG_CUTOFF), rel), Contribution(d))
  }

  function Ideal(rel: Judgments, d: nat -> real): real {
    Discounted(Top(IdealGrades(rel), NDCG_CUTOFF), Contribution(d))
  }

  function Hits(ranking: seq<Id>, rel: Judgments): set<Id> {
    set id | id in rel.order && id in Top(ranking, RECALL_CUTOFF)
  }

  function Relevants(rel: Judgments): (ids: set<Id>)
    ensures rel.order != [] ==> |ids| > 0
  {
    var ids := set id | id in rel.order;
    assert rel.order != [] ==> rel.order[0] in ids;
    ids
  }

  /** The three figures of one query; a query without judgments reports nothing. */
  function RankingFigures(ranking: seq<Id>, rel: Judgments, d: nat -> real): Option<Metrics>
    requires rel.order != [] ==> Ideal(rel, d) != 0.0
  {
    if rel.order == [] then None
    else
      var intersection := Hits(ranking, rel);
      Some(Metrics(
        if intersection == {} then 0.0 else 1.0,
        |intersection| as real / |Relevants(rel)| as real,
        Dcg(ranking, rel, d) / Ideal(rel, d)))
  }

  // ---- Padded sums: every list of grades read up to a common length ----

  function Padded(grades: seq<nat>, n: nat, c: (nat, nat) -> real): real {
    if n == 0 then 0.0 else Padded(grades, n - 1, c) + c(At(grades, n - 1), n - 1)
  }

  function PrefixGain(grades: seq<nat>, n: nat): nat {
    if n == 0 then 0 else PrefixGain(grades, n - 1) + Gain(At(grades, n - 1))
  }

  lemma {:induction false} DiscountedIsPadded(grades: seq<nat>, k: nat, c: (nat, nat) -> real)
    requires forall i: nat :: c(0, i) == 0.0
    ensures Discounted(Top(grades, k), c) == Padded(grades, k, c)
  {
    if k > 0 {
      DiscountedIsPadded(grades, k - 1, c);
      if k <= |grades| {
        assert Top(grades, k)[..k - 1] == Top(grades, k - 1);
      } else {
        assert Top(grades, k) == Top(grades, k - 1);
      }
    }
  }

  lemma AbelStep(before: real, gap: real, next: real, earlier: real, later: real)
    requires earlier > later > 0.0 && gap >= 0.0 && before >= gap * earlier
    ensures before + (next - gap) * later >= next * later
    ensures before + (next - gap) * later == next * later ==> before == gap * earlier && gap == 0.0
  {
    assert before + (next - gap) * later == (before - gap * earlier) + gap * (earlier - later) + next * later;
    assert gap * (earlier - later) >= 0.0;
    assert gap > 0.0 ==> gap * (earlier - later) > 0.0;
  }

  /** From position `k` to the next, the discounted difference grows by the discounted
      growth of the lead. */
  ghost predicate Weighed(diff: nat -> real, lead: nat -> real, d: nat -> real, k: nat) {
    diff(k + 1) == diff(k) + (lead(k + 1) - lead(k)) * d(k)
  }

  /** Abel summation: a lead that is never negative before discounting is never negative
      after it, and vanishes only if it vanished at every prefix. */
  lemma {:induction false} Abel(diff: nat -> real, lead: nat -> real, d: nat -> real, n: nat)
    requires n > 0 && Discount(d)
    requires diff(0) == 0.0 && lead(0) == 0.0
    requires forall k: nat :: k <= n ==> lead(k) >= 0.0
    requires forall k: nat :: k < n ==> Weighed(diff, lead, d, k)
    ensures diff(n) >= lead(n) * d(n - 1)
    ensures diff(n) == lead(n) * d(n - 1) ==> forall k: nat :: k < n ==> lead(k) == 0.0
  {
    var m := n - 1;
    assert Weighed(diff, lead, d, m);
    if m > 0 {
      Abel(diff, lead, d, m);
      AbelStep(diff(m), lead(m), lead(n), d(m - 1), d(m));
    }
  }

  ghost function Lead(best: seq<nat>, got: seq<nat>, k: nat): int {
    PrefixGain(best, k) - PrefixGain(got, k)
  }

  // ---- Prefix dominance of the sorted grades over any duplicate-free ranking ----

  function Gains(grades: seq<nat>): seq<int> {
    seq(|grades|, i requires 0 <= i < |grades| => Gain(grades[i]))
  }

  lemma {:induction false} PrefixGainIsSum(grades: seq<nat>, k: nat)
    ensures PrefixGain(grades, k) == Sum(Gains(Top(grades, k)))
  {
    if k > 0 {
      PrefixGainIsSum(grades, k - 1);
      if k <= |grades| {
        assert Gains(Top(grades, k)) == Gains(Top(grades, k - 1)) + [Gain(grades[k - 1])];
        SumAppend(Gains(Top(grades, k - 1)), [Gain(grades[k - 1])]);
      } else {
        assert Top(grades, k) == Top(grades, k - 1);
      }
    }
  }

  lemma RemoveOne(x: seq<nat>, i: nat)
    requires i < |x|
    ensures Sum(Gains(x)) == Sum(Gains(x[..i] + x[i + 1..])) + Gain(x[i])
    ensures multiset(x) == multiset(x[..i] + x[i + 1..]) + multiset{x[i]}
  {
    assert x == x[..i] + [x[i]] + x[i + 1..];
    assert Gains(x) == Gains(x[..i]) + ([Gain(x[i])] + Gains(x[i + 1..]));
    assert Gains(x[..i] + x[i + 1..]) == Gains(x[..i]) + Gains(x[i + 1..]);
    SumAppend(Gains(x[..i]), [Gain(x[i])] + Gains(x[i + 1..]));
    SumAppend(Gains(x[..i]), Gains(x[i + 1..]));
  }

  lemma DropLast(best: seq<nat>)
    requires best != []
    ensures multiset(best) == multiset(best[..|best| - 1]) + multiset{best[|best| - 1]}
  {
    assert best == best[..|best| - 1] + [best[|best| - 1]];
  }

  lemma CancelMultiset<T>(a: multiset<T>, b: multiset<T>, x: T)
    requires a + multiset{x} <= b + multiset{x}
    ensures a <= b
  {
    forall g ensures a[g] <= b[g] { assert (a + multiset{x})[g] <= (b + multiset{x})[g]; }
  }

  lemma LeadingPart(best: seq<nat>, k: nat)
    requires NonIncreasing(best) && k < |best|
    ensures NonIncreasing(best[..|best| - 1]) && best[k] >= best[|best| - 1]
    ensures PrefixGain(best, k + 1) == PrefixGain(best, k) + Gain(best[k])
  {
  }

  lemma NothingGained(best: seq<nat>)
    ensures Sum(Gains([])) == 0 && PrefixGain(best, 0) == 0
  {
  }

  lemma WithoutElement<T>(a: multiset<T>, b: multiset<T>, x: T)
    requires a <= b + multiset{x} && x !in a
    ensures a <= b
  {
    forall g ensures a[g] <= b[g] { assert a[g] <= (b + multiset{x})[g]; }
  }

  /** No sub-multiset of a non-increasing list gains more than its leading part. */
  lemma {:induction false} LeadingPartIsBest(x: seq<nat>, best: seq<nat>)
    requires NonIncreasing(best) && multiset(x) <= multiset(best)
    ensures |x| <= |best|
    ensures Sum(Gains(x)) <= PrefixGain(best, |x|)
    decreases |best|
  {
    hide *;
    if best == [] {
      assert |multiset(x)| == 0;
      NothingGained(best);
    } else {
      var n := |best| - 1;
      var rest, least := best[..n], best[n];
      DropLast(best);
      if least in x {
        var i :| 0 <= i < |x| && x[i] == least;
        var y := x[..i] + x[i + 1..];
        RemoveOne(x, i);
        CancelMultiset(multiset(y), multiset(rest), least);
        LeadingPart(best, n);
        LeadingPartIsBest(y, rest);
        LeadingPart(best, |y|);
        SamePrefix(rest, best, |y|);
        GainIncreases(least, best[|y|]);
      } else {
        WithoutElement(multiset(x), multiset(rest), least);
        LeadingPart(best, n);
        LeadingPartIsBest(x, rest);
        SamePrefix(rest, best, |x|);
      }
    }
  }

  lemma {:induction false} SamePrefix(short: seq<nat>, long: seq<nat>, k: nat)
    requires k <= |short| && short <= long
    ensures PrefixGain(short, k) == PrefixGain(long, k)
  {
    if k > 0 { SamePrefix(short, long, k - 1); }
  }

  function Relevant(ids: seq<Id>, rel: Judgments): seq<Id> {
    if ids == [] then []
    else Relevant(ids[..|ids| - 1], rel) + (if ids[|ids| - 1] in rel.grade then [ids[|ids| - 1]] else [])
  }

  lemma GainsExtend(ids: seq<Id>, id: Id, rel: Judgments)
    ensures Sum(Gains(GradesOf(ids + [id], rel))) == Sum(Gains(GradesOf(ids, rel))) + Gain(rel.Get(id))
  {
    assert Gains(GradesOf(ids + [id], rel)) == Gains(GradesOf(ids, rel)) + [Gain(rel.Get(id))];
    SumAppend(Gains(GradesOf(ids, rel)), [Gain(rel.Get(id))]);
  }

  /** Irrelevant positions gain nothing, so only the judged ones are summed. */
  lemma {:induction false} RelevantGain(ids: seq<Id>, rel: Judgments)
    ensures Sum(Gains(GradesOf(ids, rel))) == Sum(Gains(GradesOf(Relevant(ids, rel), rel)))
  {
    if ids != [] {
      var init, last := ids[..|ids| - 1], ids[|ids| - 1];
      assert ids == init + [last];
      RelevantGain(init, rel);
      GainsExtend(init, last, rel);
      if last in rel.grade {
        GainsExtend(Relevant(init, rel), last, rel);
      } else {
        assert Relevant(ids, rel) == Relevant(init, rel);
      }
    }
  }

  lemma {:induction false} RelevantPart(ids: seq<Id>, rel: Judgments)
    ensures |Relevant(ids, rel)| <= |ids|
    ensures multiset(Relevant(ids, rel)) <= multiset(ids)
    ensures forall id :: id in Relevant(ids, rel) ==> id in rel.grade
  {
    if ids != [] {
      assert ids == ids[..|ids| - 1] + [ids[|ids| - 1]];
      RelevantPart(ids[..|ids| - 1], rel);
    }
  }

  lemma GradesWithout(all: seq<Id>, j: nat, rel: Judgments)
    requires j < |all|
    ensures multiset(GradesOf(all, rel)) == multiset(GradesOf(RemoveAt(all, j), rel)) + multiset{rel.Get(all[j])}
  {
    RemoveAtMultiset(GradesOf(all, rel), j);
    assert RemoveAt(GradesOf(all, rel), j) == GradesOf(RemoveAt(all, j), rel);
  }

  lemma {:induction false} GradesOfSubMultiset(ids: seq<Id>, all: seq<Id>, rel: Judgments)
    requires multiset(ids) <= multiset(all)
    ensures multiset(GradesOf(ids, rel)) <= multiset(GradesOf(all, rel))
  {
    if ids != [] {
      var n := |ids| - 1;
      assert ids[n] in multiset(all);
      var j :| 0 <= j < |all| && all[j] == ids[n];
      RemoveAtMultiset(ids, n);
      RemoveAtMultiset(all, j);
      CancelMultiset(multiset(RemoveAt(ids, n)), multiset(RemoveAt(all, j)), ids[n]);
      GradesOfSubMultiset(RemoveAt(ids, n), RemoveAt(all, j), rel);
      GradesWithout(ids, n, rel);
      GradesWithout(all, j, rel);
    }
  }

  lemma {:induction false} DistinctCount<T>(s: seq<T>, x: T)
    requires Distinct(s)
    ensures multiset(s)[x] <= 1
  {
    if s != [] {
      var n := |s| - 1;
      assert s == s[..n] + [s[n]];
      DistinctCount(s[..n], x);
      if x == s[n] { assert x !in s[..n]; }
    }
  }

  lemma {:induction false} PrefixGainMonotone(grades: seq<nat>, j: nat, k: nat)
    requires j <= k
    ensures PrefixGain(grades, j) <= PrefixGain(grades, k)
    decreases k - j
  {
    if j < k { PrefixGainMonotone(grades, j + 1, k); }
  }

  lemma PrefixDominated(ranking: seq<Id>, rel: Judgments, k: nat)
    requires rel.Valid() && Distinct(ranking)
    ensures PrefixGain(GradesOf(ranking, rel), k) <= PrefixGain(IdealGrades(rel), k)
  {
    var top := Top(ranking, k);
    assert Top(GradesOf(ranking, rel), k) == GradesOf(top, rel);
    PrefixGainIsSum(GradesOf(ranking, rel), k);
    RelevantGain(top, rel);
    RelevantPart(top, rel);
    var judged := Relevant(top, rel);
    forall id ensures multiset(judged)[id] <= multiset(rel.order)[id] {
      DistinctCount(top, id);
      assert id in multiset(judged) ==> id in judged && id in multiset(rel.order);
    }
    GradesOfSubMultiset(judged, rel.order, rel);
    LeadingPartIsBest(GradesOf(judged, rel), IdealGrades(rel));
    PrefixGainMonotone(IdealGrades(rel), |judged|, k);
  }

  // ---- Main results ----

  lemma ContributionSign(d: nat -> real, grade: nat, i: nat)
    requires Discount(d)
    ensures Contribution(d)(grade, i) >= 0.0 && (Contribution(d)(grade, i) > 0.0 <==> grade > 0)
  {
    GainIncreases(0, grade);
    assert Gain(grade) as real > 0.0 ==> Gain(grade) as real * d(i) > 0.0;
  }

  lemma {:induction false} PaddedPositive(grades: seq<nat>, n: nat, d: nat -> real)
    requires Discount(d)
    ensures Padded(grades, n, Contribution(d)) >= 0.0
    ensures n > 0 && At(grades, 0) > 0 ==> Padded(grades, n, Contribution(d)) > 0.0
  {
    if n > 0 {
      PaddedPositive(grades, n - 1, d);
      ContributionSign(d, At(grades, n - 1), n - 1);
    }
  }

  lemma DcgIsPadded(ranking: seq<Id>, rel: Judgments, d: nat -> real)
    requires Discount(d)
    ensures Dcg(ranking, rel, d) == Padded(GradesOf(ranking, rel), NDCG_CUTOFF, Contribution(d))
    ensures Ideal(rel, d) == Padded(IdealGrades(rel), NDCG_CUTOFF, Contribution(d))
  {
    forall i: nat ensures Contribution(d)(0, i) == 0.0 { ContributionSign(d, 0, i); }
    assert GradesOf(Top(ranking, NDCG_CUTOFF), rel) == Top(GradesOf(ranking, rel), NDCG_CUTOFF);
    DiscountedIsPadded(GradesOf(ranking, rel), NDCG_CUTOFF, Contribution(d));
    DiscountedIsPadded(IdealGrades(rel), NDCG_CUTOFF, Contribution(d));
  }

  lemma IdealPositive(rel: Judgments, d: nat -> real)
    requires rel.Valid() && Discount(d) && rel.order != []
    ensures Ideal(rel, d) > 0.0
  {
    var grades, ideal := GradesOf(rel.order, rel), IdealGrades(rel);
    assert ideal[0] in multiset(ideal) && ideal[0] in multiset(grades);
    assert ideal[0] in grades;
    DcgIsPadded([], rel, d);
    PaddedPositive(ideal, NDCG_CUTOFF, d);
  }

  ghost function Ahead(best: seq<nat>, got: seq<nat>, c: (nat, nat) -> real): nat -> real {
    (k: nat) => Padded(best, k, c) - Padded(got, k, c)
  }

  ghost function LeadOf(best: seq<nat>, got: seq<nat>): nat -> real {
    (k: nat) => Lead(best, got, k) as real
  }

  lemma ContributionDifference(x: nat, y: nat, i: nat, d: nat -> real)
    ensures Contribution(d)(x, i) - Contribution(d)(y, i) == (Gain(x) as int - Gain(y) as int) as real * d(i)
  {
    var a, b, w := Gain(x) as real, Gain(y) as real, d(i);
    assert a * w - b * w == (a - b) * w;
  }

  lemma AheadOneMore(got: seq<nat>, best: seq<nat>, c: (nat, nat) -> real, k: nat)
    ensures Ahead(best, got, c)(k + 1) == Ahead(best, got, c)(k) + (c(At(best, k), k) - c(At(got, k), k))
    ensures Lead(best, got, k + 1) == Lead(best, got, k) + (Gain(At(best, k)) as int - Gain(At(got, k)) as int)
  {
  }

  lemma LeadIsWeighed(got: seq<nat>, best: seq<nat>, d: nat -> real, k: nat)
    ensures Weighed(Ahead(best, got, Contribution(d)), LeadOf(best, got), d, k)
  {
    hide Ahead, Lead, Contribution, Gain;
    AheadOneMore(got, best, Contribution(d), k);
    ContributionDifference(At(best, k), At(got, k), k, d);
  }

  lemma NothingAhead(got: seq<nat>, best: seq<nat>, c: (nat, nat) -> real)
    ensures Ahead(best, got, c)(0) == 0.0 && LeadOf(best, got)(0) == 0.0
  {
  }

  lemma NoLeadNoDifference(got: seq<nat>, best: seq<nat>, i: nat)
    requires Lead(best, got, i) == 0 && Lead(best, got, i + 1) == 0
    ensures At(got, i) == At(best, i)
  {
    GainIncreases(At(got, i), At(best, i));
  }

  /** The discounted sums compare as the prefix gains do. */
  lemma DcgBelowIdeal(got: seq<nat>, best: seq<nat>, n: nat, d: nat -> real)
    requires n > 0 && Discount(d)
    requires forall k: nat :: k <= n ==> Lead(best, got, k) >= 0
    ensures Padded(got, n, Contribution(d)) <= Padded(best, n, Contribution(d))
    ensures Padded(got, n, Contribution(d)) == Padded(best, n, Contribution(d))
       <==> forall i: nat :: i < n ==> At(got, i) == At(best, i)
  {
    hide Padded, Contribution, Lead;
    var c, lead := Contribution(d), LeadOf(best, got);
    NothingAhead(got, best, c);
    forall k: nat ensures Weighed(Ahead(best, got, c), lead, d, k) { LeadIsWeighed(got, best, d, k); }
    Abel(Ahead(best, got, c), lead, d, n);
    LeadProduct(lead(n), d(n - 1));
    if Padded(got, n, c) == Padded(best, n, c) {
      forall i: nat | i < n ensures At(got, i) == At(best, i) {
        assert lead(i) == 0.0 && lead(i + 1) == 0.0;
        NoLeadNoDifference(got, best, i);
      }
    }
    if forall i: nat :: i < n ==> At(got, i) == At(best, i) {
      SamePadded(got, best, n, c);
    }
  }

  lemma LeadProduct(lead: real, w: real)
    requires lead >= 0.0 && w > 0.0
    ensures lead * w >= 0.0 && (lead * w == 0.0 ==> lead == 0.0)
  {
  }

  lemma {:induction false} SamePadded(x: seq<nat>, y: seq<nat>, n: nat, c: (nat, nat) -> real)
    requires forall i: nat :: i < n ==> At(x, i) == At(y, i)
    ensures Padded(x, n, c) == Padded(y, n, c)
  {
    if n > 0 { SamePadded(x, y, n - 1, c); }
  }

  lemma RatioBounds(a: real, b: real)
    requires 0.0 <= a <= b && 0.0 < b
    ensures 0.0 <= a / b <= 1.0 && (a / b == 1.0 <==> a == b) && (a > 0.0 ==> a / b > 0.0)
  {
    var r := a / b;
    assert r * b == a;
    assert (1.0 - r) * b == b - a;
    assert r < 0.0 ==> r * b < 0.0;
    assert 1.0 - r < 0.0 ==> (1.0 - r) * b < 0.0;
  }

  /** NDCG of a duplicate-free ranking is a true ratio, and it is perfect exactly
      when the ten leading grades are the ten largest ones in non-increasing order. */
  lemma NdcgIsARatio(ranking: seq<Id>, rel: Judgments, d: nat -> real)
    requires rel.Valid() && Discount(d) && rel.order != [] && Distinct(ranking)
    ensures Ideal(rel, d) > 0.0
    ensures 0.0 <= RankingFigures(ranking, rel, d).value.ndcg <= 1.0
    ensures RankingFigures(ranking, rel, d).value.ndcg == 1.0
       <==> forall i: nat :: i < 10 ==> At(GradesOf(ranking, rel), i) == At(IdealGrades(rel), i)
  {
    IdealPositive(rel, d);
    DcgIsPadded(ranking, rel, d);
    var got, best := GradesOf(ranking, rel), IdealGrades(rel);
    forall k: nat ensures Lead(best, got, k) >= 0 { PrefixDominated(ranking, rel, k); }
    DcgBelowIdeal(got, best, NDCG_CUTOFF, d);
    PaddedPositive(got, NDCG_CUTOFF, d);
    RatioBounds(Dcg(ranking, rel, d), Ideal(rel, d));
  }

  /** The gain of a grade is two to its power, less one. */
  lemma GainDoubles(grade: nat)
    ensures Gain(0) == 0 && Gain(grade + 1) == 2 * Gain(grade) + 1
  {
  }

  /** The discounted gain of a grade at a position. */
  ghost function Term(grade: nat, i: nat, d: nat -> real): real {
    Gain(grade) as real * d(i)
  }

  /** What the first ten of a list of grades add up to. */
  ghost function FirstTen(g: nat -> nat, d: nat -> real): real {
    Term(g(0), 0, d) + Term(g(1), 1, d) + Term(g(2), 2, d) + Term(g(3), 3, d) + Term(g(4), 4, d)
      + Term(g(5), 5, d) + Term(g(6), 6, d) + Term(g(7), 7, d) + Term(g(8), 8, d) + Term(g(9), 9, d)
  }

  lemma PaddedOneMore(grades: seq<nat>, n: nat, d: nat -> real)
    ensures Padded(grades, 0, Contribution(d)) == 0.0
    ensures Padded(grades, n + 1, Contribution(d)) == Padded(grades, n, Contribution(d)) + Term(At(grades, n), n, d)
  {
  }

  lemma PaddedIsFirstTen(grades: seq<nat>, g: nat -> nat, d: nat -> real)
    requires forall i: nat :: g(i) == At(grades, i)
    ensures Padded(grades, 10, Contribution(d)) == FirstTen(g, d)
  {
    hide Padded, Term, Contribution, At;
    PaddedOneMore(grades, 0, d);
    PaddedOneMore(grades, 1, d);
    PaddedOneMore(grades, 2, d);
    PaddedOneMore(grades, 3, d);
    PaddedOneMore(grades, 4, d);
    PaddedOneMore(grades, 5, d);
    PaddedOneMore(grades, 6, d);
    PaddedOneMore(grades, 7, d);
    PaddedOneMore(grades, 8, d);
    PaddedOneMore(grades, 9, d);
  }

  /** The grade of what stands at a place of the ranking; none is 0. */
  ghost function GradeAt(ranking: seq<Id>, rel: Judgments): nat -> nat {
    (i: nat) => if i < |ranking| && ranking[i] in rel.grade then rel.grade[ranking[i]] else 0
  }

  /** The judged grades, highest first. */
  ghost predicate IsBest(best: seq<nat>, rel: Judgments)
    requires forall id :: id in rel.order ==> id in rel.grade
  {
    && NonIncreasing(best)
    && multiset(best) == multiset(seq(|rel.order|, i requires 0 <= i < |rel.order| => rel.grade[rel.order[i]]))
  }

  /** NDCG is the sum over the first ten of the ranking divided by that over the ten best grades. */
  lemma NdcgExactly(ranking: seq<Id>, rel: Judgments, d: nat -> real) returns (best: seq<nat>)
    requires rel.Valid() && Discount(d) && rel.order != []
    ensures IsBest(best, rel) && FirstTen(GradeIn(best), d) > 0.0
    ensures Ideal(rel, d) > 0.0
    ensures RankingFigures(ranking, rel, d).value.ndcg
         == FirstTen(GradeAt(ranking, rel), d) / FirstTen(GradeIn(best), d)
  {
    best := IdealGrades(rel);
    GradesAreJudged(ranking, rel);
    hide *;
    IdealPositive(rel, d);
    DcgIsPadded(ranking, rel, d);
    PaddedIsFirstTen(GradesOf(ranking, rel), GradeAt(ranking, rel), d);
    PaddedIsFirstTen(best, GradeIn(best), d);
    FiguresShown(ranking, rel, d);
  }

  ghost function GradeIn(grades: seq<nat>): nat -> nat {
    (i: nat) => if i < |grades| then grades[i] else 0
  }

  lemma GradesAreJudged(ranking: seq<Id>, rel: Judgments)
    requires rel.Valid()
    ensures IsBest(IdealGrades(rel), rel)
    ensures forall i: nat :: GradeAt(ranking, rel)(i) == At(GradesOf(ranking, rel), i)
    ensures forall i: nat :: GradeIn(IdealGrades(rel))(i) == At(IdealGrades(rel), i)
  {
    assert GradesOf(rel.order, rel)
        == seq(|rel.order|, i requires 0 <= i < |rel.order| => rel.grade[rel.order[i]]);
  }

  lemma FiguresShown(ranking: seq<Id>, rel: Judgments, d: nat -> real)
    requires rel.order != [] && Ideal(rel, d) != 0.0
    ensures RankingFigures(ranking, rel, d).Some?
    ensures RankingFigures(ranking, rel, d).value.ndcg == Dcg(ranking, rel, d) / Ideal(rel, d)
    ensures NDCG_CUTOFF == 10
  {
  }

  /** The judged ids among the first five of the ranking decide success and recall. */
  lemma RecallExactly(ranking: seq<Id>, rel: Judgments, d: nat -> real)
    requires rel.Valid() && Discount(d) && rel.order != []
    ensures Ideal(rel, d) > 0.0
    ensures var m := RankingFigures(ranking, rel, d).value;
      var found := set i: nat | i < 5 && i < |ranking| && ranking[i] in rel.grade :: ranking[i];
      && m.success == (if found == {} then 0.0 else 1.0)
      && m.recall == |found| as real / |rel.grade| as real
  {
    IdealPositive(rel, d);
    var found := set i: nat | i < 5 && i < |ranking| && ranking[i] in rel.grade :: ranking[i];
    var top := ranking[..Min(5, |ranking|)];
    forall id ensures id in found <==> id in Hits(ranking, rel) {
      if id in top && id in rel.grade {
        var i: nat :| i < |top| && top[i] == id;
        assert ranking[i] == id;
      }
    }
    assert found == Hits(ranking, rel);
    assert Relevants(rel) == rel.grade.Keys;
  }

  lemma RecallBelowSuccess(ranking: seq<Id>, rel: Judgments, d: nat -> real)
    requires rel.Valid() && Discount(d) && rel.order != []
    ensures Ideal(rel, d) > 0.0
    ensures var m := RankingFigures(ranking, rel, d).value;
      && 0.0 <= m.recall <= m.success <= 1.0
      && (m.success == 1.0 <==> exists id :: id in rel.grade && id in Top(ranking, RECALL_CUTOFF))
      && (m.recall == 1.0 <==> forall id :: id in rel.grade ==> id in Top(ranking, RECALL_CUTOFF))
  {
    IdealPositive(rel, d);
    var hits := Hits(ranking, rel);
    var all := Relevants(rel);
    SubsetSize(hits, all);
    RatioBounds(|hits| as real, |all| as real);
    assert hits == {} <==> !exists id :: id in rel.grade && id in Top(ranking, RECALL_CUTOFF) by {
      assert forall id :: id in hits <==> id in rel.grade && id in Top(ranking, RECALL_CUTOFF);
    }
    assert hits == all <==> forall id :: id in rel.grade ==> id in Top(ranking, RECALL_CUTOFF) by {
      assert forall id :: id in all <==> id in rel.grade;
    }
  }

  /** The whole pipeline: whatever the launcher returned, collapsing first keeps the
      ratio within bounds, and recall never exceeds success. */
  lemma PipelineBounds(hits: seq<Hit>, entries: map<string, Id>, ranking: seq<Id>, rel: Judgments, d: nat -> real)
    requires FirstAppearances(LogicalIds(hits, entries), ranking)
    requires rel.Valid() && Discount(d) && rel.order != []
    ensures Ideal(rel, d) > 0.0
    ensures var m := RankingFigures(ranking, rel, d).value;
      0.0 <= m.ndcg <= 1.0 && 0.0 <= m.recall <= m.success <= 1.0
  {
    NdcgIsARatio(ranking, rel, d);
    RecallBelowSuccess(ranking, rel, d);
  }

  lemma {:induction false} PaddedUpdate(grades: seq<nat>, i: nat, v: nat, n: nat, c: (nat, nat) -> real)
    requires i < |grades|
    ensures Padded(grades[i := v], n, c) == Padded(grades, n, c) + (if i < n then c(v, i) - c(grades[i], i) else 0.0)
  {
    if n > 0 { PaddedUpdate(grades, i, v, n - 1, c); }
  }

  lemma SwapContribution(low: nat, high: nat, i: nat, j: nat, d: nat -> real)
    requires Discount(d) && low <= high && i < j
    ensures var c := Contribution(d);
      && c(high, i) >= c(low, i) && (low < high ==> c(high, i) > c(low, i))
      && c(high, i) + c(low, j) >= c(low, i) + c(high, j)
      && (low < high ==> c(high, i) + c(low, j) > c(low, i) + c(high, j))
  {
    GainIncreases(low, high);
    SwapGain(Gain(low) as real, Gain(high) as real, d(i), d(j));
  }

  lemma SwapGain(low: real, high: real, earlier: real, later: real)
    requires low <= high && earlier > later > 0.0
    ensures high * earlier >= low * earlier && (low < high ==> high * earlier > low * earlier)
    ensures high * earlier + low * later >= low * earlier + high * later
    ensures low < high ==> high * earlier + low * later > low * earlier + high * later
  {
    assert high * earlier - low * earlier == (high - low) * earlier;
    assert (high * earlier + low * later) - (low * earlier + high * later) == (high - low) * (earlier - later);
    assert high > low ==> (high - low) * (earlier - later) > 0.0;
  }

  lemma SwapPadded(g: seq<nat>, i: nat, j: nat, n: nat, c: (nat, nat) -> real)
    requires i < j < |g|
    ensures Padded(g[i := g[j]][j := g[i]], n, c) == Padded(g, n, c)
        + (if i < n then c(g[j], i) - c(g[i], i) else 0.0) + (if j < n then c(g[i], j) - c(g[j], j) else 0.0)
  {
    PaddedUpdate(g, i, g[j], n, c);
    PaddedUpdate(g[i := g[j]], j, g[i], n, c);
  }

  lemma RatioOrder(a: real, b: real, c: real)
    requires c > 0.0
    ensures a <= b ==> a / c <= b / c
    ensures a < b ==> a / c < b / c
  {
    var x, y := a / c, b / c;
    assert x * c == a && y * c == b;
    assert (y - x) * c == b - a;
    assert y - x < 0.0 ==> (y - x) * c < 0.0;
  }

  /** Moving the better of two documents to the earlier place never lowers NDCG, and
      raises it when the grades differ and the earlier place is counted. */
  lemma SwapEarlier(ranking: seq<Id>, rel: Judgments, i: nat, j: nat, d: nat -> real)
    requires rel.Valid() && Discount(d) && rel.order != []
    requires i < j < |ranking| && rel.Get(ranking[i]) <= rel.Get(ranking[j])
    ensures Ideal(rel, d) > 0.0
    ensures var swapped := ranking[i := ranking[j]][j := ranking[i]];
      && RankingFigures(swapped, rel, d).value.ndcg >= RankingFigures(ranking, rel, d).value.ndcg
      && (rel.Get(ranking[i]) < rel.Get(ranking[j]) && i < 10 ==>
            RankingFigures(swapped, rel, d).value.ndcg > RankingFigures(ranking, rel, d).value.ndcg)
  {
    IdealPositive(rel, d);
    var g := GradesOf(ranking, rel);
    var swapped := ranking[i := ranking[j]][j := ranking[i]];
    assert GradesOf(swapped, rel) == g[i := g[j]][j := g[i]];
    DcgIsPadded(ranking, rel, d);
    DcgIsPadded(swapped, rel, d);
    SwapPadded(g, i, j, NDCG_CUTOFF, Contribution(d));
    SwapContribution(g[i], g[j], i, j, d);
    RatioOrder(Dcg(ranking, rel, d), Dcg(swapped, rel, d), Ideal(rel, d));
  }

  /** Without the collapse the figure is not a ratio: one relevant document returned
      twice scores above one. */
  lemma DuplicatesBreakTheRatio(d: nat -> real)
    requires Discount(d)
    ensures var rel := Judgments(["a"], map["a" := 1]);
      && rel.Valid() && Ideal(rel, d) > 0.0
      && RankingFigures(["a", "a"], rel, d).value.ndcg > 1.0
  {
    var rel, c := Judgments(["a"], map["a" := 1]), Contribution(d);
    IdealPositive(rel, d);
    var top := GradesOf(Top(["a", "a"], NDCG_CUTOFF), rel);
    assert top == [1, 1] && top[..1] == [1] && [1][..0] == [];
    assert GradesOf(rel.order, rel) == [1];
    var ideal := IdealGrades(rel);
    assert ideal[0] in multiset(ideal);
    assert Top(ideal, NDCG_CUTOFF) == [1];
    assert Discounted([1], c) == c(1, 0) && Discounted([1, 1], c) == c(1, 0) + c(1, 1);
    ContributionSign(d, 1, 1);
    RatioOrder(Ideal(rel, d), Dcg(["a", "a"], rel, d), Ideal(rel, d));
    RatioBounds(Ideal(rel, d), Ideal(rel, d));
  }
}
