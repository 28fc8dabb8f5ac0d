/** Who owns the callbacks of one traced connection while tracing and cancellation scopes nest. */
module TraceOwnership {
  import opened Prelude

  type TraceId = nat

  type BridgeId = nat

  /** The progress handler that SQLite would call. */
  datatype Handler = NoHandler | Observing(instructions: int) | Bridge(bridge: BridgeId, instructions: int)

  /** A registration is an object: its serial number tells equal ones apart. */
  datatype Registration = Registration(serial: nat, handler: Handler)

  function Max(a: int, b: int): int {
    if a >= b then a else b
  }

  const TRACE_INSTRUCTIONS := 1000

  type Refs = seq<(TraceId, nat)>

  // ---- Reference lists ----

  /** No trace is listed twice, and none without a reference. */
  ghost predicate OnceEach(refs: Refs) {
    && (forall i :: 0 <= i < |refs| ==> refs[i].1 > 0)
    && (forall i, j :: 0 <= i < j < |refs| ==> refs[i].0 != refs[j].0)
  }

  function CountOf(refs: Refs, t: TraceId): nat {
    if refs == [] then 0 else if refs[0].0 == t then refs[0].1 else CountOf(refs[1..], t)
  }

  function Total(refs: Refs): nat {
    if refs == [] then 0 else refs[0].1 + Total(refs[1..])
  }

  /** `add_trace`. */
  function Added(refs: Refs, t: TraceId): Refs {
    if refs == [] then [(t, 1)]
    else if refs[0].0 == t then [(t, refs[0].1 + 1)] + refs[1..]
    else [refs[0]] + Added(refs[1..], t)
  }

  /** `remove_trace`. */
  function Removed(refs: Refs, t: TraceId): Refs {
    if refs == [] then []
    else if refs[0].0 != t then [refs[0]] + Removed(refs[1..], t)
    else if refs[0].1 <= 1 then refs[1..]
    else [(t, refs[0].1 - 1)] + refs[1..]
  }

  predicate Lists(refs: Refs, t: TraceId) {
    exists i :: 0 <= i < |refs| && refs[i].0 == t
  }

  lemma {:induction false} ListedIsCounted(refs: Refs, t: TraceId)
    requires OnceEach(refs)
    ensures Lists(refs, t) <==> CountOf(refs, t) > 0
  {
    if refs != [] {
      ListedIsCounted(refs[1..], t);
      assert refs[0].0 == t ==> Lists(refs, t);
      if Lists(refs[1..], t) {
        var i :| 0 <= i < |refs[1..]| && refs[1..][i].0 == t;
        assert refs[i + 1].0 == t;
      }
      if Lists(refs, t) && refs[0].0 != t {
        var i :| 0 <= i < |refs| && refs[i].0 == t;
        assert refs[1..][i - 1].0 == t;
      }
    }
  }

  lemma {:induction false} AddedListed(refs: Refs, t: TraceId, u: TraceId)
    ensures Lists(Added(refs, t), u) <==> Lists(refs, u) || u == t
    ensures Added(refs, t) != []
  {
    var r := Added(refs, t);
    if refs == [] {
      assert r[0].0 == t;
    } else {
      ConsLists(refs[0], refs[1..], u);
      assert refs == [refs[0]] + refs[1..];
      if refs[0].0 == t {
        ConsLists((t, refs[0].1 + 1), refs[1..], u);
      } else {
        AddedListed(refs[1..], t, u);
        ConsLists(refs[0], Added(refs[1..], t), u);
      }
    }
  }

  lemma ConsLists(x: (TraceId, nat), rest: Refs, u: TraceId)
    ensures Lists([x] + rest, u) <==> x.0 == u || Lists(rest, u)
  {
    var all := [x] + rest;
    assert all[0] == x && forall i :: 0 <= i < |rest| ==> all[i + 1] == rest[i];
    if Lists(all, u) && x.0 != u {
      var i :| 0 <= i < |all| && all[i].0 == u;
      assert rest[i - 1].0 == u;
    }
    if Lists(rest, u) {
      var i :| 0 <= i < |rest| && rest[i].0 == u;
      assert all[i + 1].0 == u;
    }
  }

  lemma OnceEachCons(x: (TraceId, nat), rest: Refs)
    ensures OnceEach([x] + rest) <==> x.1 > 0 && OnceEach(rest) && !Lists(rest, x.0)
  {
    var all := [x] + rest;
    assert all[0] == x && forall i :: 0 <= i < |rest| ==> all[i + 1] == rest[i];
    assert OnceEach(all) ==> x.1 > 0;
    assert forall i :: 0 <= i < |rest| ==> rest[i] == all[i + 1];
  }

  lemma {:induction false} AddedKeeps(refs: Refs, t: TraceId)
    requires OnceEach(refs)
    ensures OnceEach(Added(refs, t)) && Total(Added(refs, t)) == Total(refs) + 1
    ensures forall u :: CountOf(Added(refs, t), u) == CountOf(refs, u) + if u == t then 1 else 0
    ensures refs != [] ==> Added(refs, t)[0].0 == refs[0].0
  {
    if refs != [] {
      var rest := refs[1..];
      assert refs == [refs[0]] + rest;
      OnceEachCons(refs[0], rest);
      if refs[0].0 == t {
        OnceEachCons((t, refs[0].1 + 1), rest);
        assert Added(refs, t)[1..] == rest;
      } else {
        AddedKeeps(rest, t);
        AddedListed(rest, t, refs[0].0);
        OnceEachCons(refs[0], Added(rest, t));
        assert Added(refs, t)[1..] == Added(rest, t);
      }
    }
  }

  lemma {:induction false} RemovedKeeps(refs: Refs, t: TraceId)
    requires OnceEach(refs) && CountOf(refs, t) > 0
    ensures OnceEach(Removed(refs, t)) && Total(Removed(refs, t)) == Total(refs) - 1
    ensures forall u :: CountOf(Removed(refs, t), u) == CountOf(refs, u) - if u == t then 1 else 0
    ensures forall u :: Lists(Removed(refs, t), u) ==> Lists(refs, u)
  {
    var rest := refs[1..];
    assert refs == [refs[0]] + rest;
    OnceEachCons(refs[0], rest);
    ListedIsCounted(rest, refs[0].0);
    if refs[0].0 != t {
      RemovedKeeps(rest, t);
      OnceEachCons(refs[0], Removed(rest, t));
      assert Removed(refs, t)[1..] == Removed(rest, t);
      forall u | Lists(Removed(refs, t), u) ensures Lists(refs, u) {
        ConsLists(refs[0], Removed(rest, t), u);
        ConsLists(refs[0], rest, u);
      }
    } else if refs[0].1 <= 1 {
      forall u | Lists(rest, u) ensures Lists(refs, u) { ConsLists(refs[0], rest, u); }
    } else {
      OnceEachCons((t, refs[0].1 - 1), rest);
      assert Removed(refs, t)[1..] == rest;
      forall u | Lists(Removed(refs, t), u) ensures Lists(refs, u) {
        ConsLists((t, refs[0].1 - 1), rest, u);
        ConsLists(refs[0], rest, u);
      }
    }
  }

  /** The list grew from `base` by references only. */
  predicate Extends(refs: Refs, base: Refs) {
    |base| <= |refs| && forall i :: 0 <= i < |base| ==> refs[i].0 == base[i].0 && refs[i].1 >= base[i].1
  }

  lemma {:induction false} AddedExtends(refs: Refs, base: Refs, t: TraceId)
    requires Extends(refs, base)
    ensures Extends(Added(refs, t), base)
  {
    if base != [] && refs[0].0 != t { AddedExtends(refs[1..], base[1..], t); }
  }

  lemma {:induction false} RemovedExtends(refs: Refs, base: Refs, t: TraceId)
    requires Extends(refs, base) && OnceEach(base) && CountOf(refs, t) > CountOf(base, t)
    ensures Extends(Removed(refs, t), base)
  {
    if base != [] && refs[0].0 != t { RemovedExtends(refs[1..], base[1..], t); }
  }

  lemma {:induction false} ExtendsByNothing(refs: Refs, base: Refs)
    requires Extends(refs, base) && OnceEach(refs) && Total(refs) <= Total(base)
    ensures refs == base
  {
    if refs != [] {
      assert refs == [refs[0]] + refs[1..];
      OnceEachCons(refs[0], refs[1..]);
      if base != [] {
        TotalExtends(refs[1..], base[1..]);
        ExtendsByNothing(refs[1..], base[1..]);
        assert base == [base[0]] + base[1..];
      }
    }
  }

  lemma {:induction false} TotalExtends(refs: Refs, base: Refs)
    requires Extends(refs, base)
    ensures Total(refs) >= Total(base)
  {
    if base != [] { TotalExtends(refs[1..], base[1..]); }
  }

  // ---- Balanced runs ----

  /** What runs on the connection: a statement, a moment of SQLite's virtual machine, an
      exception, a connection traced for the listed traces, and a cancellation scope that goes
      through one or more wrappers. */
  datatype Program =
    | Sql
    | Tick
    | Fail
    | Seq(first: Program, second: Program)
    | Traced(traces: seq<TraceId>, body: Program)
    | Scope(bridge: BridgeId, enabled: bool, instructions: int, extra: nat, body: Program)

  predicate Raises(p: Program) {
    match p
    case Sql => false
    case Tick => false
    case Fail => true
    case Seq(a, b) => Raises(a) || Raises(b)
    case Traced(_, body) => Raises(body)
    case Scope(_, _, n, _, body) => n <= 0 || Raises(body)
  }

  /** How many statements a trace must see. */
  function Expected(p: Program, t: TraceId, active: bool): nat {
    match p
    case Sql => if active then 1 else 0
    case Tick => 0
    case Fail => 0
    case Seq(a, b) => Expected(a, t, active) + if Raises(a) then 0 else Expected(b, t, active)
    case Traced(ts, body) => Expected(body, t, active || t in ts)
    case Scope(_, _, n, _, body) => if n <= 0 then 0 else Expected(body, t, active)
  }

  /** Outside tracing, ending an enabled scope or the last trace clears the handler. */
  predicate Clears(p: Program) {
    match p
    case Sql => false
    case Tick => false
    case Fail => false
    case Seq(a, b) => Clears(a) || (!Raises(a) && Clears(b))
    case Traced(ts, body) => ts != [] || Clears(body)
    case Scope(_, enabled, n, _, body) => n > 0 && (enabled || Clears(body))
  }

  function After(p: Program, h: Handler, traced: bool): Handler {
    if !traced && Clears(p) then NoHandler else h
  }

  /** The handler in force at every moment of the virtual machine: that of the innermost
      scope around it, or the observer of the tracing begun inside that scope. */
  function InForce(p: Program, h: Handler, traced: bool): seq<Handler> {
    match p
    case Sql => []
    case Tick => [h]
    case Fail => []
    case Seq(a, b) => InForce(a, h, traced) + if Raises(a) then [] else InForce(b, After(a, h, traced), traced)
    case Traced(ts, body) =>
      if traced || ts == [] then InForce(body, h, traced) else InForce(body, Observing(TRACE_INSTRUCTIONS), true)
    case Scope(b, enabled, n, _, body) =>
      if n <= 0 then [] else InForce(body, if enabled then Bridge(b, n) else h, traced)
  }

  // ---- The connection ----

  class TracedConnection {
    var registered: bool
    var callback: bool
    var handler: Handler
    var refs: Refs
    var refcount: nat
    var stack: seq<Registration>
    var serial: nat
    var seen: map<TraceId, nat>
    var ticks: seq<Handler>

    /** The reference count is the sum of the traces' counts, the state is registered while it
        is positive, and so is the statement callback. */
    ghost predicate Owned()
      reads this
    {
      && OnceEach(refs) && refcount == Total(refs)
      && (registered <==> refcount > 0) && (registered <==> refs != []) && (registered <==> callback)
      && (!registered ==> stack == [])
      && forall i :: 0 <= i < |stack| ==> stack[i].serial < serial
    }

    /** `current_progress`. */
    function Current(): Handler
      reads this
    {
      if stack != [] then stack[|stack| - 1].handler else Observing(TRACE_INSTRUCTIONS)
    }

    /** While registered, the connection's handler is the one that is due. */
    ghost predicate Valid()
      reads this
    {
      Owned() && (registered ==> handler == Current())
    }

    function Seen(t: TraceId): nat
      reads this
    {
      if t in seen then seen[t] else 0
    }

    constructor ()
      ensures Valid() && !registered && handler == NoHandler && seen == map[] && ticks == []
    {
      registered, callback, handler, refs, refcount, stack := false, false, NoHandler, [], 0, [];
      serial, seen, ticks := 0, map[], [];
    }

    /** `_register_trace_connection`. */
    method Register(t: TraceId)
      requires Valid()
      modifies this`registered, this`callback, this`handler, this`refs, this`refcount, this`stack
      ensures Valid() && registered && refs == Added(old(refs), t)
      ensures old(registered) ==> handler == old(handler) && stack == old(stack)
      ensures !old(registered) ==> handler == Observing(1000) && stack == []
    {
      AddedKeeps(refs, t);
      AddedListed(refs, t, t);
      if !registered {
        registered, stack := true, [];
        callback, handler := true, Observing(TRACE_INSTRUCTIONS);
      }
      refcount := refcount + 1;
      refs := Added(refs, t);
    }

    /** `_release_trace_connection`: the last release clears both callbacks. */
    method Release(t: TraceId)
      requires Owned() && CountOf(refs, t) > 0 && (refcount == 1 ==> stack == []) && handler == Current()
      modifies this`registered, this`callback, this`handler, this`refs, this`refcount
      ensures Valid() && refs == Removed(old(refs), t)
      ensures registered <==> old(refcount) > 1
      ensures if registered then handler == old(handler) else handler == NoHandler && !callback
    {
      RemovedKeeps(refs, t);
      TotalOfSome(Removed(refs, t));
      refcount := Max(0, refcount - 1);
      refs := Removed(refs, t);
      if refcount == 0 { registered, handler, callback := false, NoHandler, false; }
    }

    /** `observe_sql`: every registered trace sees the statement once. */
    method ExecuteSql()
      requires Owned()
      modifies this`seen
      ensures forall t :: Seen(t) == old(Seen(t)) + if Lists(refs, t) then 1 else 0
    {
      if !callback { return; }
      for i := 0 to |refs|
        invariant forall t :: Seen(t) == old(Seen(t)) + if Lists(refs[..i], t) then 1 else 0
      {
        var t := refs[i].0;
        assert !Lists(refs[..i], t);
        forall u ensures Lists(refs[..i + 1], u) <==> Lists(refs[..i], u) || u == t {
          SnocLists(refs, i, u);
        }
        seen := seen[t := (if t in seen then seen[t] else 0) + 1];
      }
      assert refs[..|refs|] == refs;
    }

    /** `_push_progress_scope`. */
    method Push(bridge: BridgeId, enabled: bool, instructions: int) returns (r: Option<Registration>)
      requires Owned()
      modifies this`stack, this`serial
      ensures Owned() && serial >= old(serial) && (r.Some? <==> registered && enabled)
      ensures r.Some? ==> r.value.handler == Bridge(bridge, instructions) && stack == old(stack) + [r.value]
      ensures r == None ==> stack == old(stack)
    {
      if !registered || !enabled { return None; }
      var registration := Registration(serial, Bridge(bridge, instructions));
      stack, serial := stack + [registration], serial + 1;
      return Some(registration);
    }

    /** `_pop_progress_scope`: the registration leaves the stack, from the top or, if scopes do
        not end in order, from where the first equal one is, and the handler now due is set. */
    method Pop(r: Option<Registration>)
      requires Owned() && (r.Some? ==> registered)
      modifies this`stack, this`handler
      ensures Owned()
      ensures stack == match r { case None => old(stack) case Some(x) => Without(old(stack), x) }
      ensures handler == if |stack| < |old(stack)| then Current() else old(handler)
    {
      if r == None { return; }
      var top: int := |stack| - 1;
      if top >= 0 && stack[top].serial == r.value.serial {
        stack := stack[..top];
      } else {
        var i := 0;
        while i < |stack| && stack[i].handler != r.value.handler
          invariant 0 <= i <= |stack|
          invariant FirstEqual(stack, r.value.handler) == i + FirstEqual(stack[i..], r.value.handler)
        {
          i := i + 1;
        }
        if i == |stack| { return; }
        stack := stack[..i] + stack[i + 1..];
      }
      handler := Current();
    }
  }

  /** Where the first registration with that handler is, or the length. */
  function FirstEqual(stack: seq<Registration>, h: Handler): (i: nat)
    ensures i <= |stack|
  {
    if stack == [] || stack[0].handler == h then 0 else 1 + FirstEqual(stack[1..], h)
  }

  function Without(stack: seq<Registration>, r: Registration): seq<Registration> {
    var i, top := FirstEqual(stack, r.handler), |stack| - 1;
    if top >= 0 && stack[top].serial == r.serial then stack[..top]
    else if i < |stack| then RemoveAt(stack, i)
    else stack
  }

  lemma WithoutTop(below: seq<Registration>, r: Registration)
    ensures Without(below + [r], r) == below
  {
  }

  lemma TotalOfSome(refs: Refs)
    requires OnceEach(refs)
    ensures Total(refs) > 0 <==> refs != []
  {
  }

  lemma SnocLists(refs: Refs, i: nat, u: TraceId)
    requires i < |refs|
    ensures Lists(refs[..i + 1], u) <==> Lists(refs[..i], u) || refs[i].0 == u
  {
    if Lists(refs[..i], u) {
      var j :| 0 <= j < i && refs[..i][j].0 == u;
      assert refs[..i + 1][j].0 == u;
    }
    assert refs[..i + 1][i] == refs[i];
    assert forall j :: 0 <= j < i ==> refs[..i + 1][j] == refs[..i][j];
  }

  // ---- Running a program ----

  /** What a run leaves as it found it. */
  twostate predicate Balanced(c: TracedConnection)
    reads c
  {
    && c.registered == old(c.registered) && c.refs == old(c.refs) && c.refcount == old(c.refcount)
    && c.stack == old(c.stack) && c.serial >= old(c.serial)
  }

  /** What the traces saw and the handlers that were in force. */
  twostate predicate Observed(c: TracedConnection, p: Program, h: Handler)
    reads c
  {
    && (forall t :: c.Seen(t) == old(c.Seen(t)) + Expected(p, t, Lists(c.refs, t)))
    && c.ticks == old(c.ticks) + InForce(p, h, c.registered)
  }

  /** A run of the program: tracing ends as it began, every trace has seen the statements it
      was registered for once each, every moment of the virtual machine had the handler of its
      innermost scope, and while tracing lasts the handler found at entry is back at the end. */
  method Run(c: TracedConnection, p: Program) returns (raised: bool)
    requires c.Valid()
    modifies c
    ensures c.Valid() && Balanced(c) && Observed(c, p, old(c.handler)) && raised == Raises(p)
    ensures c.handler == After(p, old(c.handler), c.registered)
    decreases p, 1
  {
    raised := false;
    match p {
      case Sql => c.ExecuteSql();
      case Tick => c.ticks := c.ticks + [c.handler];
      case Fail => raised := true;
      case Seq(a, b) => raised := RunSeq(c, a, b);
      case Traced(ts, body) => raised := RunTraced(c, ts, body);
      case Scope(b, enabled, n, extra, body) =>
        raised := Wrapped(c, b, enabled, n, extra + 1, body);
    }
  }

  method RunSeq(c: TracedConnection, a: Program, b: Program) returns (raised: bool)
    requires c.Valid()
    modifies c
    ensures c.Valid() && Balanced(c) && Observed(c, Seq(a, b), old(c.handler)) && raised == Raises(Seq(a, b))
    ensures c.handler == After(Seq(a, b), old(c.handler), c.registered)
    decreases Seq(a, b), 0
  {
    hide Expected, InForce, After, Clears, Raises, Lists;
    SeqMeans(a, b, c.handler, c.registered);
    raised := Run(c, a);
    if !raised {
      ghost var first := InForce(a, old(c.handler), c.registered);
      ghost var second := InForce(b, c.handler, c.registered);
      raised := Run(c, b);
      Regroup(old(c.ticks), first, second);
    }
  }

  lemma SeqMeans(a: Program, b: Program, h: Handler, traced: bool)
    ensures Raises(Seq(a, b)) == (Raises(a) || Raises(b))
    ensures After(Seq(a, b), h, traced)
         == if Raises(a) then After(a, h, traced) else After(b, After(a, h, traced), traced)
    ensures InForce(Seq(a, b), h, traced)
         == if Raises(a) then InForce(a, h, traced) else InForce(a, h, traced) + InForce(b, After(a, h, traced), traced)
    ensures forall t, active ::
      Expected(Seq(a, b), t, active) == Expected(a, t, active) + if Raises(a) then 0 else Expected(b, t, active)
  {
    SeqClears(a, b);
    hide Clears;
    assert InForce(a, h, traced) + [] == InForce(a, h, traced);
  }

  lemma SeqClears(a: Program, b: Program)
    ensures Clears(Seq(a, b)) == (Clears(a) || (!Raises(a) && Clears(b)))
  {
  }

  // ---- Tracing ----

  /** The references beyond `base` are those still owed. */
  ghost predicate Owes(refs: Refs, base: Refs, owed: multiset<TraceId>) {
    && Extends(refs, base) && Total(refs) == Total(base) + |owed|
    && forall t :: CountOf(refs, t) == CountOf(base, t) + owed[t]
  }

  lemma OwesNothing(refs: Refs)
    ensures Owes(refs, refs, multiset{})
  {
  }

  method RegisterAll(c: TracedConnection, ts: seq<TraceId>)
    requires c.Valid()
    modifies c`registered, c`callback, c`handler, c`refs, c`refcount, c`stack
    ensures c.Valid() && Owes(c.refs, old(c.refs), multiset(ts)) && c.stack == old(c.stack)
    ensures old(c.registered) || ts == [] ==> c.handler == old(c.handler) && c.registered == old(c.registered)
    ensures !old(c.registered) && ts != [] ==> c.handler == Observing(TRACE_INSTRUCTIONS) && c.registered
  {
    hide Added, CountOf, Total, Extends, OnceEach;
    OwesNothing(c.refs);
    assert multiset(ts[..0]) == multiset{};
    for i := 0 to |ts|
      invariant c.Valid() && Owes(c.refs, old(c.refs), multiset(ts[..i])) && c.stack == old(c.stack)
      invariant old(c.registered) || i == 0 ==> c.handler == old(c.handler) && c.registered == old(c.registered)
      invariant !old(c.registered) && i > 0 ==> c.handler == Observing(TRACE_INSTRUCTIONS) && c.registered
    {
      assert ts[..i + 1] == ts[..i] + [ts[i]];
      AddedKeeps(c.refs, ts[i]);
      AddedExtends(c.refs, old(c.refs), ts[i]);
      c.Register(ts[i]);
    }
    assert ts[..|ts|] == ts;
  }

  method ReleaseAll(c: TracedConnection, ts: seq<TraceId>, ghost base: Refs)
    requires c.Valid() && OnceEach(base) && Owes(c.refs, base, multiset(ts))
    requires base == [] ==> c.stack == []
    modifies c`registered, c`callback, c`handler, c`refs, c`refcount
    ensures c.Valid() && c.refs == base
    ensures c.handler == if c.registered || ts == [] then old(c.handler) else NoHandler
  {
    hide Removed, CountOf, Total, Extends, OnceEach;
    for i := 0 to |ts|
      invariant c.Valid() && Owes(c.refs, base, multiset(ts[i..]))
      invariant c.handler == if c.registered || i == 0 then old(c.handler) else NoHandler
    {
      assert ts[i..] == [ts[i]] + ts[i + 1..];
      RemovedKeeps(c.refs, ts[i]);
      RemovedExtends(c.refs, base, ts[i]);
      TotalOfSome(base);
      c.Release(ts[i]);
    }
    ExtendsByNothing(c.refs, base);
  }

  lemma OwedAreListed(refs: Refs, base: Refs, ts: seq<TraceId>, t: TraceId)
    requires OnceEach(refs) && OnceEach(base) && Owes(refs, base, multiset(ts))
    ensures Lists(refs, t) <==> Lists(base, t) || t in ts
  {
    ListedIsCounted(refs, t);
    ListedIsCounted(base, t);
    assert t in ts <==> multiset(ts)[t] > 0;
  }

  lemma TracedMeans(ts: seq<TraceId>, body: Program, h: Handler, traced: bool)
    ensures Raises(Traced(ts, body)) == Raises(body)
    ensures forall t, active :: Expected(Traced(ts, body), t, active) == Expected(body, t, active || t in ts)
    ensures traced || ts == [] ==> InForce(Traced(ts, body), h, traced) == InForce(body, h, traced)
    ensures !traced && ts != [] ==>
      InForce(Traced(ts, body), h, traced) == InForce(body, Observing(TRACE_INSTRUCTIONS), true)
    ensures After(body, h, true) == h
    ensures After(Traced(ts, body), h, traced)
         == if traced then h else if ts == [] then After(body, h, traced) else NoHandler
  {
  }

  /** A connection opened through wrappers for the listed traces: registered from the
      innermost out, released in the same order. */
  method RunTraced(c: TracedConnection, ts: seq<TraceId>, body: Program) returns (raised: bool)
    requires c.Valid()
    modifies c
    ensures c.Valid() && Balanced(c) && Observed(c, Traced(ts, body), old(c.handler)) && raised == Raises(body)
    ensures c.handler == After(Traced(ts, body), old(c.handler), c.registered)
    decreases Traced(ts, body), 0
  {
    TracedMeans(ts, body, c.handler, c.registered);
    hide Expected, InForce, After, Clears, Raises, Lists, Total, OnceEach, Owes;
    OwesNothing(c.refs);
    ghost var base := c.refs;
    RegisterAll(c, ts);
    forall t ensures Lists(c.refs, t) <==> Lists(base, t) || t in ts { OwedAreListed(c.refs, base, ts, t); }
    raised := Run(c, body);
    ReleaseAll(c, ts, base);
  }

  // ---- Cancellation scopes ----

  lemma ScopeMeans(b: BridgeId, enabled: bool, n: int, body: Program, h: Handler, traced: bool)
    ensures var scope, inside := Scope(b, enabled, n, 0, body), if enabled then Bridge(b, n) else h;
      && Raises(scope) == (n <= 0 || Raises(body))
      && After(scope, h, false) == (if n <= 0 then h else if enabled then NoHandler else After(body, h, false))
      && InForce(scope, h, traced) == (if n <= 0 then [] else InForce(body, inside, traced))
      && After(body, inside, true) == inside
    ensures forall t, active ::
      Expected(Scope(b, enabled, n, 0, body), t, active) == if n <= 0 then 0 else Expected(body, t, active)
  {
  }

  /** `sqlite_cancellation_scope` itself: set, run, always clear. */
  method Original(c: TracedConnection, b: BridgeId, enabled: bool, n: int, body: Program) returns (raised: bool)
    requires c.Owned() && (c.registered ==> c.Current() == if enabled then Bridge(b, n) else c.handler)
    modifies c
    ensures c.Owned() && Balanced(c) && Observed(c, Scope(b, enabled, n, 0, body), old(c.handler))
    ensures raised == Raises(Scope(b, enabled, n, 0, body))
    ensures c.registered && !enabled ==> c.handler == old(c.handler)
    ensures !c.registered ==> c.handler == After(Scope(b, enabled, n, 0, body), old(c.handler), false)
    decreases body, 2
  {
    ScopeMeans(b, enabled, n, body, c.handler, c.registered);
    hide Expected, InForce, After, Clears, Raises, Lists, Total, OnceEach;
    if n <= 0 { return true; }
    if enabled { c.handler := Bridge(b, n); }
    raised := Run(c, body);
    if enabled { c.handler := NoHandler; }
  }

  /** What the outermost of `layers` wrappers encloses. */
  method Inside(c: TracedConnection, b: BridgeId, enabled: bool, n: int, layers: nat, body: Program)
    returns (raised: bool)
    requires layers > 0 && c.Owned() && (c.registered ==> c.Current() == if enabled then Bridge(b, n) else c.handler)
    modifies c
    ensures c.Owned() && Balanced(c) && Observed(c, Scope(b, enabled, n, 0, body), old(c.handler))
    ensures raised == Raises(Scope(b, enabled, n, 0, body))
    ensures c.registered && !enabled ==> c.handler == c.Current()
    ensures !c.registered ==> c.handler == After(Scope(b, enabled, n, 0, body), old(c.handler), false)
    decreases body, 3, layers, 0
  {
    hide Expected, InForce, After, Raises, OnceEach, Total, Lists, Without;
    if layers == 1 {
      raised := Original(c, b, enabled, n, body);
    } else {
      raised := Wrapped(c, b, enabled, n, layers - 1, body);
    }
  }

  /** The scope inside its wrappers: each pushes the bridge, and on the way out pops it and
      sets the handler that is then due. */
  method Wrapped(c: TracedConnection, b: BridgeId, enabled: bool, n: int, layers: nat, body: Program)
    returns (raised: bool)
    requires layers > 0 && c.Owned() && (c.registered && !enabled ==> c.handler == c.Current())
    modifies c
    ensures c.Owned() && Balanced(c) && Observed(c, Scope(b, enabled, n, 0, body), old(c.handler))
    ensures raised == Raises(Scope(b, enabled, n, 0, body))
    ensures c.registered ==> c.handler == c.Current()
    ensures !c.registered ==> c.handler == After(Scope(b, enabled, n, 0, body), old(c.handler), false)
    decreases body, 3, layers, 1
  {
    hide Expected, InForce, After, Raises, OnceEach, Total, Lists, Without;
    var registration := c.Push(b, enabled, n);
    ghost var pushed := c.stack;
    assert registration.Some? ==> c.Current() == Bridge(b, n);
    raised := Inside(c, b, enabled, n, layers, body);
    if registration.Some? {
      WithoutTop(old(c.stack), registration.value);
      assert pushed == old(c.stack) + [registration.value];
    }
    c.Pop(registration);
  }

  // ---- What the end of a scope restores ----

  lemma ScopeRestoresExactly(b: BridgeId, enabled: bool, n: int, extra: nat, body: Program, h: Handler, traced: bool)
    ensures After(Scope(b, enabled, n, extra, body), h, traced) == h <==>
      traced || h == NoHandler || n <= 0 || (!enabled && !Clears(body))
  {
  }

  /** Over the whole scope, the handler in force before it is back after it exactly when the
      connection is traced, or there was none, or nothing in the scope cleared a handler. */
  method RunScope(c: TracedConnection, b: BridgeId, enabled: bool, n: int, extra: nat, body: Program)
    returns (raised: bool)
    requires c.Valid()
    modifies c
    ensures c.Valid() && Balanced(c) && raised == (n <= 0 || Raises(body))
    ensures c.handler == old(c.handler) <==>
      old(c.registered) || old(c.handler) == NoHandler || n <= 0 || (!enabled && !Clears(body))
  {
    hide Expected, InForce, After;
    ScopeRestoresExactly(b, enabled, n, extra, body, c.handler, c.registered);
    raised := Run(c, Scope(b, enabled, n, extra, body));
  }

  /** Two nested scopes on an untraced connection: the outer handler is gone after the inner. */
  lemma UntracedNestingLosesTheHandler(outer: BridgeId, inner: BridgeId, m: int, n: int, traced: bool)
    requires m > 0 && n > 0
    ensures InForce(Scope(outer, true, m, 0, Seq(Scope(inner, true, n, 0, Tick), Tick)), NoHandler, traced)
         == [Bridge(inner, n), if traced then Bridge(outer, m) else NoHandler]
  {
    var nested, h := Scope(inner, true, n, 0, Tick), Bridge(outer, m);
    assert !Raises(Tick) && !Raises(nested);
    assert InForce(Tick, Bridge(inner, n), traced) == [Bridge(inner, n)];
    assert InForce(nested, h, traced) == [Bridge(inner, n)];
    assert InForce(Seq(nested, Tick), h, traced)
        == [Bridge(inner, n)] + InForce(Tick, After(nested, h, traced), traced);
  }
}
