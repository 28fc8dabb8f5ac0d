/** The two tables of the chunk layout benchmark, what its statements do to them, and a
    connection whose every step may fail. */
module SemanticStore {
  import opened Prelude
  import opened TupleDigest

  type Key = bytes

  datatype Parent = Parent(id: Key, cells: Row)

  datatype Chunk = Chunk(id: Key, item: Key, signature: Key, active: bool, cells: Row)

  datatype Store = Store(parents: map<Key, Parent>, chunks: map<Key, Chunk>) {
    /** Rows are stored under their primary key and the foreign key holds. */
    ghost predicate Valid() {
      && (forall k :: k in parents ==> parents[k].id == k)
      && (forall k :: k in chunks ==> chunks[k].id == k && chunks[k].item in parents)
    }
  }

  const EMPTY := Store(map[], map[])

  datatype Statement = InsertParent(parent: Parent) | InsertChunk(chunk: Chunk) | UpsertChunk(chunk: Chunk)

  /** `SET` every column but the primary key to the excluded row's. */
  function Overwritten(row: Chunk, excluded: Chunk): Chunk {
    Chunk(row.id, excluded.item, excluded.signature, excluded.active, excluded.cells)
  }

  /** One row written, or `None` for a violated primary or foreign key. */
  function Execute(store: Store, s: Statement): (r: Option<Store>)
    ensures store.Valid() && r.Some? ==> r.value.Valid()
  {
    match s
    case InsertParent(p) =>
      if p.id in store.parents then None else Some(store.(parents := store.parents[p.id := p]))
    case InsertChunk(c) =>
      if c.id in store.chunks || c.item !in store.parents then None
      else Some(store.(chunks := store.chunks[c.id := c]))
    case UpsertChunk(c) =>
      if c.item !in store.parents then None
      else
        var row := if c.id in store.chunks then Overwritten(store.chunks[c.id], c) else c;
        Some(store.(chunks := store.chunks[c.id := row]))
  }

  function ExecuteAll(store: Store, rows: seq<Statement>): (r: Option<Store>)
    ensures store.Valid() && r.Some? ==> r.value.Valid()
  {
    if rows == [] then Some(store)
    else
      match ExecuteAll(store, rows[..|rows| - 1])
      case None => None
      case Some(t) => Execute(t, rows[|rows| - 1])
  }

  lemma {:induction false} ExecuteInParts(store: Store, a: seq<Statement>, b: seq<Statement>)
    ensures ExecuteAll(store, a + b)
         == match ExecuteAll(store, a) case None => None case Some(t) => ExecuteAll(t, b)
  {
    if b == [] {
      assert a + b == a;
    } else {
      var init := b[..|b| - 1];
      assert (a + b)[..|a + b| - 1] == a + init;
      ExecuteInParts(store, a, init);
    }
  }

  lemma ExecuteSnoc(store: Store, rows: seq<Statement>, s: Statement)
    ensures ExecuteAll(store, rows + [s])
         == match ExecuteAll(store, rows) case None => None case Some(t) => Execute(t, s)
  {
    assert (rows + [s])[..|rows|] == rows;
  }

  lemma ExecuteNone(store: Store, rows: seq<Statement>)
    ensures ExecuteAll(store, rows[..0]) == Some(store)
  {
  }

  /** Rows that begin with refused ones are refused. */
  lemma RefusedEarly(store: Store, rows: seq<Statement>, i: nat)
    requires i <= |rows|
    ensures ExecuteAll(store, rows[..i]) == None ==> ExecuteAll(store, rows) == None
  {
    assert rows[..i] + rows[i..] == rows;
    ExecuteInParts(store, rows[..i], rows[i..]);
  }

  /** The active rows of a group among the listed keys. */
  function Touched(store: Store, item: Key, signature: Key, ids: seq<Key>): set<Key> {
    set k | k in ids && k in store.chunks && store.chunks[k].item == item
      && store.chunks[k].signature == signature && store.chunks[k].active
  }

  /** `SET refresh_token=refresh_token, active=active, updated_ns=updated_ns`. */
  function Refreshed(store: Store, rows: set<Key>): Store {
    store.(chunks := map k | k in store.chunks ::
      var row := store.chunks[k];
      if k in rows then row.(active := row.active, cells := row.cells) else row)
  }

  lemma RefreshKeepsRows(store: Store, rows: set<Key>)
    ensures Refreshed(store, rows) == store
  {
    assert Refreshed(store, rows).chunks == store.chunks;
  }

  /** A database connection.  `faults` says at which of the successive steps SQLite, the
      deadline or the byte budget raises, and `rollbackFaults` when a rollback does. */
  class Connection {
    const faults: nat -> bool
    const rollbackFaults: nat -> bool
    var clock: nat
    var committed: Store
    var pending: Option<Store>
    /** The rows written so far, whatever became of their transactions. */
    ghost var written: seq<Statement>
    /** The rows that each refresh statement wrote. */
    ghost var log: seq<set<Key>>

    constructor (initial: Store, faults: nat -> bool, rollbackFaults: nat -> bool)
      ensures committed == initial && pending == None && log == [] && written == [] && clock == 0
      ensures this.faults == faults && this.rollbackFaults == rollbackFaults
    {
      this.faults, this.rollbackFaults := faults, rollbackFaults;
      clock, committed, pending, log, written := 0, initial, None, [], [];
    }

    /** Nothing is left pending, unless the last step was a rollback that failed. */
    predicate Settled()
      reads this
    {
      pending == None || (clock > 0 && rollbackFaults(clock - 1))
    }

    /** A deadline or budget check, and the failure part of every other step. */
    method Step() returns (ok: bool)
      modifies this`clock
      ensures clock == old(clock) + 1 && (ok <==> !faults(old(clock)))
    {
      ok := !faults(clock);
      clock := clock + 1;
    }

    method Begin() returns (ok: bool)
      modifies this`clock, this`pending
      ensures clock == old(clock) + 1 && (ok <==> !faults(old(clock)) && old(pending) == None)
      ensures pending == if ok then Some(committed) else old(pending)
    {
      ok := Step();
      if ok && pending == None { pending := Some(committed); } else { ok := false; }
    }

    /** `executemany`: row after row, so a failure leaves the rows before the one that fails
        pending, and it fails because a step does or because that row is refused. */
    method ExecuteMany(rows: seq<Statement>) returns (ok: bool)
      requires pending.Some?
      modifies this`clock, this`pending, this`written
      ensures pending.Some? && clock >= old(clock)
      ensures ok ==> ExecuteAll(old(pending).value, rows) == pending && NoFault(faults, old(clock), clock)
      ensures ok ==> clock == old(clock) + |rows| && written == old(written) + rows
      ensures !ok ==> clock > old(clock) && clock - old(clock) <= |rows|
      ensures !ok ==> ExecuteAll(old(pending).value, rows[..clock - old(clock) - 1]) == pending
      ensures !ok ==> written == old(written) + rows[..clock - old(clock) - 1]
      ensures !ok ==>
        Stopped(faults, old(clock), clock) || ExecuteAll(old(pending).value, rows[..clock - old(clock)]) == None
      ensures !ok ==> Ended(faults, old(clock), clock, ExecuteAll(old(pending).value, rows) == None)
    {
      hide ExecuteAll, Execute, NoFault, Stopped, Ended;
      ghost var base, start := pending.value, clock;
      ExecuteNone(base, rows);
      NoFaultSoFar(faults, start, start);
      for i := 0 to |rows|
        invariant pending.Some? && ExecuteAll(base, rows[..i]) == pending
        invariant clock == start + i && NoFault(faults, start, clock) && written == old(written) + rows[..i]
      {
        assert rows[..i + 1] == rows[..i] + [rows[i]];
        ExecuteSnoc(base, rows[..i], rows[i]);
        RefusedEarly(base, rows, i + 1);
        NoFaultSoFar(faults, start, clock);
        ok := Step();
        if !ok { return; }
        var next := Execute(pending.value, rows[i]);
        if next == None { return false; }
        pending, written := next, written + [rows[i]];
      }
      assert rows[..|rows|] == rows;
      ok := true;
    }

    /** The refresh `UPDATE`, assigning three columns to themselves, and its row count. */
    method Refresh(item: Key, signature: Key, ids: seq<Key>) returns (ok: bool, touched: nat)
      requires pending.Some?
      modifies this`clock, this`pending, this`log
      ensures pending == old(pending) && clock == old(clock) + 1 && (ok <==> !faults(old(clock)))
      ensures ok ==> touched == |Touched(old(pending).value, item, signature, ids)|
      ensures log == if ok then old(log) + [Touched(old(pending).value, item, signature, ids)] else old(log)
    {
      touched := 0;
      ok := Step();
      if !ok { return; }
      var store := pending.value;
      var rows := Touched(store, item, signature, ids);
      RefreshKeepsRows(store, rows);
      pending := Some(Refreshed(store, rows));
      touched, log := |rows|, log + [rows];
    }

    method Commit() returns (ok: bool)
      requires pending.Some?
      modifies this`clock, this`pending, this`committed
      ensures clock == old(clock) + 1 && (ok <==> !faults(old(clock)))
      ensures if ok then pending == None && committed == old(pending).value
              else pending == old(pending) && committed == old(committed)
    {
      ok := Step();
      if ok { committed, pending := pending.value, None; }
    }

    /** A failing rollback is ignored; what is pending is then lost when the connection closes. */
    method Rollback()
      modifies this`clock, this`pending
      ensures clock == old(clock) + 1
      ensures pending == if rollbackFaults(old(clock)) then old(pending) else None
    {
      if !rollbackFaults(clock) { pending := None; }
      clock := clock + 1;
    }
  }
}
