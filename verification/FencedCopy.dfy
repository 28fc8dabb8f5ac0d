/** Copying a file between fences while another process may rewrite or replace the source, or
    take the destination's name, before every single step. */
module FencedCopy {
  import opened Prelude

  datatype Source = Absent | Symlink(target: bytes) | Special | Regular(content: bytes)

  datatype Destination = Free | Foreign(content: bytes) | Ours(content: bytes)

  /** What the other process does at one moment. */
  datatype Move = Stay | Rewrite(content: bytes) | Replace(source: Source) | Occupy(content: bytes)

  /** Every change of the source shows in device, inode, size or times: here, in a version. */
  datatype Fence = NoFile | Link | NonRegular | Present(version: nat)

  const BLOCK: nat := 1024 * 1024

  /** Versions never go back, and one version is one content. */
  ghost predicate Consistent(seen: seq<(nat, Source)>) {
    && (forall i, j :: 0 <= i <= j < |seen| ==> seen[i].0 <= seen[j].0)
    && (forall i, j :: 0 <= i <= j < |seen| && seen[i].0 == seen[j].0 ==> seen[i].1 == seen[j].1)
  }

  lemma StaysConsistent(seen: seq<(nat, Source)>, version: nat, source: Source)
    requires Consistent(seen) && seen != []
    requires var last := seen[|seen| - 1]; last.0 < version || last == (version, source)
    ensures Consistent(seen + [(version, source)])
  {
  }

  class World {
    const schedule: seq<Move>
    const faults: nat -> bool
    /** When the removal of the destination fails. */
    const removalFaults: nat -> bool
    /** What storage keeps of a written block. */
    const kept: (nat, bytes) -> bytes
    var clock: nat
    var version: nat
    var source: Source
    var handle: bytes
    var linked: bool
    var destination: Destination
    ghost var seen: seq<(nat, Source)>
    ghost var foreign: Option<bytes>
    /** When removals of the destination were tried. */
    ghost var removals: seq<nat>

    /** The history of the source ends in the present and never shows one version with two
        contents; what another process put under the destination's name is untouched. */
    ghost predicate Valid()
      reads this
    {
      && seen != [] && seen[|seen| - 1] == (version, source)
      && Consistent(seen)
      && (foreign.Some? <==> destination.Foreign?)
      && (foreign.Some? ==> destination == Foreign(foreign.value))
      && forall t :: t in removals ==> t <= clock
    }

    constructor (schedule: seq<Move>, faults: nat -> bool, removalFaults: nat -> bool, kept: (nat, bytes) -> bytes,
      source: Source, occupant: Option<bytes>)
      ensures Valid() && this.schedule == schedule && this.faults == faults && this.kept == kept
      ensures this.removalFaults == removalFaults && this.source == source && clock == 0
      ensures destination == match occupant { case None => Free case Some(c) => Foreign(c) }
    {
      this.schedule, this.faults, this.removalFaults, this.kept := schedule, faults, removalFaults, kept;
      clock, version, handle, linked := 0, 0, [], false;
      this.source := source;
      destination := match occupant { case None => Free case Some(c) => Foreign(c) };
      seen, foreign, removals := [(0, source)], occupant, [];
    }

    /** What a later state keeps: the history grows, and an unchanged version means an
        unchanged source throughout. */
    twostate predicate Later()
      reads this
    {
      && Valid()
      && old(seen) <= seen && old(version) <= version && old(clock) <= clock
      && (old(foreign).Some? ==> foreign == old(foreign))
    }

    ghost predicate Quiet() {
      (forall m :: m in schedule ==> m == Stay) && (forall t :: !faults(t)) && (forall t, b :: kept(t, b) == b)
    }

    /** How many moves the other process still has. */
    ghost function Moves(): nat
      reads this
    {
      if clock < |schedule| then |schedule| - clock else 0
    }

    /** The destination's name after one moment in which only the other process acts. */
    function Taken(place: Destination, tick: nat): (r: Destination)
      ensures r == place || (place.Free? && r.Foreign?)
    {
      if place.Free? && tick < |schedule| && schedule[tick].Occupy? then Foreign(schedule[tick].content) else place
    }

    /** The same after the moments from one time to another. */
    function TakenDuring(place: Destination, from: nat, to: nat): (r: Destination)
      ensures r == place || (place.Free? && r.Foreign?)
    {
      if to <= from then place else Taken(TakenDuring(place, from, to - 1), to - 1)
    }

    /** Another process acts, or time just passes. */
    method Pass()
      requires Valid()
      modifies this
      ensures Later() && clock == old(clock) + 1 && |seen| == |old(seen)| + 1 && removals == old(removals)
      ensures version == old(version) ==> source == old(source) && handle == old(handle) && linked == old(linked)
      ensures old(clock) >= |schedule| || Quiet() ==> version == old(version) && destination == old(destination)
      ensures destination == Taken(old(destination), old(clock))
    {
      hide Consistent;
      var move := if clock < |schedule| then schedule[clock] else Stay;
      assert Quiet() ==> move == Stay by { assert clock < |schedule| ==> schedule[clock] in schedule; }
      clock := clock + 1;
      match move {
        case Stay =>
        case Rewrite(c) =>
          if source.Regular? {
            source, version := Regular(c), version + 1;
            if linked { handle := c; }
          }
        case Replace(s) =>
          source, version, linked := s, version + 1, false;
        case Occupy(c) =>
          if destination.Free? { destination, foreign := Foreign(c), Some(c); }
      }
      StaysConsistent(seen, version, source);
      seen := seen + [(version, source)];
    }

    /** An operation that the operating system may fail. */
    method Step() returns (ok: bool)
      requires Valid()
      modifies this
      ensures Later() && clock == old(clock) + 1
      ensures version == old(version) ==> source == old(source) && handle == old(handle) && linked == old(linked)
      ensures old(clock) >= |schedule| || Quiet() ==> version == old(version) && destination == old(destination)
      ensures destination == Taken(old(destination), old(clock))
      ensures ok || faults(clock)
    {
      Pass();
      ok := !faults(clock);
    }

    /** `_file_fence(source)`. */
    method SourceFence() returns (f: Fence)
      requires Valid()
      modifies this
      ensures Later() && f == FenceOf(source, version) && |seen| == |old(seen)| + 1 && clock == old(clock) + 1
      ensures destination == Taken(old(destination), old(clock))
      ensures Quiet() ==> version == old(version) && source == old(source) && destination == old(destination)
    {
      Pass();
      f := FenceOf(source, version);
    }

    /** `source.open("rb")`; opening follows a symbolic link. */
    method OpenSource() returns (ok: bool)
      requires Valid()
      modifies this
      ensures Later() && clock == old(clock) + 1
      ensures destination == Taken(old(destination), old(clock))
      ensures ok && source.Regular? ==> handle == source.content && linked
      ensures Quiet() ==> version == old(version) && source == old(source) && destination == old(destination)
      ensures Quiet() && old(source).Regular? ==> ok
    {
      hide Consistent;
      ok := Step();
      match source {
        case Regular(c) => handle, linked := c, true;
        case Symlink(c) => handle, linked := c, false;
        case _ => ok := false;
      }
    }

    /** The next block of the opened file, empty at its end. */
    method ReadBlock(at: nat) returns (ok: bool, block: bytes)
      requires Valid()
      modifies this
      ensures Later() && clock == old(clock) + 1
      ensures version == old(version) ==> source == old(source) && handle == old(handle) && linked == old(linked)
      ensures old(clock) >= |schedule| || Quiet() ==> version == old(version)
      ensures destination == Taken(old(destination), old(clock))
      ensures Quiet() ==> ok && destination == old(destination)
      ensures block == if at < |handle| then handle[at..Min(at + 1_048_576, |handle|)] else []
    {
      ok := Step();
      block := if at < |handle| then handle[at..Min(at + BLOCK, |handle|)] else [];
    }
  }

  function FenceOf(source: Source, version: nat): Fence {
    match source
    case Absent => NoFile
    case Symlink(_) => Link
    case Special => NonRegular
    case Regular(_) => Present(version)
  }

  // ---- Reading and copying ----

  /** `_file_sha256(source)`: a hash of what was read, which is the source's content if the
      source did not change meanwhile. */
  method HashSource(w: World, h: bytes -> bytes) returns (hash: Option<bytes>)
    requires w.Valid() && !w.destination.Free?
    modifies w
    ensures w.Later() && w.destination == old(w.destination)
    ensures hash.Some? && w.version == old(w.version) && old(w.source).Regular? ==>
      hash.value == h(old(w.source).content)
    ensures w.Quiet() && old(w.source).Regular? ==> hash.Some? && w.version == old(w.version)
  {
    var ok := w.OpenSource();
    if !ok { return None; }
    ghost var version := w.version;
    var data: bytes := [];
    var block: bytes;
    assert w.handle[..0] == [];
    while true
      invariant w.Later() && w.destination == old(w.destination) && version <= w.version
      invariant w.version == version && w.source.Regular? ==> w.handle == w.source.content
      invariant w.version == version ==> |data| <= |w.handle| && data == w.handle[..|data|]
      invariant w.version == old(w.version) ==> w.source == old(w.source)
      invariant w.Quiet() ==> w.version == version == old(w.version)
      decreases w.Moves(), |w.handle| - |data|
    {
      ghost var before := w.handle;
      ok, block := w.ReadBlock(|data|);
      if !ok { return None; }
      if block == [] { break; }
      assert w.version == version ==> data + block == before[..|data| + |block|];
      data := data + block;
    }
    assert w.version == version ==> data == w.handle;
    return Some(h(data));
  }

  /** `destination.open("xb")`: creates the file, or fails because the name is taken. */
  method CreateDestination(w: World) returns (created: bool)
    requires w.Valid() && !w.destination.Ours?
    modifies w
    ensures w.Later() && w.clock == old(w.clock) + 1
    ensures w.version == old(w.version) ==>
      w.source == old(w.source) && w.handle == old(w.handle) && w.linked == old(w.linked)
    ensures if created then w.Taken(old(w.destination), old(w.clock)).Free? && w.destination == Ours([])
            else w.destination == w.Taken(old(w.destination), old(w.clock))
    ensures w.Quiet() ==> w.version == old(w.version)
    ensures w.Quiet() && old(w.destination).Free? ==> created
  {
    var ok := w.Step();
    created := ok && w.destination.Free?;
    if created { w.destination := Ours([]); }
  }

  /** Whatever storage keeps of a block goes to the end of this call's file. */
  method Append(w: World, block: bytes)
    requires w.Valid() && w.destination.Ours?
    modifies w`destination
    ensures w.Valid() && w.destination == Ours(old(w.destination).content + w.kept(w.clock, block))
  {
    w.destination := Ours(w.destination.content + w.kept(w.clock, block));
  }

  /** One block read and written; what storage keeps of it need not be the block. */
  method CopyBlock(w: World, at: nat) returns (ok: bool, n: nat)
    requires w.Valid() && w.destination.Ours?
    modifies w
    ensures w.Later() && w.destination.Ours? && w.clock == old(w.clock) + 1
    ensures w.version == old(w.version) ==> w.handle == old(w.handle)
    ensures old(w.clock) >= |w.schedule| || w.Quiet() ==> w.version == old(w.version)
    ensures ok ==> n == if at < |w.handle| then Min(1_048_576, |w.handle| - at) else 0
    ensures w.Quiet() ==> ok
    ensures w.Quiet() && at <= |w.handle| && old(w.destination) == Ours(w.handle[..at]) ==>
      w.destination == Ours(w.handle[..at + n])
  {
    n := 0;
    var block: bytes;
    ok, block := w.ReadBlock(at);
    if !ok || block == [] { return; }
    BlockExtends(w.handle, at, block);
    Append(w, block);
    n := |block|;
  }

  /** The loop over the blocks. */
  method WriteBlocks(w: World) returns (ok: bool)
    requires w.Valid() && w.destination == Ours([])
    modifies w
    ensures w.Later() && w.destination.Ours?
    ensures w.Quiet() ==> ok && w.version == old(w.version) && w.destination == Ours(old(w.handle))
  {
    var at: nat, n: nat := 0, 0;
    assert w.handle[..0] == [];
    while true
      invariant w.Later() && w.destination.Ours?
      invariant w.Quiet() ==> w.version == old(w.version) && w.handle == old(w.handle) && at <= |w.handle|
      invariant w.Quiet() ==> w.destination == Ours(w.handle[..at])
      decreases w.Moves(), |w.handle| - at
    {
      ok, n := CopyBlock(w, at);
      if !ok || n == 0 { break; }
      at := at + n;
    }
    assert at >= |w.handle| && w.Quiet() ==> w.handle[..at] == w.handle;
  }

  lemma BlockExtends(content: bytes, at: nat, block: bytes)
    requires at < |content| && block == content[at..Min(at + BLOCK, |content|)]
    ensures content[..at] + block == content[..at + |block|]
  {
  }

  /** Permissions, the blocks, flush, sync and close. */
  method CopyBlocks(w: World) returns (ok: bool)
    requires w.Valid() && w.destination == Ours([])
    modifies w
    ensures w.Later() && w.destination.Ours?
    ensures w.Quiet() ==> ok && w.version == old(w.version) && w.destination == Ours(old(w.handle))
  {
    ok := w.Step();
    if !ok { return; }
    ok := WriteBlocks(w);
    if !ok { return; }
    ok := w.Step();
  }

  /** `destination.unlink()`, passing over a missing file. */
  method Unlink(w: World) returns (ok: bool)
    requires w.Valid() && w.destination.Ours?
    modifies w
    ensures w.Later() && w.clock == old(w.clock) + 1 && w.removals == old(w.removals) + [w.clock]
    ensures ok <==> !w.removalFaults(w.clock)
    ensures w.destination == if ok then Free else old(w.destination)
  {
    w.Pass();
    w.removals := w.removals + [w.clock];
    ok := !w.removalFaults(w.clock);
    if ok { w.destination := Free; }
  }

  datatype Outcome = Copied(fence: Fence, hash: bytes) | Abstained | Raised

  /** From the `first` observation on, the source was this very file. */
  ghost predicate Throughout(w: World, first: nat, content: bytes)
    reads w
  {
    first < |w.seen| && forall i :: first <= i < |w.seen| ==> w.seen[i] == (w.version, Regular(content))
  }

  /** An unchanged fence means an unchanged source. */
  lemma FenceHolds(w: World, first: nat)
    requires w.Valid() && first < |w.seen| && w.seen[first].1.Regular?
    requires FenceOf(w.seen[first].1, w.seen[first].0) == FenceOf(w.source, w.version)
    ensures Throughout(w, first, w.seen[first].1.content)
  {
    var last := |w.seen| - 1;
    assert w.seen[last] == (w.version, w.source);
    forall i | first <= i < |w.seen| ensures w.seen[i] == w.seen[first] {
      assert w.seen[first].0 <= w.seen[i].0 <= w.seen[last].0;
    }
  }

  /** The file copied is the source as it was from the `first` observation on. */
  ghost predicate Faithful(w: World, h: bytes -> bytes, first: nat, fence: Fence, hash: bytes)
    reads w
  {
    && w.destination.Ours? && w.source.Regular? && Throughout(w, first, w.source.content)
    && fence == FenceOf(w.source, w.version) && hash == h(w.destination.content) == h(w.source.content)
  }

  /** The fences and hashes after the copy. */
  method Verify(w: World, h: bytes -> bytes, before: Fence) returns (verified: bool, hash: bytes)
    requires w.Valid() && w.destination.Ours? && before.Present?
    modifies w
    ensures w.Later() && w.destination == old(w.destination)
    ensures verified ==> FenceOf(w.source, w.version) == before && w.source.Regular?
    ensures verified ==> hash == h(w.destination.content) == h(w.source.content)
    ensures w.Quiet() && before == FenceOf(old(w.source), old(w.version)) ==>
      (w.destination == Ours(old(w.source).content) ==> verified)
  {
    verified, hash := false, [];
    var after := w.SourceFence();
    w.Pass();
    var sourceHash := HashSource(w, h);
    var ok := w.Step();
    hash := h(w.destination.content);
    var afterHash := w.SourceFence();
    verified := before == after == afterHash && sourceHash.Some? && ok && sourceHash.value == hash;
  }

  /** The last thing that happened was a removal of this call's file, and it failed. */
  ghost predicate RemovalFailed(w: World)
    reads w
  {
    && w.destination.Ours? && w.removalFaults(w.clock)
    && w.removals != [] && w.removals[|w.removals| - 1] == w.clock
  }

  lemma OneMoment(w: World, place: Destination, from: nat, to: nat)
    requires from <= to
    ensures w.TakenDuring(place, from, from) == place
    ensures w.TakenDuring(place, from, to + 1) == w.Taken(w.TakenDuring(place, from, to), to)
  {
  }

  /** The copy into the created file, its verification, and its removal when that fails. */
  method FillAndVerify(w: World, h: bytes -> bytes, before: Fence, ghost first: nat) returns (r: Outcome)
    requires w.Valid() && w.destination == Ours([]) && before.Present?
    requires first < |w.seen| && before == FenceOf(w.seen[first].1, w.seen[first].0)
    modifies w
    ensures w.Later()
    ensures r.Copied? ==> Faithful(w, h, first, r.fence, r.hash)
    ensures r.Abstained? ==> w.destination.Free?
    ensures r.Raised? ==> RemovalFailed(w)
    ensures w.Quiet() && before == FenceOf(old(w.source), old(w.version)) && old(w.source) == Regular(old(w.handle)) ==>
      r.Copied? && w.destination == Ours(old(w.handle))
  {
    hide World.Quiet;
    var ok := CopyBlocks(w);
    if ok {
      var verified, hash := Verify(w, h, before);
      if verified {
        FenceHolds(w, first);
        return Copied(before, hash);
      }
    }
    ok := Unlink(w);
    return if ok then Abstained else Raised;
  }

  /** The protected block and what follows it, once both fences allow a copy. */
  method CopyAndVerify(w: World, h: bytes -> bytes, before: Fence, ghost first: nat) returns (r: Outcome)
    requires w.Valid() && !w.destination.Ours? && before.Present?
    requires first < |w.seen| && before == FenceOf(w.seen[first].1, w.seen[first].0)
    modifies w
    ensures w.Later() && w.clock > old(w.clock)
    ensures r.Copied? ==> Faithful(w, h, first, r.fence, r.hash)
    ensures r.Abstained? ==>
      w.destination == w.TakenDuring(old(w.destination), old(w.clock), Min(w.clock, old(w.clock) + 2))
    ensures !r.Abstained? ==> w.TakenDuring(old(w.destination), old(w.clock), old(w.clock) + 2).Free?
    ensures r.Raised? ==> RemovalFailed(w)
    ensures w.Quiet() && before == FenceOf(old(w.source), old(w.version)) && old(w.destination).Free? ==>
      r.Copied? && w.destination == Ours(old(w.source).content)
  {
    hide World.Quiet, World.TakenDuring, World.Taken, Faithful, RemovalFailed;
    ghost var start, place := w.clock, w.destination;
    OneMoment(w, place, start, start);
    OneMoment(w, place, start, start + 1);
    var ok := w.OpenSource();
    if !ok { return Abstained; }
    var created := CreateDestination(w);
    if !created { return Abstained; }
    r := FillAndVerify(w, h, before, first);
  }

  /** How long it takes until the destination is created: two fences, two opened files. */
  const CREATED: nat := 4

  /** `_copy_fenced_file`.  The `first` observation is that of the first step, which takes the
      first fence, and the history ends with the last fence.  A copied file hashes as the source
      did at every moment between them; a name that is taken before this call creates its file
      stays with whoever took it, right up to the moment of the creation; an abstention leaves
      nothing of this call behind, and only a failing removal raises. */
  method CopyFencedFile(w: World, h: bytes -> bytes) returns (r: Outcome, ghost first: nat)
    requires w.Valid() && !w.destination.Ours?
    modifies w
    ensures w.Later() && first == |old(w.seen)| && w.clock > old(w.clock)
    ensures r.Copied? ==> Faithful(w, h, first, r.fence, r.hash)
    ensures r.Abstained? ==>
      w.destination == w.TakenDuring(old(w.destination), old(w.clock), Min(w.clock, old(w.clock) + CREATED))
    ensures !r.Abstained? ==> w.TakenDuring(old(w.destination), old(w.clock), old(w.clock) + CREATED).Free?
    ensures r.Abstained? ==> !w.destination.Ours?
    ensures r.Raised? ==> RemovalFailed(w)
    ensures old(w.destination).Foreign? ==> r.Abstained? && w.destination == old(w.destination)
    ensures w.Quiet() && old(w.source).Regular? && old(w.destination).Free? ==>
      r.Copied? && w.destination == Ours(old(w.source).content)
  {
    hide World.Quiet, World.TakenDuring, Faithful, RemovalFailed;
    FreeUntilExactly(w, w.destination, w.clock, w.clock + CREATED);
    ghost var start, place := w.clock, w.destination;
    OneMoment(w, place, start, start);
    OneMoment(w, place, start, start + 1);
    var before := w.SourceFence();
    first := |w.seen| - 1;
    if !before.Present? { return Abstained, first; }
    w.Pass();
    if !w.destination.Free? { return Abstained, first; }
    r := CopyAndVerify(w, h, before, first);
    TakenInParts(w, place, start, start + 2, Min(w.clock, start + CREATED));
    TakenInParts(w, place, start, start + 2, start + CREATED);
  }

  lemma {:induction false} TakenInParts(w: World, place: Destination, from: nat, mid: nat, to: nat)
    requires from <= mid <= to
    ensures w.TakenDuring(place, from, to) == w.TakenDuring(w.TakenDuring(place, from, mid), mid, to)
  {
    if mid < to { TakenInParts(w, place, from, mid, to - 1); }
  }

  /** A name stays free until the creation exactly when it was free and nobody takes it. */
  lemma {:induction false} FreeUntilExactly(w: World, place: Destination, from: nat, to: nat)
    requires from <= to
    ensures w.TakenDuring(place, from, to).Free? <==>
      place.Free? && forall t: nat :: from <= t < to && t < |w.schedule| ==> !w.schedule[t].Occupy?
    ensures place.Foreign? ==> w.TakenDuring(place, from, to) == place
  {
    if from < to { FreeUntilExactly(w, place, from, to - 1); }
  }

  /** Without a collision the copy is the source, byte for byte. */
  lemma FaithfulIsEqual(w: World, h: bytes -> bytes, first: nat, fence: Fence, hash: bytes)
    requires Faithful(w, h, first, fence, hash) && CollisionFree(h, {w.source.content, w.destination.content})
    ensures forall i :: first <= i < |w.seen| ==> w.seen[i].1 == Regular(w.destination.content)
  {
    assert w.source.content in {w.source.content, w.destination.content};
  }
}
