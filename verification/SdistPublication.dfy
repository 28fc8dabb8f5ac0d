/** Publishing a canonical source distribution: a private candidate, an atomic link that never
    replaces, validation of what was published, and cleaning up after a failure anywhere. */
module SdistPublication {
  import opened CanonicalStream
  import opened PayloadIdentity
  import opened Prelude

  /** How a step can end: as it should, with an error or an interrupt before it takes effect,
      or with an interrupt after it took effect and before the program has recorded it. */
  datatype Fault = Fine | Error | Before | After

  type Faults = nat -> Fault

  datatype Place = Vacant | Foreign(content: bytes) | Linked(content: bytes)

  /** The directory of the destination.  Another process may create the destination's name at
      any moment when it is vacant, but does not touch files of this call.  Every step takes
      one tick of the clock, so what happens at a tick decides the whole run. */
  class Directory {
    const faults: Faults
    const others: nat -> Option<bytes>
    var clock: nat
    var output: Place
    var candidate: Option<bytes>
    ghost var foreign: Option<bytes>

    /** What another process put under the destination's name is untouched. */
    ghost predicate Valid()
      reads this
    {
      (foreign.Some? <==> output.Foreign?) && (foreign.Some? ==> output == Foreign(foreign.value))
    }

    constructor (faults: Faults, others: nat -> Option<bytes>, occupant: Option<bytes>)
      ensures Valid() && clock == 0 && candidate == None && foreign == occupant
      ensures this.faults == faults && this.others == others
      ensures output == match occupant { case None => Vacant case Some(c) => Foreign(c) }
    {
      this.faults, this.others, clock, candidate := faults, others, 0, None;
      output := match occupant { case None => Vacant case Some(c) => Foreign(c) };
      foreign := occupant;
    }

    /** The destination's name after one tick in which only another process acts. */
    function Taken(place: Place, tick: nat): Place {
      if place.Vacant? && others(tick).Some? then Foreign(others(tick).value) else place
    }

    /** The same after the ticks from one time to another. */
    function TakenDuring(place: Place, from: nat, to: nat): (r: Place)
      ensures !place.Vacant? ==> r == place
      ensures r == place || r.Foreign?
    {
      if to <= from then place else Taken(TakenDuring(place, from, to - 1), to - 1)
    }

    /** Time passes; another process may take a vacant name. */
    method Pass()
      requires Valid()
      modifies this`clock, this`output, this`foreign
      ensures Valid() && clock == old(clock) + 1 && (old(foreign).Some? ==> foreign == old(foreign))
      ensures output == Taken(old(output), old(clock))
    {
      if output.Vacant? && others(clock).Some? {
        output, foreign := Foreign(others(clock).value), others(clock);
      }
      clock := clock + 1;
    }

    /** Any step without an effect on the two files. */
    method Step() returns (ok: bool)
      requires Valid()
      modifies this`clock, this`output, this`foreign
      ensures Valid() && clock == old(clock) + 1 && (old(foreign).Some? ==> foreign == old(foreign))
      ensures output == Taken(old(output), old(clock))
      ensures ok <==> faults(clock) == Fine
    {
      Pass();
      ok := faults(clock) == Fine;
    }

    /** `tempfile.mkstemp` and the assignment after it: an interrupt between them leaves a
        file whose name is lost. */
    method MakeCandidate() returns (known: bool)
      requires Valid() && candidate == None
      modifies this
      ensures Valid() && clock == old(clock) + 1 && (old(foreign).Some? ==> foreign == old(foreign))
      ensures output == Taken(old(output), old(clock))
      ensures known <==> faults(clock) == Fine
      ensures candidate.Some? <==> faults(clock) == Fine || faults(clock) == After
    {
      Pass();
      known := faults(clock) == Fine;
      if known || faults(clock) == After { candidate := Some([]); }
    }

    /** Writing the archive; a failure may leave any part of it. */
    method WriteCandidate(data: bytes) returns (ok: bool)
      requires Valid() && candidate.Some?
      modifies this
      ensures Valid() && clock == old(clock) + 1 && (old(foreign).Some? ==> foreign == old(foreign))
      ensures output == Taken(old(output), old(clock)) && candidate.Some?
      ensures ok <==> faults(clock) == Fine
      ensures ok ==> candidate == Some(data)
    {
      Pass();
      ok := faults(clock) == Fine;
      candidate := Some(if ok then data else data[..Min(clock, |data|)]);
    }

    /** `os.link` and the assignment after it.  Linking never replaces; an interrupt between
        the two leaves a linked output that is not known to be published. */
    method Link() returns (published: bool)
      requires Valid() && candidate.Some? && !output.Linked?
      modifies this
      ensures Valid() && clock == old(clock) + 1 && (old(foreign).Some? ==> foreign == old(foreign))
      ensures candidate == old(candidate)
      ensures output == if Taken(old(output), old(clock)).Vacant? && (faults(clock) == Fine || faults(clock) == After)
                        then Linked(candidate.value) else Taken(old(output), old(clock))
      ensures published <==> output.Linked? && faults(clock) == Fine
    {
      Pass();
      published := false;
      if output.Vacant? && (faults(clock) == Fine || faults(clock) == After) {
        output := Linked(candidate.value);
        published := faults(clock) == Fine;
      }
    }

    /** `_safe_unlink(output)`: an error is swallowed, an interrupt is not. */
    method UnlinkOutput() returns (interrupted: bool)
      requires Valid() && output.Linked?
      modifies this
      ensures Valid() && clock == old(clock) + 1 && foreign == old(foreign) && candidate == old(candidate)
      ensures output == if faults(clock) == Fine || faults(clock) == After then Vacant else old(output)
      ensures interrupted <==> faults(clock) == Before || faults(clock) == After
    {
      Pass();
      interrupted := Interrupts(faults(clock));
      if Removes(faults(clock)) { output := Vacant; }
    }

    /** `_safe_unlink(candidate)`, which does nothing for an unknown name. */
    method UnlinkCandidate(known: bool) returns (interrupted: bool)
      requires Valid() && (known ==> candidate.Some?)
      modifies this
      ensures Valid() && clock == old(clock) + 1 && (old(foreign).Some? ==> foreign == old(foreign))
      ensures output == Taken(old(output), old(clock))
      ensures candidate ==
        if known && (faults(clock) == Fine || faults(clock) == After) then None else old(candidate)
      ensures interrupted <==> known && (faults(clock) == Before || faults(clock) == After)
    {
      Pass();
      interrupted := known && Interrupts(faults(clock));
      if known && Removes(faults(clock)) { candidate := None; }
    }
  }

  /** A removal that ends like this has removed the file. */
  predicate Removes(f: Fault) { f == Fine || f == After }

  predicate Interrupts(f: Fault) { f == Before || f == After }

  // ---- Publishing ----

  /** The container formats: an archive of a member stream, and what scanning and validating
      an archive finds.  Nothing relates the two but the checks made below. */
  datatype Formats = Formats(hash: Hash, pack: seq<Entry> -> bytes, inspect: bytes -> Option<Inspection>)

  ghost predicate Inspects(f: Formats) {
    forall archive :: f.inspect(archive).Some? ==> Hashable(f.inspect(archive).value.members)
  }

  /** The archive validates and has the expected logical payload. */
  ghost predicate Carries(f: Formats, archive: bytes, expected: Logical) {
    match f.inspect(archive)
    case None => false
    case Some(i) => Contained(i) && Hashable(LogicalMembers(i)) && LogicalOf(f.hash, i) == expected
  }

  method Check(f: Formats, archive: bytes, expected: Logical) returns (ok: bool)
    requires Inspects(f)
    ensures ok <==> Carries(f, archive, expected)
  {
    var report := f.inspect(archive);
    if report == None { return false; }
    var logical := LogicalPayload(f.hash, report.value);
    return logical == Some(expected);
  }

  /** Up to the comparison of two builds: each archive is read again before its payload is
      trusted, and the files to publish come from a third reading of the source. */
  method Agree(f: Formats, source: seq<bytes>, reference: seq<bytes>, sameFile: bool) returns (r: Option<Logical>)
    requires |source| == 3 && |reference| == 2 && Inspects(f)
    ensures r.Some? ==> !sameFile && Carries(f, source[0], r.value) && Carries(f, reference[0], r.value)
    ensures r.Some? ==> Carries(f, source[2], r.value) && f.hash(source[2]) == f.hash(source[0])
    ensures (forall k :: 0 <= k < 3 ==> source[k] == source[0]) && reference[1] == reference[0] ==>
      forall e :: r == Some(e) <==> !sameFile && Carries(f, source[0], e) && Carries(f, reference[0], e)
  {
    var report, other := f.inspect(source[0]), f.inspect(reference[0]);
    if report == None || other == None || sameFile { return None; }
    if f.inspect(source[1]) != report || f.inspect(reference[1]) != other { return None; }
    var left := LogicalPayload(f.hash, report.value);
    var right := LogicalPayload(f.hash, other.value);
    if left == None || left != right { return None; }
    var again := Check(f, source[2], left.value);
    return if again && f.hash(source[2]) == f.hash(source[0]) then left else None;
  }

  // ---- What the ticks of a run decide ----

  /** No other process takes the name in `n` ticks from `start`. */
  predicate Unclaimed(others: nat -> Option<bytes>, start: nat, n: nat) {
    forall t: nat :: start <= t < start + n ==> others(t) == None
  }

  /** The candidate is made, written and checked; `good` says what checking it finds. */
  predicate ReachesLink(faults: Faults, start: nat, good: bool) {
    faults(start + 1) == Fine && faults(start + 2) == Fine && faults(start + 3) == Fine && good
  }

  /** The link is made, whether or not the program gets to record it. */
  predicate Links(faults: Faults, others: nat -> Option<bytes>, start: nat, good: bool) {
    && ReachesLink(faults, start, good) && Unclaimed(others, start, 4)
    && (faults(start + 4) == Fine || faults(start + 4) == After)
  }

  predicate Publishes(faults: Faults, others: nat -> Option<bytes>, start: nat, good: bool) {
    Links(faults, others, start, good) && faults(start + 4) == Fine
  }

  predicate Succeeds(faults: Faults, others: nat -> Option<bytes>, start: nat, good: bool) {
    Publishes(faults, others, start, good) && faults(start + 5) == Fine
  }

  /** How many ticks making, writing and checking the candidate take. */
  function PrepareTicks(faults: Faults, start: nat): nat {
    if faults(start + 1) != Fine then 1 else if faults(start + 2) != Fine then 2 else 3
  }

  /** How many ticks the protected block takes. */
  function AttemptTicks(faults: Faults, others: nat -> Option<bytes>, start: nat, good: bool): (n: nat)
    ensures 1 <= n <= 5
  {
    if faults(start + 1) != Fine then 1
    else if faults(start + 2) != Fine then 2
    else if !ReachesLink(faults, start, good) then 3
    else if !Publishes(faults, others, start, good) then 4
    else 5
  }

  /** Making, writing and checking the candidate. */
  method Prepare(dir: Directory, f: Formats, data: bytes, expected: Logical) returns (known: bool, ready: bool)
    requires dir.Valid() && dir.candidate == None && dir.output == Vacant && Inspects(f)
    modifies dir
    ensures dir.Valid() && dir.output == dir.TakenDuring(Vacant, old(dir.clock), dir.clock)
    ensures var start := old(dir.clock);
      && dir.clock == start + PrepareTicks(dir.faults, start)
      && (known <==> dir.faults(start + 1) == Fine)
      && (dir.candidate.Some? <==> known || dir.faults(start + 1) == After)
      && (ready <==> ReachesLink(dir.faults, start, Carries(f, data, expected)))
      && (ready ==> dir.candidate == Some(data))
  {
    hide Directory.TakenDuring, Carries;
    ghost var start := dir.clock;
    OneTick(dir, Vacant, start, start);
    ready := false;
    known := dir.MakeCandidate();
    if !known { return; }
    OneTick(dir, Vacant, start, start + 1);
    var written := dir.WriteCandidate(data);
    if !written { return; }
    OneTick(dir, Vacant, start, start + 2);
    var step := dir.Step();
    var good := Check(f, dir.candidate.value, expected);
    ready := step && good;
  }

  lemma OneTick(dir: Directory, place: Place, from: nat, to: nat)
    requires from <= to
    ensures dir.TakenDuring(place, from, to + 1) == dir.Taken(dir.TakenDuring(place, from, to), to)
    ensures dir.TakenDuring(place, from, from) == place
  {
  }

  lemma UnclaimedDuring(dir: Directory, start: nat, n: nat)
    ensures dir.TakenDuring(Vacant, start, start + n) == Vacant <==> Unclaimed(dir.others, start, n)
  {
    if n > 0 {
      UnclaimedDuring(dir, start, n - 1);
      var before, last := Unclaimed(dir.others, start, n - 1), dir.others(start + n - 1);
      assert Unclaimed(dir.others, start, n) <==> before && last == None;
    }
  }

  /** The protected block: candidate, check, link, check. */
  method Attempt(dir: Directory, f: Formats, stream: seq<Entry>, expected: Logical)
    returns (ok: bool, known: bool, published: bool)
    requires dir.Valid() && dir.candidate == None && dir.output == Vacant && Inspects(f)
    modifies dir
    ensures dir.Valid()
    ensures var start, good := old(dir.clock), Carries(f, f.pack(stream), expected);
      && dir.clock == start + AttemptTicks(dir.faults, dir.others, start, good)
      && (known <==> dir.faults(start + 1) == Fine)
      && (dir.candidate.Some? <==> known || dir.faults(start + 1) == After)
      && (published <==> Publishes(dir.faults, dir.others, start, good))
      && (ok <==> Succeeds(dir.faults, dir.others, start, good))
      && dir.output == if Links(dir.faults, dir.others, start, good) then Linked(f.pack(stream))
                       else dir.TakenDuring(Vacant, start, dir.clock)
  {
    hide Directory.TakenDuring, Unclaimed, Carries;
    ghost var start := dir.clock;
    ok, published := false, false;
    var ready: bool;
    known, ready := Prepare(dir, f, f.pack(stream), expected);
    if !ready { return; }
    UnclaimedDuring(dir, start, 4);
    OneTick(dir, Vacant, start, start + 3);
    published := dir.Link();
    if !published { return; }
    var step := dir.Step();
    var good := Check(f, dir.output.content, expected);
    ok := step && good;
  }

  /** Whether the call's own output is there at the end of a run that began at `start`. */
  predicate OutputStays(faults: Faults, others: nat -> Option<bytes>, start: nat, good: bool) {
    && Links(faults, others, start, good)
    && (faults(start + 4) == After || faults(start + 5) == Fine || !Removes(faults(start + 6)))
  }

  /** The tick at which the candidate's removal is due; a failed publication removes the
      output one tick before it. */
  function RemovalTick(faults: Faults, others: nat -> Option<bytes>, start: nat, good: bool): nat {
    var ticks := AttemptTicks(faults, others, start, good);
    if Publishes(faults, others, start, good) && faults(start + 5) != Fine then start + ticks + 2 else start + ticks + 1
  }

  /** Whether a candidate is there at the end: its name was never recorded, its removal did
      nothing, or an interrupt while removing the output kept the removal from starting. */
  predicate CandidateStays(faults: Faults, others: nat -> Option<bytes>, start: nat, good: bool) {
    || faults(start + 1) == After
    || (faults(start + 1) == Fine
        && (!Removes(faults(RemovalTick(faults, others, start, good)))
            || (Publishes(faults, others, start, good) && faults(start + 5) != Fine && Interrupts(faults(start + 6)))))
  }

  lemma PublishedTicks(faults: Faults, others: nat -> Option<bytes>, start: nat, good: bool)
    ensures Publishes(faults, others, start, good) ==> AttemptTicks(faults, others, start, good) == 5
    ensures Publishes(faults, others, start, good) <==> Links(faults, others, start, good) && faults(start + 4) == Fine
    ensures Links(faults, others, start, good) ==>
      faults(start + 1) == Fine && (faults(start + 4) == Fine || faults(start + 4) == After)
    ensures RemovalTick(faults, others, start, good)
         == if Publishes(faults, others, start, good) && faults(start + 5) != Fine then start + 7
            else start + AttemptTicks(faults, others, start, good) + 1
  {
  }

  /** After the protected block: a failed publication is taken back, then the candidate goes.
      An interrupt in the first removal keeps the second from starting. */
  method CleanUp(dir: Directory, ok: bool, known: bool, published: bool) returns (success: bool)
    requires dir.Valid() && (known ==> dir.candidate.Some?) && (published ==> dir.output.Linked?)
    modifies dir
    ensures dir.Valid()
    ensures var t := old(dir.clock);
      if published && !ok then
        && !success
        && (if Interrupts(dir.faults(t + 1)) then dir.clock == t + 1 && dir.candidate == old(dir.candidate)
            else dir.clock == t + 2
                 && dir.candidate == if known && Removes(dir.faults(t + 2)) then None else old(dir.candidate))
        && dir.output == (if Removes(dir.faults(t + 1)) then dir.TakenDuring(Vacant, t + 1, dir.clock)
                          else old(dir.output))
      else
        && dir.clock == t + 1 && dir.output == dir.Taken(old(dir.output), t)
        && dir.candidate == (if known && Removes(dir.faults(t + 1)) then None else old(dir.candidate))
        && success == (ok && !(known && Interrupts(dir.faults(t + 1))))
  {
    success := ok;
    if published && !ok {
      var interrupted := dir.UnlinkOutput();
      OneTick(dir, Vacant, dir.clock, dir.clock);
      if interrupted { return; }
    }
    var interrupted := dir.UnlinkCandidate(known);
    success := ok && !interrupted;
  }

  /** What the run from a vacant name leaves, in terms of its ticks. */
  ghost predicate Leaves(dir: Directory, start: nat, good: bool, data: bytes, ok: bool)
    reads dir
  {
    && (ok <==> Succeeds(dir.faults, dir.others, start, good) && !Interrupts(dir.faults(start + 6)))
    && (dir.output ==
          if OutputStays(dir.faults, dir.others, start, good) then Linked(data)
          else if Links(dir.faults, dir.others, start, good) then dir.TakenDuring(Vacant, start + 6, dir.clock)
          else dir.TakenDuring(Vacant, start, dir.clock))
    && (dir.candidate.Some? <==> CandidateStays(dir.faults, dir.others, start, good))
  }

  /** The protected block and the cleaning up after it. */
  method Guarded(dir: Directory, f: Formats, stream: seq<Entry>, expected: Logical) returns (ok: bool)
    requires dir.Valid() && dir.candidate == None && dir.output == Vacant && Inspects(f)
    modifies dir
    ensures dir.Valid()
    ensures Leaves(dir, old(dir.clock), Carries(f, f.pack(stream), expected), f.pack(stream), ok)
  {
    hide Directory.TakenDuring, Links, Publishes, Carries, AttemptTicks;
    ghost var start, good := dir.clock, Carries(f, f.pack(stream), expected);
    PublishedTicks(dir.faults, dir.others, start, good);
    var known, published;
    ok, known, published := Attempt(dir, f, stream, expected);
    OneTick(dir, Vacant, start, dir.clock);
    ok := CleanUp(dir, ok, known, published);
  }

  /** The end of `canonicalize_sdist`.  A name that is taken is left alone; a success has
      published the expected payload; and the faults at the ticks of the run decide exactly
      when the call succeeds and what it leaves behind. */
  method Publish(dir: Directory, f: Formats, files: Files, epoch: nat, expected: Logical) returns (ok: bool)
    requires dir.Valid() && dir.candidate == None && !dir.output.Linked? && Inspects(f)
    modifies dir
    ensures dir.Valid() && (old(dir.foreign).Some? ==> dir.foreign == old(dir.foreign))
    ensures old(dir.output).Foreign? || dir.others(old(dir.clock)).Some? ==>
      !ok && dir.candidate == None && dir.output == dir.Taken(old(dir.output), old(dir.clock))
    ensures old(dir.output).Vacant? && dir.others(old(dir.clock)) == None ==>
      var good, data := Carries(f, f.pack(MemberStream(files, epoch)), expected), f.pack(MemberStream(files, epoch));
      Leaves(dir, old(dir.clock) + 1, good, data, ok)
    ensures ok ==> dir.output.Linked? && Carries(f, dir.output.content, expected)
  {
    hide Leaves, Carries, Inspects, MemberStream;
    dir.Pass();
    if !dir.output.Vacant? { return false; }
    ghost var start, good := dir.clock, Carries(f, f.pack(MemberStream(files, epoch)), expected);
    ok := Guarded(dir, f, MemberStream(files, epoch), expected);
    SuccessPublishes(dir, start, good, f.pack(MemberStream(files, epoch)), ok);
  }

  lemma SuccessPublishes(dir: Directory, start: nat, good: bool, data: bytes, ok: bool)
    requires Leaves(dir, start, good, data, ok)
    ensures ok ==> good && dir.output == Linked(data)
  {
  }

  const LINK_TICK: nat := 5

  /** The gap is real: an interrupt between the link and its record makes the call fail and
      leaves the published archive under the destination's name. */
  method InterruptedLinkStays(f: Formats, files: Files, epoch: nat, expected: Logical)
    returns (dir: Directory, ok: bool)
    requires Inspects(f) && Carries(f, f.pack(MemberStream(files, epoch)), expected)
    ensures fresh(dir) && !ok && dir.candidate == None
    ensures dir.output == Linked(f.pack(MemberStream(files, epoch)))
  {
    dir := new Directory(t => if t == LINK_TICK then After else Fine, _ => None, None);
    ok := Publish(dir, f, files, epoch, expected);
  }

  const CANDIDATE_TICK: nat := 2

  /** So is the other: an interrupt before the candidate's name is recorded leaves the file. */
  method InterruptedCandidateStays(f: Formats, files: Files, epoch: nat, expected: Logical)
    returns (dir: Directory, ok: bool)
    requires Inspects(f)
    ensures fresh(dir) && !ok && dir.candidate.Some? && dir.output == Vacant
  {
    dir := new Directory(t => if t == CANDIDATE_TICK then After else Fine, _ => None, None);
    ok := Publish(dir, f, files, epoch, expected);
    if dir.clock > 1 { UnclaimedDuring(dir, 1, dir.clock - 1); }
  }

  const LAST_TICK: nat := 7

  /** A third way: an interrupt before the last removal of the candidate makes the call fail
      although the output is published and validated, and leaves both files. */
  method InterruptedRemovalKeepsBoth(f: Formats, files: Files, epoch: nat, expected: Logical)
    returns (dir: Directory, ok: bool)
    requires Inspects(f) && Carries(f, f.pack(MemberStream(files, epoch)), expected)
    ensures fresh(dir) && !ok && dir.candidate.Some?
    ensures dir.output == Linked(f.pack(MemberStream(files, epoch)))
  {
    dir := new Directory(t => if t == LAST_TICK then Before else Fine, _ => None, None);
    ok := Publish(dir, f, files, epoch, expected);
  }

  /** When the call fails and its output is there nevertheless: the link was not recorded, taking
      back a failed publication did not work, or the last removal was interrupted. */
  lemma FailsWithOutputExactly(faults: Faults, others: nat -> Option<bytes>, start: nat, good: bool)
    ensures var ok := Succeeds(faults, others, start, good) && !Interrupts(faults(start + 6));
      OutputStays(faults, others, start, good) && !ok <==>
        && Links(faults, others, start, good)
        && (|| faults(start + 4) == After
            || (faults(start + 5) != Fine && !Removes(faults(start + 6)))
            || (faults(start + 5) == Fine && Interrupts(faults(start + 6))))
  {
  }
}
