/** Bounded reading from streams that may return fewer bytes than asked, and running totals. */
module BoundedReads {
  import opened Prelude
  import opened ArchivePaths

  const CHUNK_BYTES: nat := 1024 * 1024

  /** A readable stream.  `short` decides, from the position and the request, how much less
      than the request a read returns; it never returns nothing before the end. */
  class Stream {
    const content: bytes
    const short: (nat, nat) -> nat
    var pos: nat

    ghost predicate Valid()
      reads this
    {
      pos <= |content|
    }

    constructor (content: bytes, short: (nat, nat) -> nat)
      ensures Valid() && pos == 0 && this.content == content
    {
      this.content, this.short, pos := content, short, 0;
    }

    function Rest(): bytes
      requires Valid()
      reads this
    {
      content[pos..]
    }

    method Read(size: nat) returns (chunk: bytes)
      requires Valid()
      modifies this
      ensures Valid() && |chunk| <= size && pos == old(pos) + |chunk|
      ensures old(Rest()) == chunk + Rest()
      ensures chunk == [] <==> size == 0 || old(Rest()) == []
    {
      var most := Min(size, |content| - pos);
      var less := short(pos, size);
      var n := if most == 0 then 0 else if less < most then most - less else 1;
      chunk := content[pos..pos + n];
      pos := pos + n;
    }
  }

  datatype ReadError = MemberTooLarge | SizeInconsistent | StreamTooLarge | SizeInvalid | TotalTooLarge

  /** Succeeds exactly when the stream holds the declared number of bytes and that many are
      allowed; returns them all and looks at most one byte further. */
  method ReadMember(stream: Stream, expected: nat, bounds: Bounds) returns (r: Result<bytes, ReadError>)
    requires stream.Valid()
    modifies stream
    ensures stream.Valid() && old(stream.pos) <= stream.pos <= old(stream.pos) + expected + 1
    ensures r.Ok? <==> |old(stream.Rest())| == expected <= bounds.maxMemberBytes
    ensures r.Ok? ==> r.value == old(stream.Rest())
  {
    var output: bytes := [];
    ghost var whole := stream.Rest();
    while |output| <= expected
      invariant stream.Valid() && whole == output + stream.Rest()
      invariant stream.pos == old(stream.pos) + |output|
      invariant |output| <= expected + 1 && |output| <= bounds.maxMemberBytes
      decreases expected + 1 - |output|
    {
      var chunk := stream.Read(Min(CHUNK_BYTES, expected + 1 - |output|));
      if chunk == [] {
        assert stream.Rest() == [] && whole == output;
        break;
      }
      assert whole == (output + chunk) + stream.Rest();
      output := output + chunk;
      if |output| > bounds.maxMemberBytes { return Err(MemberTooLarge); }
    }
    if |output| != expected { return Err(SizeInconsistent); }
    return Ok(output);
  }

  function UpdatedTotal(size: int, total: nat, bounds: Bounds): (r: Result<nat, ReadError>)
    ensures r.Ok? <==> 0 <= size <= bounds.maxMemberBytes && total + size <= bounds.maxTotalBytes
    ensures r.Ok? ==> r.value == total + size
  {
    if size < 0 then Err(SizeInvalid)
    else if size > bounds.maxMemberBytes then Err(MemberTooLarge)
    else if total + size > bounds.maxTotalBytes then Err(TotalTooLarge)
    else Ok(total + size)
  }

  /** A reader that hands out at most `limit` bytes of its source. */
  class BoundedReader {
    const source: Stream
    const limit: nat
    var count: nat
    ghost const start: nat
    ghost var handed: bytes

    /** What was handed out is the beginning of the source, and it is within the limit;
        past the limit nothing more is ever handed out. */
    ghost predicate Valid()
      reads this, source
    {
      && source.Valid() && start <= source.pos
      && count == source.pos - start
      && |handed| <= limit
      && handed <= source.content[start..]
      && (count <= limit ==> |handed| == count)
    }

    ghost function Fits(): bool
      requires start <= |source.content|
    {
      |source.content| - start <= limit
    }

    constructor (source: Stream, limit: nat)
      requires source.Valid()
      ensures Valid() && handed == [] && count == 0
      ensures this.source == source && this.limit == limit && start == source.pos
    {
      this.source, this.limit, start := source, limit, source.pos;
      count, handed := 0, [];
    }

    /** `read(size)`; a negative size asks for everything. */
    method Read(size: int) returns (r: Result<bytes, ReadError>)
      requires Valid()
      modifies this, source
      ensures Valid() && handed == old(handed) + (if r.Ok? then r.value else [])
      ensures r.Err? ==> !Fits()
      ensures r.Ok? && size != 0 ==> (r.value == [] <==> old(source.Rest()) == [])
      ensures r.Ok? ==> count <= limit && |r.value| + |source.Rest()| == |old(source.Rest())|
      ensures r.Ok? && size >= 0 ==> |r.value| <= size
    {
      var remaining := limit - count;
      if remaining < 0 {
        return Err(StreamTooLarge);
      }
      var requested := if size < 0 then remaining + 1 else Min(size, remaining + 1);
      ghost var before := source.pos;
      var payload := source.Read(requested);
      count := count + |payload|;
      if count > limit {
        return Err(StreamTooLarge);
      }
      assert payload == source.content[before..source.pos];
      assert source.content[start..][..count] == source.content[start..][..before - start] + payload;
      handed := handed + payload;
      return Ok(payload);
    }
  }

  /** Reading to the end, with any sequence of nonzero sizes, succeeds exactly when the
      source fits, and then yields the source. */
  method ReadToEnd(source: Stream, limit: nat, sizes: nat -> int) returns (r: Result<bytes, ReadError>)
    requires source.Valid() && forall i :: sizes(i) != 0
    modifies source
    ensures r.Ok? <==> |old(source.Rest())| <= limit
    ensures r.Ok? ==> r.value == old(source.Rest())
  {
    var reader := new BoundedReader(source, limit);
    var output: bytes := [];
    var i: nat := 0;
    ghost var whole := source.Rest();
    while true
      invariant reader.Valid() && fresh(reader) && reader.source == source && reader.limit == limit
      invariant reader.start == old(source.pos) && reader.handed == output
      invariant reader.count <= limit
      decreases |source.Rest()|
    {
      var chunk := reader.Read(sizes(i));
      if chunk.Err? { return Err(chunk.error); }
      if chunk.value == [] { break; }
      output := output + chunk.value;
      i := i + 1;
    }
    assert output == whole;
    return Ok(output);
  }
}
