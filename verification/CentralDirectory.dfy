/** The walk over the raw bytes of a ZIP central directory (section 4.3.12 of
    APPNOTE.TXT): one 46-byte header per declared member, each followed by the name, the
    extra field and the comment whose lengths it states. */
module CentralDirectory {
  import opened Prelude

  const HEADER_BYTES: nat := 46
  const SIGNATURE: bytes := [0x50, 0x4b, 0x01, 0x02]
  const BACKSLASH: byte := 92

  /** A record: the header's fields before and after the three lengths, and the three
      variable parts. */
  datatype Record = Record(before: bytes, after: bytes, name: bytes, extra: bytes, comment: bytes)

  predicate ValidRecord(r: Record) {
    |r.before| == 24 && |r.after| == 12 && |r.name| < 65536 && |r.extra| < 65536 && |r.comment| < 65536
  }

  function Little16(n: nat): (b: bytes)
    requires n < 65536
    ensures |b| == 2
  {
    [n % 256, n / 256]
  }

  function Read16(data: bytes, i: nat): nat
    requires i + 2 <= |data|
  {
    var low: int, high: int := data[i], data[i + 1];
    low + 256 * high
  }

  /** "PK", 1 and 2, then the fields with the three lengths low byte first. */
  function Header(r: Record): (b: bytes)
    requires ValidRecord(r)
    ensures |b| == HEADER_BYTES
  {
    [80, 75, 1, 2] + r.before + Little16(|r.name|) + Little16(|r.extra|) + Little16(|r.comment|) + r.after
  }

  function Encode(r: Record): bytes
    requires ValidRecord(r)
  {
    Header(r) + r.name + r.extra + r.comment
  }

  function EncodeAll(rs: seq<Record>): bytes
    requires forall r :: r in rs ==> ValidRecord(r)
  {
    if rs == [] then [] else Encode(rs[0]) + EncodeAll(rs[1..])
  }

  datatype ZipError = TruncatedDirectory | InvalidMember | TruncatedMember | UnsafeName | TrailingRecords

  /** The walk from an offset, as the loop performs it; extra field and comment are skipped
      without looking whether they fit. */
  function Walk(data: bytes, offset: nat, left: nat): Result<nat, ZipError>
    decreases left
  {
    if left == 0 then (if offset == |data| then Ok(offset) else Err(TrailingRecords))
    else if offset + HEADER_BYTES > |data| then Err(TruncatedDirectory)
    else if data[offset..offset + 4] != SIGNATURE then Err(InvalidMember)
    else
      var nameStart := offset + HEADER_BYTES;
      var nameEnd := nameStart + Read16(data, offset + 28);
      if nameEnd > |data| then Err(TruncatedMember)
      else if BACKSLASH in data[nameStart..nameEnd] then Err(UnsafeName)
      else Walk(data, nameEnd + Read16(data, offset + 30) + Read16(data, offset + 32), left - 1)
  }

  method ValidateRawNames(data: bytes, declared: nat, members: nat) returns (r: Result<nat, ZipError>)
    ensures |data| != declared ==> r == Err(TruncatedDirectory)
    ensures |data| == declared ==> r == Walk(data, 0, members)
  {
    if |data| != declared { return Err(TruncatedDirectory); }
    var offset: nat := 0;
    for index := 0 to members
      invariant Walk(data, 0, members) == Walk(data, offset, members - index)
    {
      if offset + HEADER_BYTES > |data| { return Err(TruncatedDirectory); }
      if data[offset..offset + 4] != SIGNATURE { return Err(InvalidMember); }
      var nameStart := offset + HEADER_BYTES;
      var nameEnd := nameStart + Read16(data, offset + 28);
      if nameEnd > |data| { return Err(TruncatedMember); }
      if BACKSLASH in data[nameStart..nameEnd] { return Err(UnsafeName); }
      offset := nameEnd + Read16(data, offset + 30) + Read16(data, offset + 32);
    }
    if offset != |data| { return Err(TrailingRecords); }
    return Ok(offset);
  }

  /** The records laid out from an offset to the end of the directory. */
  ghost predicate LaidOut(data: bytes, offset: nat, rs: seq<Record>) {
    && offset <= |data|
    && (forall r :: r in rs ==> ValidRecord(r))
    && data[offset..] == EncodeAll(rs)
  }

  ghost predicate NamesSafe(rs: seq<Record>) {
    forall r :: r in rs ==> 92 !in r.name
  }

  lemma HeaderFields(r: Record, rest: bytes)
    requires ValidRecord(r)
    ensures var b := Encode(r) + rest;
      && |Encode(r)| == HEADER_BYTES + |r.name| + |r.extra| + |r.comment|
      && b[..4] == SIGNATURE && b[4..28] == r.before && b[34..46] == r.after
      && Read16(b, 28) == |r.name| && Read16(b, 30) == |r.extra| && Read16(b, 32) == |r.comment|
  {
    var b := Encode(r) + rest;
    assert b[..46] == Header(r);
    assert Header(r)[..4] == SIGNATURE && Header(r)[4..28] == r.before && Header(r)[34..46] == r.after;
    assert Header(r)[28..30] == Little16(|r.name|);
    assert Header(r)[30..32] == Little16(|r.extra|);
    assert Header(r)[32..34] == Little16(|r.comment|);
    assert b[28..30] == Header(r)[28..30] && b[30..32] == Header(r)[30..32] && b[32..34] == Header(r)[32..34];
  }

  lemma HeadOfRecords(a: Record, b: Record, x: bytes, y: bytes)
    requires ValidRecord(a) && ValidRecord(b) && Encode(a) + x == Encode(b) + y
    ensures a == b && x == y
  {
    HeaderFields(a, x);
    HeaderFields(b, y);
    FixedSplit(Encode(a), Encode(b), x, y);
    FixedSplit(Header(a) + a.name + a.extra, Header(b) + b.name + b.extra, a.comment, b.comment);
    FixedSplit(Header(a) + a.name, Header(b) + b.name, a.extra, b.extra);
    FixedSplit(Header(a), Header(b), a.name, b.name);
  }

  /** A byte string splits into records in one way at most, whatever their number. */
  lemma {:induction false} RecordsUnique(rs: seq<Record>, ss: seq<Record>)
    requires (forall r :: r in rs ==> ValidRecord(r)) && (forall r :: r in ss ==> ValidRecord(r))
    requires EncodeAll(rs) == EncodeAll(ss)
    ensures rs == ss
  {
    if rs != [] && ss != [] {
      HeadOfRecords(rs[0], ss[0], EncodeAll(rs[1..]), EncodeAll(ss[1..]));
      RecordsUnique(rs[1..], ss[1..]);
      assert rs == [rs[0]] + rs[1..] && ss == [ss[0]] + ss[1..];
    } else {
      EncodedIsNotEmpty(rs);
      EncodedIsNotEmpty(ss);
    }
  }

  lemma EncodedIsNotEmpty(rs: seq<Record>)
    requires forall r :: r in rs ==> ValidRecord(r)
    ensures rs != [] ==> |EncodeAll(rs)| >= HEADER_BYTES
  {
    if rs != [] { HeaderFields(rs[0], EncodeAll(rs[1..])); }
  }

  lemma ReadShifted(data: bytes, offset: nat, i: nat)
    requires offset + i + 2 <= |data|
    ensures Read16(data[offset..], i) == Read16(data, offset + i)
  {
  }

  lemma NameInside(r: Record, rest: bytes)
    requires ValidRecord(r)
    ensures |Encode(r)| >= HEADER_BYTES + |r.name|
    ensures (Encode(r) + rest)[HEADER_BYTES..HEADER_BYTES + |r.name|] == r.name
  {
    assert Encode(r) + rest == Header(r) + r.name + (r.extra + r.comment + rest);
  }

  /** Where a record is laid out, the fields the walk reads are the record's. */
  lemma FieldsAt(data: bytes, offset: nat, r: Record, rest: bytes)
    requires offset <= |data| && ValidRecord(r) && data[offset..] == Encode(r) + rest
    ensures var nameStart := offset + HEADER_BYTES;
      && offset + |Encode(r)| <= |data| && data[offset + |Encode(r)|..] == rest
      && |Encode(r)| == HEADER_BYTES + |r.name| + |r.extra| + |r.comment|
      && data[offset..offset + 4] == SIGNATURE
      && Read16(data, offset + 28) == |r.name| && Read16(data, offset + 30) == |r.extra|
      && Read16(data, offset + 32) == |r.comment|
      && data[nameStart..nameStart + |r.name|] == r.name
  {
    HeaderFields(r, rest);
    var b := data[offset..];
    ReadShifted(data, offset, 28);
    ReadShifted(data, offset, 30);
    ReadShifted(data, offset, 32);
    NameInside(r, rest);
    assert data[offset..offset + 4] == b[..4];
    assert data[offset + HEADER_BYTES..offset + HEADER_BYTES + |r.name|] == b[HEADER_BYTES..HEADER_BYTES + |r.name|];
    assert data[offset + |Encode(r)|..] == b[|Encode(r)|..];
  }

  lemma LaidOutTail(data: bytes, offset: nat, rs: seq<Record>)
    requires LaidOut(data, offset, rs) && rs != []
    ensures ValidRecord(rs[0]) && data[offset..] == Encode(rs[0]) + EncodeAll(rs[1..])
    ensures LaidOut(data, offset + |Encode(rs[0])|, rs[1..])
  {
    assert rs[0] in rs && forall x :: x in rs[1..] ==> x in rs;
    FieldsAt(data, offset, rs[0], EncodeAll(rs[1..]));
  }

  function Size(r: Record): nat {
    HEADER_BYTES + |r.name| + |r.extra| + |r.comment|
  }

  /** Where the record after this one starts. */
  function Next(data: bytes, offset: nat): nat
    requires offset + HEADER_BYTES <= |data|
  {
    offset + HEADER_BYTES + Read16(data, offset + 28) + Read16(data, offset + 30) + Read16(data, offset + 32)
  }

  lemma NextOfRecord(data: bytes, offset: nat, rs: seq<Record>)
    requires LaidOut(data, offset, rs) && rs != []
    ensures offset + HEADER_BYTES <= |data| && Next(data, offset) == offset + Size(rs[0])
    ensures LaidOut(data, offset + Size(rs[0]), rs[1..])
  {
    LaidOutTail(data, offset, rs);
    FieldsAt(data, offset, rs[0], EncodeAll(rs[1..]));
  }

  /** The walk does not stop at this record. */
  predicate Passes(data: bytes, offset: nat) {
    && offset + HEADER_BYTES <= |data| && data[offset..offset + 4] == SIGNATURE
    && var nameEnd := offset + HEADER_BYTES + Read16(data, offset + 28);
       nameEnd <= |data| && BACKSLASH !in data[offset + HEADER_BYTES..nameEnd]
  }

  lemma RecordPasses(data: bytes, offset: nat, rs: seq<Record>)
    requires LaidOut(data, offset, rs) && rs != [] && BACKSLASH !in rs[0].name
    ensures Passes(data, offset)
  {
    LaidOutTail(data, offset, rs);
    FieldsAt(data, offset, rs[0], EncodeAll(rs[1..]));
  }

  lemma PassingWalk(data: bytes, offset: nat, left: nat)
    requires left > 0
    ensures Walk(data, offset, left).Ok? <==> Passes(data, offset) && Walk(data, Next(data, offset), left - 1).Ok?
  {
  }

  lemma {:induction false} LaidOutIsWalked(data: bytes, offset: nat, rs: seq<Record>, left: nat)
    requires LaidOut(data, offset, rs) && NamesSafe(rs) && left == |rs|
    ensures Walk(data, offset, left).Ok?
    decreases left
  {
    if left == 0 {
      assert |data[offset..]| == 0;
    } else {
      assert rs[0] in rs && forall x :: x in rs[1..] ==> x in rs;
      RecordPasses(data, offset, rs);
      NextOfRecord(data, offset, rs);
      LaidOutIsWalked(data, Next(data, offset), rs[1..], left - 1);
      PassingWalk(data, offset, left);
    }
  }

  /** Read the record that starts at an offset. */
  function RecordAt(data: bytes, offset: nat): (r: Record)
    requires offset + HEADER_BYTES <= |data|
    requires Next(data, offset) <= |data|
    ensures ValidRecord(r)
  {
    var name := offset + HEADER_BYTES;
    var extra := name + Read16(data, offset + 28);
    var comment := extra + Read16(data, offset + 30);
    var end := comment + Read16(data, offset + 32);
    Record(data[offset + 4..offset + 28], data[offset + 34..offset + 46],
      data[name..extra], data[extra..comment], data[comment..end])
  }

  lemma LittleOfRead(data: bytes, i: nat)
    requires i + 2 <= |data|
    ensures Read16(data, i) < 65536 && Little16(Read16(data, i)) == data[i..i + 2]
  {
  }

  lemma RecordIsThere(data: bytes, offset: nat)
    requires offset + HEADER_BYTES <= |data| && data[offset..offset + 4] == SIGNATURE
    requires Next(data, offset) <= |data|
    ensures data[offset..] == Encode(RecordAt(data, offset)) + data[Next(data, offset)..]
  {
    var r := RecordAt(data, offset);
    LittleOfRead(data, offset + 28);
    LittleOfRead(data, offset + 30);
    LittleOfRead(data, offset + 32);
    hide Read16, Little16, Header;
    HeaderThere(data, offset, r);
    var name := offset + HEADER_BYTES;
    var extra := name + |r.name|;
    var comment := extra + |r.extra|;
    FiveParts(data, offset, name, extra, comment, comment + |r.comment|);
  }

  lemma FiveParts(data: bytes, i: nat, a: nat, b: nat, c: nat, d: nat)
    requires i <= a <= b <= c <= d <= |data|
    ensures data[i..] == data[i..a] + data[a..b] + data[b..c] + data[c..d] + data[d..]
  {
  }

  lemma HeaderThere(data: bytes, offset: nat, r: Record)
    requires offset + HEADER_BYTES <= |data| && data[offset..offset + 4] == SIGNATURE && ValidRecord(r)
    requires r.before == data[offset + 4..offset + 28] && r.after == data[offset + 34..offset + 46]
    requires Little16(|r.name|) == data[offset + 28..offset + 30]
    requires Little16(|r.extra|) == data[offset + 30..offset + 32]
    requires Little16(|r.comment|) == data[offset + 32..offset + 34]
    ensures Header(r) == data[offset..offset + HEADER_BYTES]
  {
  }

  /** Past the end of the directory the walk always fails, whatever it skipped over. */
  lemma OverrunIsCaught(data: bytes, offset: nat, left: nat)
    ensures offset > |data| ==> Walk(data, offset, left).Err?
  {
  }

  lemma {:induction false} WalkedIsLaidOut(data: bytes, offset: nat, left: nat) returns (rs: seq<Record>)
    requires offset <= |data| && Walk(data, offset, left).Ok?
    ensures |rs| == left && LaidOut(data, offset, rs) && NamesSafe(rs)
    decreases left
  {
    if left == 0 {
      rs := [];
    } else {
      var next := Next(data, offset);
      OverrunIsCaught(data, next, left - 1);
      var rest := WalkedIsLaidOut(data, next, left - 1);
      var r := RecordAt(data, offset);
      RecordIsThere(data, offset);
      rs := [r] + rest;
      assert rs[1..] == rest;
    }
  }

  /** The walk accepts exactly the concatenations of the declared number of records whose
      names hold no backslash, although overruns are only noticed one step later. */
  lemma WalkExactly(data: bytes, members: nat)
    ensures Walk(data, 0, members).Ok? <==> exists rs :: |rs| == members && LaidOut(data, 0, rs) && NamesSafe(rs)
  {
    if Walk(data, 0, members).Ok? { var rs := WalkedIsLaidOut(data, 0, members); }
    if rs :| |rs| == members && LaidOut(data, 0, rs) && NamesSafe(rs) { LaidOutIsWalked(data, 0, rs, members); }
  }

  /** Where each record starts, following the lengths in the headers. */
  function Boundaries(data: bytes, offset: nat, left: nat): seq<nat>
    decreases left
  {
    if left == 0 || offset + HEADER_BYTES > |data| then [offset]
    else [offset] + Boundaries(data, Next(data, offset), left - 1)
  }

  function Starts(rs: seq<Record>, offset: nat): seq<nat> {
    if rs == [] then [offset] else [offset] + Starts(rs[1..], offset + Size(rs[0]))
  }

  /** Walking an encoding recovers every record boundary, and only that many records. */
  lemma {:induction false} BoundariesRecovered(data: bytes, offset: nat, rs: seq<Record>, left: nat)
    requires LaidOut(data, offset, rs) && left == |rs|
    ensures Boundaries(data, offset, left) == Starts(rs, offset)
    decreases left
  {
    if left > 0 {
      NextOfRecord(data, offset, rs);
      BoundariesRecovered(data, Next(data, offset), rs[1..], left - 1);
    }
  }

  /** A different number of members than the records laid out is always refused. */
  lemma WrongCountIsRefused(data: bytes, rs: seq<Record>, members: nat)
    requires LaidOut(data, 0, rs) && members != |rs|
    ensures Walk(data, 0, members).Err?
  {
    if Walk(data, 0, members).Ok? {
      var ss := WalkedIsLaidOut(data, 0, members);
      RecordsUnique(rs, ss);
    }
  }
}
