/** The type-tagged compact JSON of a cell, and parts framed by their lengths, that the
    generation benchmark hashes. */
module TypedCells {
  import opened Hexadecimal
  import opened Prelude
  import opened TupleDigest

  const QUOTE: byte := 34
  const BACKSLASH: byte := 92

  // ---- JSON strings ----

  /** One byte of UTF-8 text inside a JSON string, as `json.dumps(..., ensure_ascii=False)`. */
  function EscapedByte(b: byte): (e: bytes)
    ensures e != []
  {
    if b == QUOTE || b == BACKSLASH then [BACKSLASH, b]
    else if b == 8 then [BACKSLASH, 98]
    else if b == 9 then [BACKSLASH, 116]
    else if b == 10 then [BACKSLASH, 110]
    else if b == 12 then [BACKSLASH, 102]
    else if b == 13 then [BACKSLASH, 114]
    else if b < 32 then [BACKSLASH, 117, 48, 48, HexDigit(b / 16), HexDigit(b % 16)]
    else [b]
  }

  function Escaped(text: bytes): bytes {
    if text == [] then [] else EscapedByte(text[0]) + Escaped(text[1..])
  }

  function Quoted(text: bytes): bytes {
    [QUOTE] + Escaped(text) + [QUOTE]
  }

  /** No escape is the beginning of another. */
  lemma EscapedByteSplit(a: byte, b: byte, x: bytes, y: bytes)
    requires EscapedByte(a) + x == EscapedByte(b) + y
    ensures a == b && x == y
  {
    var e, f := EscapedByte(a), EscapedByte(b);
    var s := e + x;
    assert s == f + y;
    assert s[0] == e[0] == f[0];
    if e[0] == BACKSLASH {
      assert s[1] == e[1] == f[1];
      if e[1] == 117 {
        assert s[4] == e[4] == f[4] && s[5] == e[5] == f[5];
      }
    }
    FixedSplit(e, f, x, y);
  }

  lemma {:induction false} EscapedInjective(a: bytes, b: bytes)
    requires Escaped(a) == Escaped(b)
    ensures a == b
  {
    if a != [] && b != [] {
      EscapedByteSplit(a[0], b[0], Escaped(a[1..]), Escaped(b[1..]));
      EscapedInjective(a[1..], b[1..]);
      assert a == [a[0]] + a[1..] && b == [b[0]] + b[1..];
    }
  }

  lemma QuotedInjective(a: bytes, b: bytes)
    requires Quoted(a) == Quoted(b)
    ensures a == b
  {
    var s, t := Quoted(a), Quoted(b);
    assert s[1..|s| - 1] == Escaped(a) && t[1..|t| - 1] == Escaped(b);
    EscapedInjective(a, b);
  }

  // ---- Typed cells ----

  /** The opening bracket, the quoted tag and the comma. */
  function TagOf(c: Cell): bytes {
    match c
    case Null => [91, QUOTE, 110, 117, 108, 108, QUOTE, 44]
    case Bool(_) => [91, QUOTE, 98, 111, 111, 108, QUOTE, 44]
    case Int(_) => [91, QUOTE, 105, 110, 116, QUOTE, 44]
    case Float(_) => [91, QUOTE, 102, 108, 111, 97, 116, QUOTE, 44]
    case Blob(_) => [91, QUOTE, 98, 108, 111, 98, QUOTE, 44]
    case Text(_) => [91, QUOTE, 116, 101, 120, 116, QUOTE, 44]
  }

  function Payload(c: Cell): bytes {
    match c
    case Null => [110, 117, 108, 108]
    case Bool(b) => [if b then 49 else 48]
    case Int(n) => Signed(n)
    case Float(spelled) => Quoted(spelled)
    case Blob(b) => Quoted(ToHex(b))
    case Text(t) => Quoted(t)
  }

  /** `_typed_bytes`. */
  function TypedBytes(c: Cell): bytes {
    TagOf(c) + Payload(c) + [93]
  }

  lemma PayloadInjective(c: Cell, d: Cell)
    requires TagOf(c) == TagOf(d) && Payload(c) == Payload(d)
    ensures c == d
  {
    assert TagOf(c)[2] == TagOf(d)[2] && TagOf(c)[3] == TagOf(d)[3];
    match c
    case Null =>
    case Bool(_) =>
    case Int(n) => SignedInjective(n, d.n);
    case Float(x) => QuotedInjective(x, d.repr);
    case Blob(x) =>
      QuotedInjective(ToHex(x), ToHex(d.value));
      ToHexInjective(x, d.value);
    case Text(x) => QuotedInjective(x, d.utf8);
  }

  lemma TypedInjective(c: Cell, d: Cell)
    requires TypedBytes(c) == TypedBytes(d)
    ensures c == d
  {
    var s, t := TypedBytes(c), TypedBytes(d);
    assert s[2] == TagOf(c)[2] && s[3] == TagOf(c)[3] && t[2] == TagOf(d)[2] && t[3] == TagOf(d)[3];
    assert TagOf(c) == TagOf(d);
    var n := |TagOf(c)|;
    assert s[n..|s| - 1] == Payload(c) && t[n..|t| - 1] == Payload(d);
    PayloadInjective(c, d);
  }

  // ---- Reading the JSON back ----

  /** The byte that an escape in a JSON string stands for, and how long the escape is. */
  ghost function ReadEscape(s: bytes): (byte, nat)
    requires |s| >= 2 && s[0] == 92
  {
    if s[1] == 98 then (8, 2)
    else if s[1] == 102 then (12, 2)
    else if s[1] == 110 then (10, 2)
    else if s[1] == 114 then (13, 2)
    else if s[1] == 116 then (9, 2)
    else if s[1] == 117 && |s| >= 6 && IsHexDigit(s[4]) && IsHexDigit(s[5]) && s[2] == s[3] == 48
    then (16 * HexValue(s[4]) + HexValue(s[5]), 6)
    else (s[1], 2)
  }

  /** The bytes of a JSON string's text. */
  ghost function Unescaped(s: bytes): bytes {
    if s == [] then []
    else if s[0] != 92 || |s| == 1 then [s[0]] + Unescaped(s[1..])
    else var (b, n) := ReadEscape(s); [b] + Unescaped(s[n..])
  }

  lemma EscapeReadsBack(b: byte, rest: bytes)
    ensures Unescaped(EscapedByte(b) + rest) == [b] + Unescaped(rest)
  {
    var e := EscapedByte(b);
    var s := e + rest;
    assert s[|e|..] == rest && forall i :: 0 <= i < |e| ==> s[i] == e[i];
    if 1 < |e| {
      assert |s| >= 2 && s[0] == 92;
      assert |e| == 6 ==> HexValue(e[4]) == b / 16 && HexValue(e[5]) == b % 16;
      assert ReadEscape(s) == (b, |e|);
    }
  }

  /** A JSON string reads back as its text. */
  lemma {:induction false} TextReadsBack(text: bytes)
    ensures Unescaped(Escaped(text)) == text
  {
    hide EscapedByte, Unescaped;
    if text != [] {
      EscapeReadsBack(text[0], Escaped(text[1..]));
      TextReadsBack(text[1..]);
      assert text == [text[0]] + text[1..];
    } else {
      NothingReadsBack();
    }
  }

  lemma NothingReadsBack()
    ensures Unescaped([]) == []
  {
  }

  /** Inside a JSON string there is no control character, and every quote is escaped. */
  ghost predicate IsClean(s: bytes) {
    forall i :: 0 <= i < |s| ==> IsCleanAt(s, i)
  }

  ghost predicate IsCleanAt(s: bytes, i: nat)
    requires i < |s|
  {
    s[i] >= 32 && (s[i] == 34 ==> i > 0 && s[i - 1] == 92)
  }

  lemma {:induction false} TextIsClean(text: bytes)
    ensures IsClean(Escaped(text))
  {
    if text != [] {
      TextIsClean(text[1..]);
      CleanAppend(EscapedByte(text[0]), Escaped(text[1..]));
    }
  }

  lemma CleanAppend(a: bytes, b: bytes)
    requires IsClean(a) && IsClean(b)
    ensures IsClean(a + b)
  {
    forall i | 0 <= i < |a + b| ensures IsCleanAt(a + b, i) {
      assert if i < |a| then IsCleanAt(a, i) else IsCleanAt(b, i - |a|);
    }
  }

  /** The typed cell in JSON: its tag, and null, a digit, a decimal number or a string. */
  ghost predicate IsTyped(json: bytes, c: Cell) {
    match c
    case Null => json == Ascii("[\"null\",null]")
    case Bool(b) => json == if b then Ascii("[\"bool\",1]") else Ascii("[\"bool\",0]")
    case Int(n) => exists sign: bytes, digits: bytes ::
      json == Ascii("[\"int\",") + (sign + digits) + Ascii("]") && Spells(sign, digits, n)
    case Float(repr) => IsTypedText(json, Ascii("[\"float\",\""), repr)
    case Blob(b) => IsTypedText(json, Ascii("[\"blob\",\""), ToHex(b))
    case Text(t) => IsTypedText(json, Ascii("[\"text\",\""), t)
  }

  ghost predicate IsTypedText(json: bytes, tag: bytes, text: bytes) {
    exists inner: bytes :: IsClean(inner) && Unescaped(inner) == text && json == tag + inner + Ascii("\"]")
  }

  lemma TypedTextExactly(c: Cell, tag: bytes, text: bytes)
    requires TypedBytes(c) == tag + Quoted(text) + [93]
    ensures IsTypedText(TypedBytes(c), tag + [34], text)
  {
    TextReadsBack(text);
    TextIsClean(text);
    hide Escaped, Unescaped, TypedBytes, IsClean;
    var inner, json := Escaped(text), TypedBytes(c);
    assert Ascii("\"]") == [34, 93];
    assert json == tag + [34] + inner + Ascii("\"]");
    assert IsClean(inner) && Unescaped(inner) == text;
  }

  lemma TagsSpelled()
    ensures Ascii("[\"null\",null]") == [91, 34, 110, 117, 108, 108, 34, 44] + [110, 117, 108, 108] + [93]
    ensures Ascii("[\"bool\",1]") == [91, 34, 98, 111, 111, 108, 34, 44] + [49] + [93]
    ensures Ascii("[\"bool\",0]") == [91, 34, 98, 111, 111, 108, 34, 44] + [48] + [93]
    ensures Ascii("[\"int\",") == [91, 34, 105, 110, 116, 34, 44] && Ascii("]") == [93]
  {
  }

  lemma TextTagsSpelled()
    ensures Ascii("[\"float\",\"") == [91, 34, 102, 108, 111, 97, 116, 34, 44] + [34]
    ensures Ascii("[\"blob\",\"") == [91, 34, 98, 108, 111, 98, 34, 44] + [34]
    ensures Ascii("[\"text\",\"") == [91, 34, 116, 101, 120, 116, 34, 44] + [34]
  {
  }

  lemma TypedExactly(c: Cell)
    ensures IsTyped(TypedBytes(c), c)
  {
    hide Escaped, Unescaped, ToHex, Decimal, Spells, Ascii, Signed, Quoted, IsTypedText;
    TagsSpelled();
    TextTagsSpelled();
    match c
    case Null =>
    case Bool(_) =>
    case Int(n) =>
      SignedSpells(n);
      var sign, digits :| Signed(n) == sign + digits && Spells(sign, digits, n);
      assert TypedBytes(c) == Ascii("[\"int\",") + (sign + digits) + Ascii("]");
    case Float(repr) => TypedTextExactly(c, [91, 34, 102, 108, 111, 97, 116, 34, 44], repr);
    case Blob(b) => TypedTextExactly(c, [91, 34, 98, 108, 111, 98, 34, 44], ToHex(b));
    case Text(t) => TypedTextExactly(c, [91, 34, 116, 101, 120, 116, 34, 44], t);
  }

  // ---- Framed parts ----

  /** Each part behind its length in eight bytes. */
  ghost function FramedText(parts: seq<bytes>): bytes {
    Concat(seq(|parts|, i requires 0 <= i < |parts| => BigEndian(|parts[i]|, 8) + parts[i]))
  }

  lemma {:induction false} PartStreamExactly(parts: seq<bytes>)
    ensures PartStream(parts) == FramedText(parts)
  {
    if parts != [] {
      var rest := parts[1..];
      PartStreamExactly(rest);
      assert seq(|parts|, i requires 0 <= i < |parts| => BigEndian(|parts[i]|, 8) + parts[i])[1..]
          == seq(|rest|, i requires 0 <= i < |rest| => BigEndian(|rest[i]|, 8) + rest[i]);
    }
  }

  /** What `_digest_parts` feeds to the hash. */
  function PartStream(parts: seq<bytes>): bytes {
    if parts == [] then [] else BigEndian(|parts[0]|, 8) + parts[0] + PartStream(parts[1..])
  }

  /** Every length fits its eight bytes; a longer part cannot be framed at all. */
  predicate Framable(parts: seq<bytes>) {
    forall p :: p in parts ==> |p| < LENGTH_LIMIT
  }

  lemma {:induction false} StreamSplit(a: seq<bytes>, b: seq<bytes>)
    requires Framable(a) && Framable(b) && PartStream(a) == PartStream(b)
    ensures a == b
  {
    if a != [] && b != [] {
      FramedSplit(a[0], b[0], PartStream(a[1..]), PartStream(b[1..]));
      StreamSplit(a[1..], b[1..]);
      assert a == [a[0]] + a[1..] && b == [b[0]] + b[1..];
    }
  }
}
