/** What the JSON reader computes, as functions of the whole text and a position
    (JsonServer/Reader.h). Each function returns the error code, the value left in the output
    parameter and the position of the cursor, on every path. ABORTED stands for a failed assert. */
module ReaderSpec {
  import opened Octets
  import opened JsonValue

  datatype ParseError =
    | PARSE_OK
    | PARSE_EXPECT_VALUE
    | PARSE_INVALID_VALUE
    | PARSE_ROOT_NOT_SINGULAR
    | PARSE_NUMBER_TOO_BIG
    | PARSE_MISS_QUOTATION_MARK
    | PARSE_INVALID_STRING_ESCAPE
    | PARSE_INVALID_STRING_CHAR
    | PARSE_INVALID_UNICODE_HEX
    | PARSE_INVALID_UNICODE_SURROGATE
    | PARSE_MISS_COMMA_OR_SQUARE_BRACKET
    | PARSE_MISS_KEY
    | PARSE_MISS_COLON
    | PARSE_MISS_COMMA_OR_CURLY_BRACKET
    | ABORTED

  datatype Parsed = Parsed(err: ParseError, value: Value, pos: nat)

  /** The stream's front(): NUL at the end of the text. */
  function Front(s: Bytes, p: nat): Byte
    requires p <= |s|
  {
    if p < |s| then s[p] else 0
  }

  /** The cursor after the stream's next(), which does not move at the end. */
  function Advance(s: Bytes, p: nat): nat
    requires p <= |s|
  {
    if p < |s| then p + 1 else p
  }

  predicate IsWs(b: Byte) { b == SPACE || b == TAB || b == CR || b == LF }

  function SkipWs(s: Bytes, p: nat): (r: nat)
    requires p <= |s|
    ensures p <= r <= |s|
    ensures forall i :: p <= i < r ==> IsWs(s[i])
    ensures forall i :: p <= i < r ==> s[i] == 0x20 || s[i] == 0x09 || s[i] == 0x0D || s[i] == 0x0A
    ensures r < |s| ==> s[r] != 0x20 && s[r] != 0x09 && s[r] != 0x0D && s[r] != 0x0A && !IsWs(s[r])
    decreases |s| - p
  {
    if p < |s| && IsWs(s[p]) then SkipWs(s, p + 1) else p
  }

  // ----- literals -----

  /** How many bytes of lit are found at p. */
  function MatchLength(s: Bytes, p: nat, lit: Bytes): (n: nat)
    requires p <= |s|
    ensures n <= |lit| && p + n <= |s|
    ensures forall i :: 0 <= i < n ==> s[p + i] == lit[i]
    ensures n < |lit| && p + n < |s| ==> s[p + n] != lit[n]
    decreases |lit|
  {
    if lit != [] && p < |s| && s[p] == lit[0] then 1 + MatchLength(s, p + 1, lit[1..]) else 0
  }

  lemma {:induction false} MatchLengthIs(s: Bytes, p: nat, lit: Bytes, n: nat)
    requires p <= |s| && n <= |lit| && p + n <= |s|
    requires forall i :: 0 <= i < n ==> s[p + i] == lit[i]
    requires n < |lit| && p + n < |s| ==> s[p + n] != lit[n]
    ensures MatchLength(s, p, lit) == n
    decreases n
  {
    if n > 0 {
      assert s[p + 0] == lit[0];
      forall i | 0 <= i < n - 1
        ensures s[p + 1 + i] == lit[1..][i]
      {
        assert s[p + (i + 1)] == lit[i + 1];
      }
      MatchLengthIs(s, p + 1, lit[1..], n - 1);
    }
  }

  const NULL_LITERAL: Bytes := [0x6E, 0x75, 0x6C, 0x6C]
  const TRUE_LITERAL: Bytes := [0x74, 0x72, 0x75, 0x65]
  const FALSE_LITERAL: Bytes := [0x66, 0x61, 0x6C, 0x73, 0x65]

  function ParseLiteral(s: Bytes, p: nat, lit: Bytes, v: Value): (r: Parsed)
    requires p <= |s|
    ensures p <= r.pos <= |s|
  {
    var n := MatchLength(s, p, lit);
    if n == |lit| then Parsed(PARSE_OK, v, p + n) else Parsed(PARSE_EXPECT_VALUE, Null, p + n)
  }

  // ----- numbers -----

  datatype NumberType = Untyped | AsDouble | AsInt32 | AsInt64

  /** Result of scanning one stretch of a number. */
  datatype Scan = Scan(ok: bool, ty: NumberType, pos: nat)

  function ScanInteger(s: Bytes, p: nat): (r: Scan)
    requires p <= |s|
    ensures p <= r.pos <= |s| && (r.ok ==> p < r.pos)
  {
    var q := if Front(s, p) == MINUS then p + 1 else p;
    if Front(s, q) == ZERO then Scan(true, Untyped, q + 1)
    else if IsDigit19(Front(s, q)) then Scan(true, Untyped, DigitsEnd(s, q))
    else Scan(false, Untyped, q)
  }

  function ScanFraction(s: Bytes, p: nat, ty: NumberType): (r: Scan)
    requires p <= |s|
    ensures p <= r.pos <= |s|
  {
    if Front(s, p) != DOT then Scan(true, ty, p)
    else if !IsDigit(Front(s, p + 1)) then Scan(false, AsDouble, p + 1)
    else Scan(true, AsDouble, DigitsEnd(s, p + 2))
  }

  function ScanExponent(s: Bytes, p: nat, ty: NumberType): (r: Scan)
    requires p <= |s|
    ensures p <= r.pos <= |s|
  {
    if Front(s, p) != 0x65 && Front(s, p) != 0x45 then Scan(true, ty, p)
    else
      var q := if Front(s, p + 1) == PLUS || Front(s, p + 1) == MINUS then p + 2 else p + 1;
      if !IsDigit(Front(s, q)) then Scan(false, AsDouble, q)
      else Scan(true, AsDouble, DigitsEnd(s, q + 1))
  }

  /** The i32 / i64 suffix; next() stops at the end of the text. */
  function ScanSuffix(s: Bytes, p: nat, ty: NumberType): (r: Scan)
    requires p <= |s|
    ensures p <= r.pos <= |s|
  {
    if Front(s, p) != LOWER_I then Scan(true, ty, p)
    else if ty == AsDouble then Scan(false, ty, p + 1)
    else
      var q := Advance(s, p + 1);
      match Front(s, p + 1)
      case 0x33 => Scan(Front(s, q) == 0x32, AsInt32, Advance(s, q))
      case 0x36 => Scan(Front(s, q) == 0x34, AsInt64, Advance(s, q))
      case _ => Scan(false, ty, q)
  }

  function ScanNumber(s: Bytes, p: nat): (r: Scan)
    requires p <= |s|
    ensures p <= r.pos <= |s| && (r.ok ==> p < r.pos)
  {
    var a := ScanInteger(s, p);
    if !a.ok then a else
    var b := ScanFraction(s, a.pos, a.ty);
    if !b.ok then b else
    var c := ScanExponent(s, b.pos, b.ty);
    if !c.ok then c else ScanSuffix(s, c.pos, c.ty)
  }

  /** What strtol reads at p: an optional sign and the maximal run of digits. */
  function Strtol(s: Bytes, p: nat): int
    requires p <= |s|
  {
    if Front(s, p) == MINUS then -(Numeral(s[p + 1..DigitsEnd(s, p + 1)]) as int)
    else Numeral(s[p..DigitsEnd(s, p)])
  }

  function ParseNumber(s: Bytes, p: nat): (r: Parsed)
    requires p <= |s|
    ensures p <= r.pos <= |s| && (r.err == PARSE_OK ==> p < r.pos)
  {
    var scan := ScanNumber(s, p);
    if !scan.ok then Parsed(PARSE_INVALID_VALUE, Null, scan.pos)
    else if scan.ty == AsDouble then Parsed(PARSE_OK, Double(s[p..scan.pos]), scan.pos)
    else
      var n := Strtol(s, p);
      if n < INT64_MIN || n > INT64_MAX then Parsed(PARSE_NUMBER_TOO_BIG, ZeroOf(scan.ty), scan.pos)
      else
        match scan.ty
        case AsInt64 => Parsed(PARSE_OK, Int64(n), scan.pos)
        case AsInt32 =>
          if n < INT32_MIN || n > INT32_MAX then Parsed(PARSE_NUMBER_TOO_BIG, Null, scan.pos)
          else Parsed(PARSE_OK, Int32(n), scan.pos)
        case _ => Parsed(PARSE_INVALID_VALUE, Null, scan.pos)
  }

  /** The value stored when strtol reports a range error. */
  function ZeroOf(ty: NumberType): Value {
    match ty
    case AsInt32 => Int32(0)
    case AsInt64 => Int64(0)
    case _ => Double([ZERO])
  }

  // ----- strings -----

  /** A string scan; closed tells whether the closing quote was seen, so that text was stored. */
  datatype Scanned = Scanned(err: ParseError, closed: bool, text: Bytes, pos: nat)

  datatype Hex = Hex(ok: bool, code: nat, pos: nat)

  predicate IsHex(b: Byte) { IsDigit(b) || 0x41 <= b <= 0x46 || 0x61 <= b <= 0x66 }

  function HexDigit(b: Byte): (d: nat)
    requires IsHex(b)
    ensures d < 16
  {
    if IsDigit(b) then b - 0x30 else if b <= 0x46 then b - 0x37 else b - 0x57
  }

  /** The hexadecimal digits from p to end, after the code u read so far. */
  function ParseHex(s: Bytes, p: nat, u: nat, end: nat): (r: Hex)
    requires p <= |s| && p <= end
    ensures p <= r.pos <= |s| && (r.ok ==> r.pos == end)
    decreases end - p
  {
    if p == end then Hex(true, u, p)
    else if IsHex(Front(s, p)) then ParseHex(s, p + 1, u * 16 + HexDigit(s[p]), end)
    else Hex(false, u * 16, Advance(s, p))
  }

  lemma {:induction false} ParseHexBound(s: Bytes, p: nat, u: nat, end: nat, top: nat)
    requires p <= |s| && p <= end && u < top
    ensures ParseHex(s, p, u, end).ok ==> ParseHex(s, p, u, end).code < top * Pow16(end - p)
    decreases end - p
  {
    if p < end && IsHex(Front(s, p)) {
      ParseHexBound(s, p + 1, u * 16 + HexDigit(s[p]), end, top * 16);
      assert top * 16 * Pow16(end - p - 1) == top * Pow16(end - p);
    }
  }

  function Pow16(n: nat): nat { if n == 0 then 1 else 16 * Pow16(n - 1) }

  /** encodeUtf8; the shifts and masks of a code below 0x110000 are written as quotients. */
  function EncodeUtf8(u: nat): (r: Bytes)
    requires u < 0x11_0000
    ensures |r| > 0
  {
    if u <= 0x7F then [u]
    else if u <= 0x7FF then [0xC0 + u / 0x40, 0x80 + u % 0x40]
    else if u <= 0xFFFF then [0xE0 + u / 0x1000, 0x80 + u / 0x40 % 0x40, 0x80 + u % 0x40]
    else [0xF0 + u / 0x4_0000, 0x80 + u / 0x1000 % 0x40, 0x80 + u / 0x40 % 0x40, 0x80 + u % 0x40]
  }

  /** What one escape yields; p is the position after the backslash. */
  datatype Escape = Escape(err: ParseError, out: Bytes, pos: nat)

  /** The byte a one-letter escape stands for, or 0 when the letter is none. */
  function ShortEscape(c: Byte): Byte {
    match c
    case 0x22 => QUOTE
    case 0x5C => BACKSLASH
    case 0x2F => SLASH
    case 0x62 => 0x08
    case 0x66 => 0x0C
    case 0x6E => LF
    case 0x72 => CR
    case 0x74 => TAB
    case _ => 0
  }

  function ParseEscape(s: Bytes, p: nat): (r: Escape)
    requires p <= |s|
    ensures p <= r.pos <= |s| && (r.err == PARSE_OK ==> p < r.pos && |r.out| > 0)
  {
    var c := Front(s, p);
    var q := Advance(s, p);
    if ShortEscape(c) != 0 then Escape(PARSE_OK, [ShortEscape(c)], q)
    else if c == LOWER_U then ParseUnicode(s, q)
    else Escape(PARSE_INVALID_STRING_ESCAPE, [], q)
  }

  function ParseUnicode(s: Bytes, p: nat): (r: Escape)
    requires p <= |s|
    ensures p <= r.pos <= |s| && (r.err == PARSE_OK ==> p + 4 <= r.pos && |r.out| > 0)
  {
    var h := ParseHex(s, p, 0, p + 4);
    ParseHexBound(s, p, 0, p + 4, 1);
    assert Pow16(4) == 0x1_0000;
    if !h.ok then Escape(PARSE_INVALID_UNICODE_HEX, [], h.pos)
    else if h.code < 0xD800 || h.code > 0xDBFF then Escape(PARSE_OK, EncodeUtf8(h.code), h.pos)
    else ParseLowSurrogate(s, h.pos, h.code)
  }

  function ParseLowSurrogate(s: Bytes, p: nat, high: nat): (r: Escape)
    requires p <= |s| && 0xD800 <= high <= 0xDBFF
    ensures p <= r.pos <= |s| && (r.err == PARSE_OK ==> |r.out| > 0)
  {
    if Front(s, p) != BACKSLASH then Escape(PARSE_INVALID_UNICODE_SURROGATE, [], Advance(s, p))
    else if Front(s, p + 1) != LOWER_U then Escape(PARSE_INVALID_UNICODE_SURROGATE, [], Advance(s, p + 1))
    else
      var h := ParseHex(s, p + 2, 0, p + 6);
      if !h.ok then Escape(PARSE_INVALID_UNICODE_HEX, [], h.pos)
      else if h.code < 0xDC00 || h.code > 0xDFFF then Escape(PARSE_INVALID_UNICODE_SURROGATE, [], h.pos)
      else Escape(PARSE_OK, EncodeUtf8(0x1_0000 + (high - 0xD800) * 0x400 + (h.code - 0xDC00)), h.pos)
  }

  /** The body of a string from p on, after buf was read. */
  function ParseChars(s: Bytes, p: nat, buf: Bytes): (r: Scanned)
    requires p <= |s|
    ensures p <= r.pos <= |s|
    ensures r.closed ==> r.err == PARSE_OK && p < r.pos && s[r.pos - 1] == QUOTE && buf <= r.text
    ensures r.err == PARSE_OK && !r.closed ==> r.pos == |s|
    decreases |s| - p
  {
    if p == |s| then Scanned(PARSE_OK, false, buf, p)
    else
      var c := s[p];
      if c == QUOTE then Scanned(PARSE_OK, true, buf, p + 1)
      else if c == BACKSLASH then
        var e := ParseEscape(s, p + 1);
        if e.err == PARSE_OK then ParseChars(s, e.pos, buf + e.out) else Scanned(e.err, false, buf, e.pos)
      else if c == 0 then Scanned(PARSE_MISS_QUOTATION_MARK, false, buf, p + 1)
      else if c < 0x20 then Scanned(PARSE_INVALID_STRING_CHAR, false, buf, p + 1)
      else ParseChars(s, p + 1, buf + [c])
  }

  /** parseString: an unterminated string leaves the value as it was. */
  function ParseString(s: Bytes, p: nat): (r: Parsed)
    requires p < |s| && s[p] == QUOTE
    ensures p < r.pos <= |s|
  {
    var t := ParseChars(s, p + 1, []);
    Parsed(t.err, if t.closed then Str(t.text) else Null, t.pos)
  }

  /** A member's key and its colon, up to where the value starts. */
  function ParseKey(s: Bytes, p: nat): (r: Scanned)
    requires p <= |s|
    ensures p <= r.pos <= |s|
    ensures r.err == PARSE_OK ==> r.closed && p < r.pos
  {
    if Front(s, p) != QUOTE then Scanned(PARSE_MISS_KEY, false, [], p)
    else
      var k := ParseChars(s, p + 1, []);
      if k.err != PARSE_OK then k
      else
        var q := SkipWs(s, k.pos);
        if Front(s, q) != COLON then Scanned(PARSE_MISS_COLON, k.closed, k.text, Advance(s, q))
        else k.(pos := SkipWs(s, q + 1))
  }

  // ----- values -----

  function ParseValue(s: Bytes, p: nat): (r: Parsed)
    requires p <= |s|
    ensures p <= r.pos <= |s|
    ensures r.err == PARSE_OK ==> p < r.pos
    decreases |s| - p, 0
  {
    match Front(s, p)
    case 0x6E => ParseLiteral(s, p, NULL_LITERAL, Null)
    case 0x74 => ParseLiteral(s, p, TRUE_LITERAL, Bool(true))
    case 0x66 => ParseLiteral(s, p, FALSE_LITERAL, Bool(false))
    case 0x22 => ParseString(s, p)
    case 0x5B =>
      var q := SkipWs(s, p + 1);
      if Front(s, q) == RBRACKET then Parsed(PARSE_OK, Arr([]), q + 1) else ArrayLoop(s, q, [])
    case 0x7B =>
      var q := SkipWs(s, p + 1);
      if Front(s, q) == RBRACE then Parsed(PARSE_OK, Obj([]), q + 1) else ObjectLoop(s, q, [])
    case _ => ParseNumber(s, p)
  }

  /** The loop of parseArray. A byte that is neither ',' nor ']' records an error that the next
      iteration overwrites: the loop goes on. */
  function ArrayLoop(s: Bytes, p: nat, items: seq<Value>): (r: Parsed)
    requires p <= |s|
    ensures p <= r.pos <= |s|
    ensures r.err == PARSE_OK ==> p < r.pos
    decreases |s| - p, 1
  {
    var e := ParseValue(s, p);
    if e.err != PARSE_OK then Parsed(e.err, Arr(items), e.pos)
    else
      var q := SkipWs(s, e.pos);
      var more := items + [e.value];
      match Front(s, q)
      case 0x2C => ArrayLoop(s, SkipWs(s, q + 1), more)
      case 0x5D => Parsed(PARSE_OK, Arr(more), q + 1)
      case _ => ArrayLoop(s, Advance(s, q), more)
  }

  /** One iteration of the loop of parseObject; again tells that the loop goes on. */
  datatype Turn = Turn(again: bool, err: ParseError, members: seq<Member>, pos: nat)

  /** A second member with the same key trips the assert of addMember. */
  function MemberTurn(s: Bytes, p: nat, ms: seq<Member>): (r: Turn)
    requires p <= |s|
    ensures p <= r.pos <= |s|
    ensures r.err == PARSE_OK || r.again ==> p < r.pos
    decreases |s| - p, 1
  {
    var k := ParseKey(s, p);
    if k.err != PARSE_OK then Turn(false, k.err, ms, k.pos)
    else
      var e := ParseValue(s, k.pos);
      if e.err != PARSE_OK then Turn(false, e.err, ms, e.pos)
      else if HasKey(ms, k.text) then Turn(false, ABORTED, ms, e.pos)
      else
        var more := Insert(ms, Member(k.text, e.value));
        var t := SkipWs(s, e.pos);
        match Front(s, t)
        case 0x2C => Turn(true, PARSE_OK, more, SkipWs(s, t + 1))
        case 0x7D => Turn(false, PARSE_OK, more, t + 1)
        case _ => Turn(false, PARSE_MISS_COMMA_OR_CURLY_BRACKET, more, t)
  }

  function ObjectLoop(s: Bytes, p: nat, ms: seq<Member>): (r: Parsed)
    requires p <= |s|
    ensures p <= r.pos <= |s|
    ensures r.err == PARSE_OK ==> p < r.pos
    decreases |s| - p, 2
  {
    var t := MemberTurn(s, p, ms);
    if t.again then ObjectLoop(s, t.pos, t.members) else Parsed(t.err, Obj(t.members), t.pos)
  }

  /** Reader::parse; before is what the output parameter held. */
  function Parse(s: Bytes, before: Value): Parsed {
    var e := ParseValue(s, SkipWs(s, 0));
    if e.err != PARSE_OK then e
    else
      var q := SkipWs(s, e.pos);
      if q < |s| then Parsed(PARSE_ROOT_NOT_SINGULAR, before, q) else Parsed(PARSE_OK, e.value, q)
  }
}
