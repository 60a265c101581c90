/** The text of a value, printed by plain recursion. A layout says where whitespace goes: nowhere
    for FastWriter, a newline and one indent per level for StyleWriter. */
module Printer {
  import opened Octets
  import opened JsonValue
  import ReaderSpec

  datatype Layout = Compact | Indented(indent: Bytes)

  predicate AllWs(t: Bytes) { forall i :: 0 <= i < |t| ==> ReaderSpec.IsWs(t[i]) }

  predicate WsLayout(l: Layout) { l.Indented? ==> AllWs(l.indent) }

  function Repeat(t: Bytes, n: nat): Bytes {
    if n == 0 then [] else t + Repeat(t, n - 1)
  }

  /** The whitespace that StyleWriter puts at a nesting depth. */
  function Pad(l: Layout, depth: nat): Bytes {
    if l.Compact? || depth == 0 then [] else [LF] + Repeat(l.indent, depth)
  }

  lemma {:induction false} RepeatWs(t: Bytes, n: nat)
    requires AllWs(t)
    ensures AllWs(Repeat(t, n))
  {
    if n > 0 { RepeatWs(t, n - 1); }
  }

  lemma PadIsWs(l: Layout, depth: nat)
    requires WsLayout(l)
    ensures AllWs(Pad(l, depth))
  {
    if l.Indented? { RepeatWs(l.indent, depth); }
  }

  lemma {:induction false} RepeatLength(t: Bytes, n: nat)
    ensures |Repeat(t, n)| == n * |t|
  {
    if n > 0 {
      RepeatLength(t, n - 1);
      assert n * |t| == |t| + (n - 1) * |t|;
    }
  }

  lemma {:induction false} RepeatAt(t: Bytes, n: nat, i: nat)
    requires i < |Repeat(t, n)|
    ensures |t| > 0 && Repeat(t, n)[i] == t[i % |t|]
  {
    var m := |t|;
    if i < m {
      QuotientIs(i, m, 0, i);
    } else {
      RepeatAt(t, n - 1, i - m);
      Wraps(i, m);
    }
  }

  lemma Wraps(i: nat, m: nat)
    requires 0 < m <= i
    ensures (i - m) % m == i % m
  {
    var q := (i - m) / m;
    assert i - m == m * q + (i - m) % m;
    assert m * (q + 1) == m * q + m;
    QuotientIs(i, m, q + 1, (i - m) % m);
  }

  /** At a depth of d levels the indenting writer breaks the line and writes its indent d times over. */
  lemma PadIs(t: Bytes, d: nat)
    ensures Pad(Compact, d) == [] && Pad(Indented(t), 0) == []
    ensures d > 0 ==> |Pad(Indented(t), d)| == 1 + d * |t| && Pad(Indented(t), d)[0] == LF
    ensures d > 0 ==> forall i :: 0 <= i < d * |t| ==> Pad(Indented(t), d)[1 + i] == t[i % |t|]
  {
    RepeatLength(t, d);
    forall i | 0 <= i < d * |t|
      ensures Repeat(t, d)[i] == t[i % |t|]
    {
      RepeatAt(t, d, i);
    }
  }

  // ----- strings -----

  function LowerHex(d: nat): Byte
    requires d < 16
  {
    if d < 10 then 0x30 + d else 0x57 + d
  }

  /** How FastWriter::String writes one byte. */
  function EscapeByte(c: Byte): (r: Bytes)
    ensures |r| > 0
  {
    match c
    case 0x22 => [BACKSLASH, QUOTE]
    case 0x5C => [BACKSLASH, BACKSLASH]
    case 0x08 => [BACKSLASH, 0x62]
    case 0x0C => [BACKSLASH, 0x66]
    case 0x0A => [BACKSLASH, 0x6E]
    case 0x0D => [BACKSLASH, 0x72]
    case 0x09 => [BACKSLASH, 0x74]
    case _ =>
      if c < 0x20 then [BACKSLASH, LOWER_U, ZERO, ZERO, LowerHex(c / 16), LowerHex(c % 16)] else [c]
  }

  function EscapeString(t: Bytes): Bytes {
    if t == [] then [] else EscapeByte(t[0]) + EscapeString(t[1..])
  }

  function Quoted(t: Bytes): Bytes { [QUOTE] + t + [QUOTE] }

  const I32_SUFFIX: Bytes := [LOWER_I, 0x33, 0x32]
  const I64_SUFFIX: Bytes := [LOWER_I, 0x36, 0x34]

  // ----- values -----

  predicate IsScalar(v: Value) { !v.Arr? && !v.Obj? }

  /** The value without the whitespace that follows it. */
  function Core(v: Value, l: Layout, depth: nat): Bytes
    decreases v, 0
  {
    match v
    case Null => ReaderSpec.NULL_LITERAL
    case Bool(b) => if b then ReaderSpec.TRUE_LITERAL else ReaderSpec.FALSE_LITERAL
    case Int32(i) => Decimal(i) + I32_SUFFIX
    case Int64(i) => Decimal(i) + I64_SUFFIX
    case Double(t) => t
    case Str(t) => Quoted(EscapeString(t))
    case Arr(items) =>
      [LBRACKET] + Pad(l, depth + 1) + ItemsText(items, true, l, depth + 1) + Pad(l, depth) + [RBRACKET]
    case Obj(ms) =>
      [LBRACE] + Pad(l, depth + 1) + MembersText(ms, true, l, depth + 1) + Pad(l, depth) + [RBRACE]
  }

  /** The whitespace that follows a value: only scalars get any. */
  function Tail(v: Value, l: Layout, depth: nat): Bytes {
    if IsScalar(v) then Pad(l, depth) else []
  }

  function Text(v: Value, l: Layout, depth: nat): Bytes
    decreases v, 1
  {
    Core(v, l, depth) + Tail(v, l, depth)
  }

  function Comma(first: bool): Bytes { if first then [] else [COMMA] }

  function ItemsText(items: seq<Value>, first: bool, l: Layout, depth: nat): Bytes
    decreases items
  {
    if items == [] then []
    else Comma(first) + Text(items[0], l, depth) + ItemsText(items[1..], false, l, depth)
  }

  function MemberText(m: Member, l: Layout, depth: nat): Bytes
    decreases m
  {
    Quoted(m.key) + [COLON] + Text(m.value, l, depth)
  }

  function MembersText(ms: seq<Member>, first: bool, l: Layout, depth: nat): Bytes
    decreases ms
  {
    if ms == [] then []
    else
      Pad(l, depth) + (Comma(first) + MemberText(ms[0], l, depth) + MembersText(ms[1..], false, l, depth))
  }
}
