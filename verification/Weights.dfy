/** The number of bytes that are not whitespace, of texts and of values: a successful parse consumes at
    least as many as the compact text of the value it returns has, and more than that if an escape was
    decoded inside a key. A text that came from a writer has none to spare. */
module Weights {
  import opened Octets
  import opened JsonValue
  import opened ReaderSpec
  import opened Printer

  // ----- weights -----

  function Heavy(c: Byte): nat { if IsWs(c) then 0 else 1 }

  /** How many bytes of s[p..q] are not whitespace. */
  function Weigh(s: Bytes, p: nat, q: nat): nat
    requires p <= q <= |s|
  {
    if p == q then 0 else Weigh(s, p, q - 1) + Heavy(s[q - 1])
  }

  function Weight(t: Bytes): nat { Weigh(t, 0, |t|) }

  lemma {:induction false} WeighSplits(s: Bytes, p: nat, m: nat, q: nat)
    requires p <= m <= q <= |s|
    ensures Weigh(s, p, q) == Weigh(s, p, m) + Weigh(s, m, q)
    decreases q
  {
    if m < q { WeighSplits(s, p, m, q - 1); }
  }

  /** Equal stretches weigh the same. */
  lemma {:induction false} WeighSame(s: Bytes, p: nat, q: nat, t: Bytes, u: nat, w: nat)
    requires p <= q <= |s| && u <= w <= |t| && s[p..q] == t[u..w]
    ensures Weigh(s, p, q) == Weigh(t, u, w)
    decreases q
  {
    assert q - p == |s[p..q]| == w - u;
    if p < q {
      assert s[q - 1] == s[p..q][q - 1 - p] == t[w - 1];
      assert s[p..q - 1] == s[p..q][..q - 1 - p] == t[u..w - 1];
      WeighSame(s, p, q - 1, t, u, w - 1);
    }
  }

  lemma WeighSlice(s: Bytes, p: nat, q: nat)
    requires p <= q <= |s|
    ensures Weigh(s, p, q) == Weight(s[p..q])
  {
    WeighSame(s, p, q, s[p..q], 0, q - p);
  }

  lemma WeightAppend(a: Bytes, b: Bytes)
    ensures Weight(a + b) == Weight(a) + Weight(b)
  {
    WeighSplits(a + b, 0, |a|, |a + b|);
    WeighSame(a + b, 0, |a|, a, 0, |a|);
    WeighSame(a + b, |a|, |a + b|, b, 0, |b|);
  }

  lemma {:induction false} WeighSolid(s: Bytes, p: nat, q: nat)
    requires p <= q <= |s| && forall i :: p <= i < q ==> !IsWs(s[i])
    ensures Weigh(s, p, q) == q - p
    decreases q
  {
    if p < q { WeighSolid(s, p, q - 1); }
  }

  lemma {:induction false} WeightAtMost(s: Bytes, p: nat, q: nat)
    requires p <= q <= |s|
    ensures Weigh(s, p, q) <= q - p
    decreases q
  {
    if p < q { WeightAtMost(s, p, q - 1); }
  }

  lemma {:induction false} WsWeighsNothing(s: Bytes, p: nat, q: nat)
    requires p <= q <= |s| && forall i :: p <= i < q ==> IsWs(s[i])
    ensures Weigh(s, p, q) == 0
    decreases q
  {
    if p < q { WsWeighsNothing(s, p, q - 1); }
  }

  // ----- the weight of a value -----

  /** The weight of the compact text of a value. */
  function W(v: Value): nat
    decreases v
  {
    match v
    case Null => 4
    case Bool(b) => if b then 4 else 5
    case Int32(i) => |Decimal(i)| + 3
    case Int64(i) => |Decimal(i)| + 3
    case Double(t) => Weight(t)
    case Str(t) => 2 + Weight(EscapeString(t))
    case Arr(items) => if items == [] then 2 else 1 + ItemsWeight(items)
    case Obj(ms) => if ms == [] then 2 else 1 + MembersWeight(ms)
  }

  /** Each item with the comma or bracket behind it. */
  function ItemsWeight(items: seq<Value>): nat
    decreases items
  {
    if items == [] then 0 else W(items[0]) + 1 + ItemsWeight(items[1..])
  }

  /** Each member with its quotes, its colon, and the comma or brace behind it. */
  function MembersWeight(ms: seq<Member>): nat
    decreases ms
  {
    if ms == [] then 0 else Weight(ms[0].key) + 4 + W(ms[0].value) + MembersWeight(ms[1..])
  }

  lemma {:induction false} ItemsSnoc(items: seq<Value>, v: Value)
    ensures ItemsWeight(items + [v]) == ItemsWeight(items) + W(v) + 1
    decreases |items|
  {
    hide W;
    if items == [] {
      assert [] + [v] == [v] && [v][1..] == [];
    } else {
      assert (items + [v])[1..] == items[1..] + [v];
      ItemsSnoc(items[1..], v);
    }
  }

  lemma {:induction false} InsertWeighs(ms: seq<Member>, m: Member)
    ensures MembersWeight(Insert(ms, m)) == MembersWeight(ms) + Weight(m.key) + 4 + W(m.value)
    decreases |ms|
  {
    hide W, Weight, Less;
    if ms == [] || Less(m.key, ms[0].key) {
      assert ([m] + ms)[1..] == ms;
    } else {
      var r := [ms[0]] + Insert(ms[1..], m);
      assert r[1..] == Insert(ms[1..], m);
      InsertWeighs(ms[1..], m);
    }
  }

  // ----- what a writer puts out -----

  lemma PadWeighs(l: Layout, depth: nat)
    requires WsLayout(l)
    ensures Weight(Pad(l, depth)) == 0
  {
    PadIsWs(l, depth);
    WsWeighsNothing(Pad(l, depth), 0, |Pad(l, depth)|);
  }

  lemma WeightOne(c: Byte)
    requires !IsWs(c)
    ensures Weight([c]) == 1
  {
    WeighSolid([c], 0, 1);
  }

  lemma WeightSolid(t: Bytes)
    requires forall i :: 0 <= i < |t| ==> !IsWs(t[i])
    ensures Weight(t) == |t|
  {
    WeighSolid(t, 0, |t|);
  }

  lemma NumberText(n: int, suffix: Bytes)
    requires suffix == I32_SUFFIX || suffix == I64_SUFFIX
    ensures Weight(Decimal(n) + suffix) == |Decimal(n)| + 3
  {
    var t := Decimal(n) + suffix;
    forall i | 0 <= i < |t|
      ensures !IsWs(t[i])
    {
      if i < |Decimal(n)| { assert t[i] == Decimal(n)[i]; }
    }
    WeightSolid(t);
  }

  lemma QuotedText(t: Bytes)
    ensures Weight(Quoted(t)) == 2 + Weight(t)
  {
    WeightAppend([QUOTE] + t, [QUOTE]);
    WeightAppend([QUOTE], t);
    WeightOne(QUOTE);
  }

  lemma BracketText(open: Byte, a: Bytes, body: Bytes, b: Bytes, close: Byte)
    requires !IsWs(open) && !IsWs(close) && Weight(a) == 0 && Weight(b) == 0
    ensures Weight([open] + a + body + b + [close]) == 2 + Weight(body)
  {
    hide Weight;
    WeightAppend([open] + a + body + b, [close]);
    WeightAppend([open] + a + body, b);
    WeightAppend([open] + a, body);
    WeightAppend([open], a);
    WeightOne(open);
    WeightOne(close);
  }

  lemma ScalarText(v: Value, l: Layout, depth: nat)
    requires IsScalar(v)
    ensures Weight(Core(v, l, depth)) == W(v)
  {
    hide Weight, Decimal, EscapeString, Quoted;
    match v
    case Null => WeightSolid(NULL_LITERAL);
    case Bool(b) => WeightSolid(if b then TRUE_LITERAL else FALSE_LITERAL);
    case Int32(i) => NumberText(i, I32_SUFFIX);
    case Int64(i) => NumberText(i, I64_SUFFIX);
    case Double(_) =>
    case Str(t) => QuotedText(EscapeString(t));
  }

  /** Every layout of a value weighs what its compact text weighs. */
  lemma {:induction false} CoreWeighs(v: Value, l: Layout, depth: nat)
    requires WsLayout(l)
    ensures Weight(Core(v, l, depth)) == W(v)
    decreases v, 0
  {
    hide Weight, Pad, ItemsText, MembersText, ItemsWeight, MembersWeight, WsLayout, Quoted, Decimal, EscapeString;
    PadWeighs(l, depth);
    PadWeighs(l, depth + 1);
    match v
    case Arr(items) =>
      ItemsTextWeighs(items, true, l, depth + 1);
      BracketText(LBRACKET, Pad(l, depth + 1), ItemsText(items, true, l, depth + 1), Pad(l, depth), RBRACKET);
      NothingWeighs();
    case Obj(ms) =>
      MembersTextWeighs(ms, true, l, depth + 1);
      BracketText(LBRACE, Pad(l, depth + 1), MembersText(ms, true, l, depth + 1), Pad(l, depth), RBRACE);
      NothingWeighs();
    case _ => ScalarText(v, l, depth);
  }

  lemma NothingWeighs()
    ensures ItemsWeight([]) == 0 && MembersWeight([]) == 0 && Weight([]) == 0
  {
  }

  lemma {:induction false} TextWeighs(v: Value, l: Layout, depth: nat)
    requires WsLayout(l)
    ensures Weight(Text(v, l, depth)) == W(v)
    decreases v, 1
  {
    hide Weight, Core, W, Pad;
    CoreWeighs(v, l, depth);
    PadWeighs(l, depth);
    WeightAppend(Core(v, l, depth), Tail(v, l, depth));
    NothingWeighs();
  }

  lemma CommaWeighs(first: bool)
    ensures Weight(Comma(first)) == if first then 0 else 1
  {
    if !first { WeightOne(COMMA); }
  }

  lemma {:induction false} ItemsTextWeighs(items: seq<Value>, first: bool, l: Layout, depth: nat)
    requires WsLayout(l)
    ensures Weight(ItemsText(items, first, l, depth)) + (if first && items != [] then 1 else 0) == ItemsWeight(items)
    decreases items, 2
  {
    hide Weight, Text, W, Comma, WsLayout;
    if items == [] {
      NothingWeighs();
    } else {
      TextWeighs(items[0], l, depth);
      ItemsTextWeighs(items[1..], false, l, depth);
      CommaWeighs(first);
      WeightAppend(Comma(first) + Text(items[0], l, depth), ItemsText(items[1..], false, l, depth));
      WeightAppend(Comma(first), Text(items[0], l, depth));
    }
  }

  lemma {:induction false} MemberTextWeighs(m: Member, l: Layout, depth: nat)
    requires WsLayout(l)
    ensures Weight(MemberText(m, l, depth)) == Weight(m.key) + 3 + W(m.value)
    decreases m, 2
  {
    hide Weight, Text, W, Quoted, WsLayout;
    TextWeighs(m.value, l, depth);
    WeightAppend(Quoted(m.key) + [COLON], Text(m.value, l, depth));
    WeightAppend(Quoted(m.key), [COLON]);
    WeightOne(COLON);
    QuotedText(m.key);
  }

  lemma {:induction false} MembersTextWeighs(ms: seq<Member>, first: bool, l: Layout, depth: nat)
    requires WsLayout(l)
    ensures Weight(MembersText(ms, first, l, depth)) + (if first && ms != [] then 1 else 0) == MembersWeight(ms)
    decreases ms, 3
  {
    hide Weight, MemberText, W, Comma, Pad, WsLayout;
    if ms == [] {
      NothingWeighs();
    } else {
      var comma, member, rest := Comma(first), MemberText(ms[0], l, depth), MembersText(ms[1..], false, l, depth);
      MemberTextWeighs(ms[0], l, depth);
      MembersTextWeighs(ms[1..], false, l, depth);
      CommaWeighs(first);
      PadWeighs(l, depth);
      WeightAppend(Pad(l, depth), comma + member + rest);
      WeightAppend(comma + member, rest);
      WeightAppend(comma, member);
    }
  }

  // ----- what the reader consumes: strings -----

  lemma {:induction false} HexIsSolid(s: Bytes, p: nat, u: nat, end: nat)
    requires p <= |s| && p <= end && ParseHex(s, p, u, end).ok
    ensures end <= |s| && Weigh(s, p, end) == end - p
    decreases end - p
  {
    if p < end {
      HexIsSolid(s, p + 1, u * 16 + HexDigit(s[p]), end);
      WeighSplits(s, p, p + 1, end);
      WeighSolid(s, p, p + 1);
    }
  }

  /** The weight of a byte once it is escaped is at most 6, and 1 beyond ASCII. */
  lemma EscapeByteWeighs(c: Byte)
    ensures Weight(EscapeByte(c)) <= 6 && (c >= 0x80 ==> Weight(EscapeByte(c)) == 1)
    ensures c >= 0x20 && c != QUOTE && c != BACKSLASH ==> Weight(EscapeByte(c)) == Heavy(c)
    ensures c == QUOTE || c == BACKSLASH || c in {0x08, 0x0A, 0x0C, 0x0D, 0x09} ==> Weight(EscapeByte(c)) == 2
  {
    var t := EscapeByte(c);
    WeightAtMost(t, 0, |t|);
    if c >= 0x20 && c != QUOTE && c != BACKSLASH {
      assert t == [c];
      assert Weigh(t, 0, 0) == 0;
    } else {
      WeightSolid(t);
    }
  }

  lemma {:induction false} EscapeStringAppend(a: Bytes, b: Bytes)
    ensures EscapeString(a + b) == EscapeString(a) + EscapeString(b)
    decreases a
  {
    hide EscapeByte;
    if a == [] {
      assert a + b == b;
    } else {
      assert (a + b)[1..] == a[1..] + b;
      EscapeStringAppend(a[1..], b);
    }
  }

  lemma EscapeStringOne(c: Byte)
    ensures EscapeString([c]) == EscapeByte(c)
  {
    hide EscapeByte;
    assert [c][1..] == [];
  }

  lemma {:induction false} HighBytesWeigh(t: Bytes)
    requires forall i :: 0 <= i < |t| ==> t[i] >= 0x80
    ensures Weight(EscapeString(t)) == |t|
    decreases t
  {
    hide Weight, EscapeByte;
    if t == [] {
      NothingWeighs();
    } else {
      EscapeByteWeighs(t[0]);
      HighBytesWeigh(t[1..]);
      WeightAppend(EscapeByte(t[0]), EscapeString(t[1..]));
    }
  }

  lemma Utf8Weighs(u: nat)
    requires u < 0x11_0000
    ensures Weight(EscapeString(EncodeUtf8(u))) <= 6 && |EncodeUtf8(u)| <= 4
  {
    if u <= 0x7F {
      EscapeStringOne(u);
      EscapeByteWeighs(u);
    } else {
      HighBytesWeigh(EncodeUtf8(u));
    }
  }

  /** An escape weighs at least as much as what it decodes to, written as an escape; and more than
      what it decodes to, written raw. */
  lemma EscapeWeighs(s: Bytes, p: nat)
    requires p < |s| && s[p] == BACKSLASH && ParseEscape(s, p + 1).err == PARSE_OK
    ensures var e := ParseEscape(s, p + 1);
      && Weigh(s, p, e.pos) >= Weight(EscapeString(e.out))
      && Weigh(s, p, e.pos) > Weight(e.out)
  {
    hide EscapeString, Weight, EncodeUtf8, ParseUnicode;
    var e := ParseEscape(s, p + 1);
    var c := Front(s, p + 1);
    WeightAtMost(e.out, 0, |e.out|);
    assert Weight(e.out) <= |e.out| by { WeightIsAtMost(e.out); }
    if ShortEscape(c) != 0 {
      WeighSolid(s, p, p + 2);
      EscapeStringOne(ShortEscape(c));
      EscapeByteWeighs(ShortEscape(c));
    } else {
      UnicodeWeighs(s, p);
    }
  }

  lemma WeightIsAtMost(t: Bytes)
    ensures Weight(t) <= |t|
  {
    WeightAtMost(t, 0, |t|);
  }

  lemma UnicodeWeighs(s: Bytes, p: nat)
    requires p + 1 < |s| && s[p] == BACKSLASH && s[p + 1] == LOWER_U && ParseUnicode(s, p + 2).err == PARSE_OK
    ensures var e := ParseUnicode(s, p + 2);
      && Weigh(s, p, e.pos) >= 6 && |e.out| <= 4 && Weight(EscapeString(e.out)) <= 6
  {
    hide EscapeString, Weight, EncodeUtf8, ParseHex;
    var e := ParseUnicode(s, p + 2);
    var h := ParseHex(s, p + 2, 0, p + 6);
    HexIsSolid(s, p + 2, 0, p + 6);
    WeighSolid(s, p, p + 2);
    WeighSplits(s, p, p + 2, p + 6);
    WeighSplits(s, p, p + 6, e.pos);
    assert exists u: nat :: u < 0x11_0000 && e.out == EncodeUtf8(u) by { UnicodeCode(s, p + 2); }
    var u: nat :| u < 0x11_0000 && e.out == EncodeUtf8(u);
    Utf8Weighs(u);
  }

  lemma UnicodeCode(s: Bytes, p: nat)
    requires p <= |s| && ParseUnicode(s, p).err == PARSE_OK
    ensures exists u: nat :: u < 0x11_0000 && ParseUnicode(s, p).out == EncodeUtf8(u)
  {
    hide EncodeUtf8, ParseHex;
    var h := ParseHex(s, p, 0, p + 4);
    ParseHexBound(s, p, 0, p + 4, 1);
    assert Pow16(4) == 0x1_0000;
    if 0xD800 <= h.code <= 0xDBFF {
      var low := ParseHex(s, h.pos + 2, 0, h.pos + 6).code;
      assert ParseUnicode(s, p).out == EncodeUtf8(0x1_0000 + (h.code - 0xD800) * 0x400 + (low - 0xDC00));
    } else {
      assert ParseUnicode(s, p).out == EncodeUtf8(h.code);
    }
  }

  /** A string that is closed weighs what its text weighs, escaped, and the closing quote. */
  lemma {:induction false} CharsWeigh(s: Bytes, p: nat, buf: Bytes)
    requires p <= |s| && ParseChars(s, p, buf).closed
    ensures var r := ParseChars(s, p, buf);
      Weigh(s, p, r.pos) + Weight(EscapeString(buf)) >= Weight(EscapeString(r.text)) + 1
    decreases |s| - p
  {
    hide ParseEscape, EscapeString, Weight;
    var r, c := ParseChars(s, p, buf), s[p];
    if c == QUOTE {
      WeighSolid(s, p, p + 1);
    } else if c == BACKSLASH {
      var e := ParseEscape(s, p + 1);
      EscapeWeighs(s, p);
      CharsWeigh(s, e.pos, buf + e.out);
      WeighSplits(s, p, e.pos, r.pos);
      EscapeStringAppend(buf, e.out);
      WeightAppend(EscapeString(buf), EscapeString(e.out));
    } else {
      CharsWeigh(s, p + 1, buf + [c]);
      WeighSplits(s, p, p + 1, r.pos);
      WeighOne(s, p);
      EscapeStringAppend(buf, [c]);
      EscapeStringOne(c);
      EscapeByteWeighs(c);
      WeightAppend(EscapeString(buf), EscapeString([c]));
    }
  }

  lemma WeighOne(s: Bytes, p: nat)
    requires p < |s|
    ensures Weigh(s, p, p + 1) == Heavy(s[p])
  {
    assert Weigh(s, p, p) == 0;
  }

  /** A key that is closed weighs at least what its bytes weigh, and the closing quote; exactly that
      only if none of its bytes came from an escape, and then it is plain. */
  lemma {:induction false} KeyCharsWeigh(s: Bytes, p: nat, buf: Bytes)
    requires p <= |s| && ParseChars(s, p, buf).closed && PlainKey(buf)
    ensures var r := ParseChars(s, p, buf);
      && Weigh(s, p, r.pos) + Weight(buf) >= Weight(r.text) + 1
      && (Weigh(s, p, r.pos) + Weight(buf) == Weight(r.text) + 1 ==> PlainKey(r.text))
    decreases |s| - p
  {
    hide ParseEscape, Weight;
    var r, c := ParseChars(s, p, buf), s[p];
    if c == QUOTE {
      WeighSolid(s, p, p + 1);
    } else if c == BACKSLASH {
      var e := ParseEscape(s, p + 1);
      EscapeWeighs(s, p);
      AnyCharsWeigh(s, e.pos, buf + e.out);
      WeighSplits(s, p, e.pos, r.pos);
      WeightAppend(buf, e.out);
    } else {
      KeyCharsWeigh(s, p + 1, buf + [c]);
      WeighSplits(s, p, p + 1, r.pos);
      WeighOne(s, p);
      WeightAppend(buf, [c]);
      WeighOne([c], 0);
      SingleWeight(c);
    }
  }

  lemma SingleWeight(c: Byte)
    ensures Weight([c]) == Heavy(c)
  {
    WeighOne([c], 0);
  }

  lemma {:induction false} AnyCharsWeigh(s: Bytes, p: nat, buf: Bytes)
    requires p <= |s| && ParseChars(s, p, buf).closed
    ensures var r := ParseChars(s, p, buf); Weigh(s, p, r.pos) + Weight(buf) >= Weight(r.text) + 1
    decreases |s| - p
  {
    hide ParseEscape, Weight;
    var r, c := ParseChars(s, p, buf), s[p];
    if c == QUOTE {
      WeighSolid(s, p, p + 1);
    } else if c == BACKSLASH {
      var e := ParseEscape(s, p + 1);
      EscapeWeighs(s, p);
      AnyCharsWeigh(s, e.pos, buf + e.out);
      WeighSplits(s, p, e.pos, r.pos);
      WeightAppend(buf, e.out);
    } else {
      AnyCharsWeigh(s, p + 1, buf + [c]);
      WeighSplits(s, p, p + 1, r.pos);
      WeighOne(s, p);
      WeightAppend(buf, [c]);
      SingleWeight(c);
    }
  }

  // ----- what the reader consumes: numbers -----

  /** A numeral is no longer than the digits it was read from. */
  lemma {:induction false} NumeralIsShort(t: Bytes)
    requires t != [] && AllDigits(t)
    ensures |Digits(Numeral(t))| <= |t|
    decreases |t|
  {
    var n, init := Numeral(t), t[..|t| - 1];
    if n >= 10 {
      assert n / 10 == Numeral(init);
      NumeralIsShort(init);
    }
  }

  /** The digits that an accepted integer was read from. */
  lemma IntegerDigits(s: Bytes, p: nat, q: nat, a: nat)
    requires p <= q < a < |s| && (q == p || (q == p + 1 && s[p] == MINUS)) && IsDigit(s[q])
    requires a == DigitsEnd(s, q) && (q == p ==> s[p] != MINUS)
    ensures forall i :: p <= i < a ==> !IsWs(s[i])
    ensures |Decimal(Strtol(s, p))| <= a - p
  {
    hide Numeral, Digits, Decimal;
    var t := s[q..a];
    assert t[0] == s[q];
    NumeralIsShort(t);
    DigitsAreSolid(s, q, a);
    DecimalLength(Numeral(t));
  }

  lemma DigitsAreSolid(s: Bytes, q: nat, a: nat)
    requires q <= a <= |s| && AllDigits(s[q..a])
    ensures forall i :: q <= i < a ==> !IsWs(s[i])
  {
    forall i | q <= i < a
      ensures !IsWs(s[i])
    {
      assert s[q..a][i - q] == s[i];
    }
  }

  /** An integer that the reader accepts is followed by its suffix, and is no shorter than it prints. */
  lemma IntegerShape(s: Bytes, p: nat)
    requires p <= |s| && ScanNumber(s, p).ok && ScanNumber(s, p).ty != AsDouble && ScanNumber(s, p).ty != Untyped
    ensures var a := ScanInteger(s, p).pos;
      && ScanNumber(s, p).pos == a + 3 <= |s| && s[a] == LOWER_I
      && (forall i :: p <= i < a + 3 ==> !IsWs(s[i]))
      && |Decimal(Strtol(s, p))| <= a - p
  {
    hide Numeral, Digits, Strtol, Decimal;
    var a := ScanInteger(s, p);
    assert ScanFraction(s, a.pos, a.ty).pos == a.pos && ScanExponent(s, a.pos, a.ty).pos == a.pos;
    var q := if Front(s, p) == MINUS then p + 1 else p;
    if s[q] == ZERO { DigitsEndAt(s, q, q + 1); }
    IntegerDigits(s, p, q, a.pos);
  }

  lemma DecimalLength(n: nat)
    ensures |Decimal(-(n as int))| <= 1 + |Digits(n)| && |Decimal(n)| == |Digits(n)|
  {
  }

  lemma NumberWeighs(s: Bytes, p: nat)
    requires p <= |s| && ParseNumber(s, p).err == PARSE_OK
    ensures var r := ParseNumber(s, p); Weigh(s, p, r.pos) >= W(r.value) && PlainKeys(r.value)
  {
    hide ScanNumber, Strtol, Decimal, Weight;
    var r := ParseNumber(s, p);
    if ScanNumber(s, p).ty == AsDouble {
      WeighSlice(s, p, r.pos);
    } else {
      IntegerShape(s, p);
      WeighSolid(s, p, r.pos);
    }
  }

  // ----- what the reader consumes: values -----

  /** A parse that consumed n pays for v: it has the weight of its text, and exactly that only if all
      its keys are plain. */
  predicate Pays(n: nat, v: Value) { n >= W(v) && (n == W(v) ==> PlainKeys(v)) }

  predicate AllPlain(items: seq<Value>) { forall i :: 0 <= i < |items| ==> PlainKeys(items[i]) }

  predicate AllMembersPlain(ms: seq<Member>) {
    forall i :: 0 <= i < |ms| ==> PlainKey(ms[i].key) && PlainKeys(ms[i].value)
  }

  /** At the end of the text nothing can be read. */
  lemma NothingAtEnd(s: Bytes, items: seq<Value>)
    ensures ParseValue(s, |s|).err != PARSE_OK && ArrayLoop(s, |s|, items).err != PARSE_OK
  {
    assert Front(s, |s|) == 0;
  }

  /** A value that was read pays for itself. Only an unterminated string, which takes the rest of the
      text for null, does not. */
  lemma {:induction false} ValuePays(s: Bytes, p: nat)
    requires p <= |s| && ParseValue(s, p).err == PARSE_OK
    ensures var r := ParseValue(s, p);
      Pays(Weigh(s, p, r.pos), r.value) || (r.value == Null && r.pos == |s|)
    decreases |s| - p, 0
  {
    hide ArrayLoop, ObjectLoop, ParseNumber, ParseString, ParseLiteral, SkipWs, W, PlainKeys, Weigh;
    match Front(s, p)
    case 0x6E => LiteralPays(s, p, NULL_LITERAL, Null);
    case 0x74 => LiteralPays(s, p, TRUE_LITERAL, Bool(true));
    case 0x66 => LiteralPays(s, p, FALSE_LITERAL, Bool(false));
    case 0x22 => StringPays(s, p);
    case 0x5B => ArrayPays(s, p);
    case 0x7B => ObjectPays(s, p);
    case _ => NumberWeighs(s, p);
  }

  lemma LiteralPays(s: Bytes, p: nat, lit: Bytes, v: Value)
    requires p <= |s| && ParseLiteral(s, p, lit, v).err == PARSE_OK
    requires (lit == NULL_LITERAL && v == Null) || (lit == TRUE_LITERAL && v == Bool(true))
      || (lit == FALSE_LITERAL && v == Bool(false))
    ensures Pays(Weigh(s, p, ParseLiteral(s, p, lit, v).pos), v) && ParseLiteral(s, p, lit, v).value == v
  {
    forall i | p <= i < p + |lit|
      ensures !IsWs(s[i])
    {
      assert s[p + (i - p)] == lit[i - p];
    }
    WeighSolid(s, p, p + |lit|);
  }

  lemma StringPays(s: Bytes, p: nat)
    requires p < |s| && s[p] == QUOTE && ParseString(s, p).err == PARSE_OK
    ensures var r := ParseString(s, p);
      Pays(Weigh(s, p, r.pos), r.value) || (r.value == Null && r.pos == |s|)
  {
    hide ParseChars, EscapeString;
    var t := ParseChars(s, p + 1, []);
    if t.closed {
      CharsWeigh(s, p + 1, []);
      WeighSplits(s, p, p + 1, t.pos);
      WeighSolid(s, p, p + 1);
      assert EscapeString([]) == [] by { NoEscape(); }
    }
  }

  lemma NoEscape()
    ensures EscapeString([]) == []
  {
  }

  lemma {:induction false} ArrayPays(s: Bytes, p: nat)
    requires p < |s| && s[p] == LBRACKET && ParseValue(s, p).err == PARSE_OK
    ensures Pays(Weigh(s, p, ParseValue(s, p).pos), ParseValue(s, p).value)
    decreases |s| - p, 0, 0
  {
    hide ArrayLoop, SkipWs;
    var q := SkipWs(s, p + 1);
    WeighSolid(s, p, p + 1);
    var r := ParseValue(s, p);
    WeighSplits(s, p, p + 1, r.pos);
    WeighSplits(s, p + 1, q, r.pos);
    if Front(s, q) == RBRACKET {
      WeighSolid(s, q, q + 1);
    } else {
      ItemsPay(s, q, []);
    }
  }

  /** One turn of the loop of parseArray that is not the end of the text. */
  lemma ArrayTurnTaken(s: Bytes, p: nat, items: seq<Value>)
    requires p <= |s| && ArrayLoop(s, p, items).err == PARSE_OK
    ensures var e := ParseValue(s, p); var q := SkipWs(s, e.pos); var more := items + [e.value];
      && e.err == PARSE_OK && q < |s|
      && if s[q] == RBRACKET then ArrayLoop(s, p, items) == Parsed(PARSE_OK, Arr(more), q + 1)
         else
           var next := if s[q] == COMMA then SkipWs(s, q + 1) else q + 1;
           ArrayLoop(s, p, items) == ArrayLoop(s, next, more)
  {
    hide ParseValue, SkipWs;
    var e := ParseValue(s, p);
    NothingAtEnd(s, items + [e.value]);
  }

  /** The items read by the loop pay for themselves, each with what stands behind it. */
  lemma {:induction false} ItemsPay(s: Bytes, p: nat, items: seq<Value>)
    requires p <= |s| && ArrayLoop(s, p, items).err == PARSE_OK
    ensures ArrayLoop(s, p, items).value.Arr?
    ensures var r := ArrayLoop(s, p, items);
      var n := Weigh(s, p, r.pos) + ItemsWeight(items);
         && |items| < |r.value.items| && n >= ItemsWeight(r.value.items)
         && (n == ItemsWeight(r.value.items) && AllPlain(items) ==> AllPlain(r.value.items))
    decreases |s| - p, 1
  {
    hide ArrayLoop, ParseValue, SkipWs, W, PlainKeys, ItemsWeight, Weigh;
    var r, e := ArrayLoop(s, p, items), ParseValue(s, p);
    ArrayTurnTaken(s, p, items);
    var q := SkipWs(s, e.pos);
    ValuePays(s, p);
    WeighSplits(s, p, e.pos, r.pos);
    WeighSplits(s, e.pos, q, r.pos);
    WeighSplits(s, q, q + 1, r.pos);
    WeighSolid(s, q, q + 1);
    ItemsSnoc(items, e.value);
    if s[q] != RBRACKET {
      var next := if s[q] == COMMA then SkipWs(s, q + 1) else q + 1;
      WeighSplits(s, q + 1, next, r.pos);
      ItemsPay(s, next, items + [e.value]);
    }
  }

  lemma {:induction false} ObjectPays(s: Bytes, p: nat)
    requires p < |s| && s[p] == LBRACE && ParseValue(s, p).err == PARSE_OK
    ensures Pays(Weigh(s, p, ParseValue(s, p).pos), ParseValue(s, p).value)
    decreases |s| - p, 0, 0
  {
    hide ObjectLoop, SkipWs;
    var q := SkipWs(s, p + 1);
    WeighSolid(s, p, p + 1);
    var r := ParseValue(s, p);
    WeighSplits(s, p, p + 1, r.pos);
    WeighSplits(s, p + 1, q, r.pos);
    if Front(s, q) == RBRACE {
      WeighSolid(s, q, q + 1);
    } else {
      MembersPay(s, q, []);
    }
  }

  lemma KeyPays(s: Bytes, p: nat)
    requires p <= |s| && ParseKey(s, p).err == PARSE_OK
    ensures var k := ParseKey(s, p);
      && Weigh(s, p, k.pos) >= Weight(k.text) + 3
      && (Weigh(s, p, k.pos) == Weight(k.text) + 3 ==> PlainKey(k.text))
  {
    hide ParseChars, SkipWs, Weight, Weigh, PlainKey;
    var k := ParseChars(s, p + 1, []);
    var q := SkipWs(s, k.pos);
    var end := SkipWs(s, q + 1);
    NothingIsPlain();
    KeyCharsWeigh(s, p + 1, []);
    WeighSplits(s, p, p + 1, end);
    WeighSolid(s, p, p + 1);
    WeighSplits(s, p + 1, k.pos, end);
    WeighSplits(s, k.pos, q, end);
    WeighSplits(s, q, q + 1, end);
    WeighSolid(s, q, q + 1);
    NothingWeighs();
  }

  lemma NothingIsPlain()
    ensures PlainKey([])
  {
  }

  /** One turn of the loop of parseObject adds one member, and pays for it. */
  lemma {:induction false} MemberPays(s: Bytes, p: nat, ms: seq<Member>) returns (m: Member)
    requires p <= |s| && var t := MemberTurn(s, p, ms); t.again || t.err == PARSE_OK
    ensures var t := MemberTurn(s, p, ms);
      && t.members == Insert(ms, m) && t.pos <= |s|
      && var n := Weight(m.key) + 4 + W(m.value);
         && Weigh(s, p, t.pos) >= n
         && (Weigh(s, p, t.pos) == n ==> PlainKey(m.key) && PlainKeys(m.value))
    decreases |s| - p, 1
  {
    hide ParseKey, ParseValue, SkipWs, W, PlainKeys, PlainKey, Weight, Weigh, Insert, HasKey;
    var t, k := MemberTurn(s, p, ms), ParseKey(s, p);
    var e := ParseValue(s, k.pos);
    m := Member(k.text, e.value);
    var q := SkipWs(s, e.pos);
    KeyPays(s, p);
    ValuePays(s, k.pos);
    WeighSplits(s, p, k.pos, t.pos);
    WeighSplits(s, k.pos, e.pos, t.pos);
    WeighSplits(s, e.pos, q, t.pos);
    WeighSplits(s, q, q + 1, t.pos);
    WeighSolid(s, q, q + 1);
  }

  lemma {:induction false} MembersPay(s: Bytes, p: nat, ms: seq<Member>)
    requires p <= |s| && ObjectLoop(s, p, ms).err == PARSE_OK
    ensures ObjectLoop(s, p, ms).value.Obj?
    ensures var r := ObjectLoop(s, p, ms);
      var n := Weigh(s, p, r.pos) + MembersWeight(ms);
         && |ms| < |r.value.members| && n >= MembersWeight(r.value.members)
         && (n == MembersWeight(r.value.members) && AllMembersPlain(ms) ==> AllMembersPlain(r.value.members))
    decreases |s| - p, 2
  {
    hide MemberTurn, W, PlainKeys, PlainKey, MembersWeight, Weigh, Weight, Insert, AllMembersPlain;
    var t := MemberTurn(s, p, ms);
    var m := MemberPays(s, p, ms);
    InsertWeighs(ms, m);
    InsertPlain(ms, m);
    if t.again {
      MembersPay(s, t.pos, t.members);
      WeighSplits(s, p, t.pos, ObjectLoop(s, p, ms).pos);
    }
  }

  lemma InsertPlain(ms: seq<Member>, m: Member)
    ensures |Insert(ms, m)| == |ms| + 1
    ensures AllMembersPlain(ms) && PlainKey(m.key) && PlainKeys(m.value) ==> AllMembersPlain(Insert(ms, m))
  {
    hide PlainKey, PlainKeys;
    InsertKeeps(ms, m);
    var r := Insert(ms, m);
    if AllMembersPlain(ms) && PlainKey(m.key) && PlainKeys(m.value) {
      forall i | 0 <= i < |r|
        ensures PlainKey(r[i].key) && PlainKeys(r[i].value)
      {
        assert r[i] in r;
      }
    }
  }
}
