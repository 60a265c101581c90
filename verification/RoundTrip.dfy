/** The reader undoes both writers: every double-free value whose keys are plain is read back from
    its printed text, at any position, under any whitespace layout. */
module RoundTrip {
  import opened Octets
  import opened JsonValue
  import opened ReaderSpec
  import opened Printer
  import opened Continued

  // ----- whitespace -----

  /** Skipping from the start of some whitespace is skipping from its end. */
  lemma {:induction false} SkipOver(s: Bytes, p: nat, w: Bytes, k: Rest)
    requires Reads(s, p, Then(w, k)) && AllWs(w)
    ensures p + |w| <= |s| && Reads(s, p + |w|, k) && SkipWs(s, p) == SkipWs(s, p + |w|)
    decreases w
  {
    Peel(s, p, w, k);
    SkipRun(s, p, p + |w|);
  }

  lemma {:induction false} SkipRun(s: Bytes, p: nat, q: nat)
    requires p <= q <= |s| && forall i :: p <= i < q ==> IsWs(s[i])
    ensures SkipWs(s, p) == SkipWs(s, q)
    decreases q - p
  {
    if p < q { SkipRun(s, p + 1, q); }
  }

  lemma SkipNone(s: Bytes, p: nat)
    requires p <= |s| && (p < |s| ==> !IsWs(s[p]))
    ensures SkipWs(s, p) == p
  {
  }

  // ----- strings -----

  lemma TakeFirst<T>(acc: seq<T>, xs: seq<T>)
    requires xs != []
    ensures acc + [xs[0]] + xs[1..] == acc + xs
    ensures xs[1..] == [] ==> acc + xs == acc + [xs[0]]
  {
    assert xs == [xs[0]] + xs[1..];
  }

  lemma EscapeByteReadsBack(c: Byte, s: Bytes, p: nat, buf: Bytes)
    requires p + |EscapeByte(c)| <= |s|
    requires forall i :: 0 <= i < |EscapeByte(c)| ==> s[p + i] == EscapeByte(c)[i]
    ensures ParseChars(s, p, buf) == ParseChars(s, p + |EscapeByte(c)|, buf + [c])
  {
    hide ParseEscape;
    var e := EscapeByte(c);
    assert s[p + 0] == e[0];
    if |e| > 1 { EscapeReads(c, s, p); }
  }

  lemma EscapeReads(c: Byte, s: Bytes, p: nat)
    requires |EscapeByte(c)| > 1 && p + |EscapeByte(c)| <= |s|
    requires forall i :: 0 <= i < |EscapeByte(c)| ==> s[p + i] == EscapeByte(c)[i]
    ensures ParseEscape(s, p + 1) == Escape(PARSE_OK, [c], p + |EscapeByte(c)|)
  {
    hide ParseHex;
    var e := EscapeByte(c);
    assert s[p + 1] == e[1];
    if |e| == 6 {
      assert s[p + 2] == e[2] && s[p + 3] == e[3] && s[p + 4] == e[4] && s[p + 5] == e[5];
      HexOfByte(s, p + 2, c);
    }
  }

  lemma HexOfByte(s: Bytes, p: nat, c: Byte)
    requires p + 4 <= |s| && s[p] == ZERO && s[p + 1] == ZERO
    requires c < 0x20 && s[p + 2] == LowerHex(c / 16) && s[p + 3] == LowerHex(c % 16)
    ensures ParseHex(s, p, 0, p + 4) == Hex(true, c, p + 4)
  {
    assert ParseHex(s, p, 0, p + 4) == ParseHex(s, p + 1, 0, p + 4) == ParseHex(s, p + 2, 0, p + 4);
    assert ParseHex(s, p + 2, 0, p + 4) == ParseHex(s, p + 3, c / 16, p + 4);
    assert ParseHex(s, p + 3, c / 16, p + 4) == ParseHex(s, p + 4, c, p + 4);
  }

  lemma EscapedReadsBack(c: Byte, s: Bytes, p: nat, buf: Bytes, k: Rest)
    requires Reads(s, p, Then(EscapeByte(c), k))
    ensures var q := p + |EscapeByte(c)|;
      q <= |s| && Reads(s, q, k) && ParseChars(s, p, buf) == ParseChars(s, q, buf + [c])
  {
    hide EscapeByte, ParseChars;
    Peel(s, p, EscapeByte(c), k);
    EscapeByteReadsBack(c, s, p, buf);
  }

  lemma EscapeFirst(t: Bytes)
    ensures EscapeString(t) == if t == [] then [] else EscapeByte(t[0]) + EscapeString(t[1..])
  {
  }

  /** Any bytes at all survive FastWriter::String followed by parseString. */
  lemma {:induction false} StringReadsBack(t: Bytes, s: Bytes, p: nat, buf: Bytes, k: Rest)
    requires Reads(s, p, Then(EscapeString(t), Then([QUOTE], k)))
    ensures p + |EscapeString(t)| + 1 <= |s| && Reads(s, p + |EscapeString(t)| + 1, k)
    ensures ParseChars(s, p, buf) == Scanned(PARSE_OK, true, buf + t, p + |EscapeString(t)| + 1)
    decreases t
  {
    hide Then, Reads, EscapeByte, EscapeString, ParseEscape, ParseChars;
    var end := Then([QUOTE], k);
    if t == [] {
      assert EscapeString(t) == [] by { EscapeFirst(t); }
      ThenNothing(end);
      PeelOne(s, p, QUOTE, k);
      QuoteCloses(s, p, buf);
      assert buf + t == buf;
    } else {
      var e := EscapeByte(t[0]);
      EscapeFirst(t);
      ThenSplits(e, EscapeString(t[1..]), end);
      EscapedReadsBack(t[0], s, p, buf, Then(EscapeString(t[1..]), end));
      StringReadsBack(t[1..], s, p + |e|, buf + [t[0]], k);
      TakeFirst(buf, t);
    }
  }

  /** Bytes that need no escape are scanned as they are. */
  lemma {:induction false} PlainScans(s: Bytes, p: nat, q: nat, buf: Bytes)
    requires p <= q <= |s| && PlainKey(s[p..q])
    ensures ParseChars(s, p, buf) == ParseChars(s, q, buf + s[p..q])
    decreases q - p
  {
    if p == q {
      assert buf + s[p..q] == buf;
    } else {
      assert s[p..q][0] == s[p] && s[p..q][1..] == s[p + 1..q];
      TakeFirst(buf, s[p..q]);
      PlainScans(s, p + 1, q, buf + [s[p]]);
    }
  }

  lemma QuoteCloses(s: Bytes, p: nat, buf: Bytes)
    requires p < |s| && s[p] == QUOTE
    ensures ParseChars(s, p, buf) == Scanned(PARSE_OK, true, buf, p + 1)
  {
  }

  // ----- numbers and literals -----

  lemma DigitsReadBack(n: nat, s: Bytes, p: nat)
    requires p + |Digits(n)| < |s| && s[p..p + |Digits(n)|] == Digits(n) && !IsDigit(s[p + |Digits(n)|])
    ensures DigitsEnd(s, p) == p + |Digits(n)| && Numeral(s[p..DigitsEnd(s, p)]) == n
    ensures n == 0 ==> |Digits(n)| == 1
    ensures IsDigit(s[p]) && (s[p] == ZERO <==> n == 0)
  {
    var d := Digits(n);
    NumeralOfDigits(n);
    forall i | p <= i < p + |d|
      ensures IsDigit(s[i])
    {
      assert s[i] == s[p..p + |d|][i - p];
    }
    assert s[p] == s[p..p + |d|][0];
    DigitsEndAt(s, p, p + |d|);
  }

  lemma IntegerReadsBack(n: int, s: Bytes, p: nat)
    requires p + |Decimal(n)| < |s| && s[p..p + |Decimal(n)|] == Decimal(n) && s[p + |Decimal(n)|] == LOWER_I
    ensures ScanInteger(s, p) == Scan(true, Untyped, p + |Decimal(n)|)
    ensures Strtol(s, p) == n
    ensures Front(s, p) == MINUS || IsDigit(Front(s, p))
  {
    var d := Decimal(n);
    assert s[p] == s[p..p + |d|][0];
    if n < 0 {
      assert s[p + 1..p + |d|] == s[p..p + |d|][1..] == Digits(-n);
      DigitsReadBack(-n, s, p + 1);
    } else {
      DigitsReadBack(n, s, p);
    }
  }

  function Suffix(wide: bool): Bytes { if wide then I64_SUFFIX else I32_SUFFIX }

  /** The suffix ends the number: no fraction or exponent can follow, whatever comes next. */
  lemma NumberReadsBack(n: int, wide: bool, s: Bytes, p: nat, k: Rest)
    requires Reads(s, p, Then(Decimal(n) + Suffix(wide), k))
    requires if wide then INT64_MIN <= n <= INT64_MAX else INT32_MIN <= n <= INT32_MAX
    ensures ParseNumber(s, p) == Parsed(PARSE_OK, if wide then Int64(n) else Int32(n), p + |Decimal(n)| + 3)
    ensures p + |Decimal(n)| + 3 <= |s| && Reads(s, p + |Decimal(n)| + 3, k)
    ensures Front(s, p) == MINUS || IsDigit(Front(s, p))
  {
    hide Then, Reads, Decimal, Strtol;
    var q := p + |Decimal(n)|;
    ThenSplits(Decimal(n), Suffix(wide), k);
    Peel(s, p, Decimal(n), Then(Suffix(wide), k));
    Peel(s, q, Suffix(wide), k);
    assert s[q + 0] == Suffix(wide)[0] && s[q + 1] == Suffix(wide)[1] && s[q + 2] == Suffix(wide)[2];
    assert s[p..q] == Decimal(n);
    IntegerReadsBack(n, s, p);
    assert ScanNumber(s, p) == ScanSuffix(s, q, Untyped);
  }

  lemma LiteralReadsBack(lit: Bytes, v: Value, s: Bytes, p: nat, k: Rest)
    requires Reads(s, p, Then(lit, k)) && lit != []
    ensures p + |lit| <= |s| && Reads(s, p + |lit|, k)
    ensures ParseLiteral(s, p, lit, v) == Parsed(PARSE_OK, v, p + |lit|) && s[p] == lit[0]
  {
    Peel(s, p, lit, k);
    MatchLengthIs(s, p, lit, |lit|);
    assert s[p + 0] == lit[0];
  }

  // ----- values -----

  /** The values that survive the trip. */
  predicate Readable(v: Value) { WellFormed(v) && DoubleFree(v) && PlainKeys(v) }

  predicate ReadableMembers(ms: seq<Member>) {
    forall i :: 0 <= i < |ms| ==> PlainKey(ms[i].key) && Readable(ms[i].value)
  }

  lemma ReadableTail(ms: seq<Member>)
    requires ms != [] && ReadableMembers(ms)
    ensures PlainKey(ms[0].key) && Readable(ms[0].value) && ReadableMembers(ms[1..])
  {
  }

  predicate ReadableItems(items: seq<Value>) {
    forall i :: 0 <= i < |items| ==> Readable(items[i])
  }

  lemma ReadableRest(items: seq<Value>)
    requires items != [] && ReadableItems(items)
    ensures Readable(items[0]) && ReadableItems(items[1..])
  {
  }

  /** No value starts with whitespace, nor like the end of an array. */
  lemma CoreStart(v: Value, l: Layout, depth: nat, s: Bytes, p: nat, k: Rest)
    requires Readable(v) && Reads(s, p, CoreK(v, l, depth, k))
    ensures p < |s| && !IsWs(s[p]) && s[p] != RBRACKET
  {
    hide Reads, Then, ItemsK, MembersK, Pad;
    if v.Arr? {
      var close := Then(Pad(l, depth), Then([RBRACKET], k));
      PeelOne(s, p, LBRACKET, Then(Pad(l, depth + 1), ItemsK(v.items, true, l, depth + 1, close)));
    } else if v.Obj? {
      var close := Then(Pad(l, depth), Then([RBRACE], k));
      PeelOne(s, p, LBRACE, Then(Pad(l, depth + 1), MembersK(v.members, true, l, depth + 1, close)));
    } else {
      var core := Core(v, l, depth);
      assert core != [] && (v.Int32? || v.Int64? ==> core[0] == MINUS || IsDigit(core[0]));
      Peel(s, p, core, k);
      assert s[p + 0] == core[0];
    }
  }

  /** A parse that succeeded with v and left the cursor where s reads k. */
  ghost predicate ReadsAs(r: Parsed, v: Value, s: Bytes, k: Rest) {
    r.err == PARSE_OK && r.value == v && Reads(s, r.pos, k)
  }

  lemma ReadsAsAt(v: Value, s: Bytes, p: nat, k: Rest)
    requires Reads(s, p, k)
    ensures ReadsAs(Parsed(PARSE_OK, v, p), v, s, k)
  {
  }

  lemma ValueEnd(r: Parsed, v: Value, s: Bytes, k: Rest) returns (q: nat)
    requires ReadsAs(r, v, s, k)
    ensures r == Parsed(PARSE_OK, v, q) && q <= |s| && Reads(s, q, k)
  {
    q := r.pos;
  }

  lemma ScalarReadsBack(v: Value, l: Layout, depth: nat, s: Bytes, p: nat, k: Rest)
    requires IsScalar(v) && WellFormed(v) && DoubleFree(v)
    requires Reads(s, p, CoreK(v, l, depth, k))
    ensures ReadsAs(ParseValue(s, p), v, s, k)
  {
    hide Reads, Then, ParseLiteral, ParseNumber, ParseChars, EscapeString, Decimal;
    match v
    case Null => LiteralReadsBack(NULL_LITERAL, v, s, p, k);
    case Bool(b) => LiteralReadsBack(if b then TRUE_LITERAL else FALSE_LITERAL, v, s, p, k);
    case Int32(i) => NumberReadsBack(i, false, s, p, k);
    case Int64(i) => NumberReadsBack(i, true, s, p, k);
    case Str(t) =>
      var e := EscapeString(t);
      ThenSplits([QUOTE] + e, [QUOTE], k);
      ThenSplits([QUOTE], e, Then([QUOTE], k));
      PeelOne(s, p, QUOTE, Then(e, Then([QUOTE], k)));
      StringReadsBack(t, s, p + 1, [], k);
      assert [] + t == t;
  }

  /** The reader returns exactly the value and stops right after its text, whatever follows. */
  lemma {:induction false} ValueReadsBack(v: Value, l: Layout, depth: nat, s: Bytes, p: nat, k: Rest)
    requires Readable(v) && WsLayout(l)
    requires Reads(s, p, CoreK(v, l, depth, k))
    ensures ReadsAs(ParseValue(s, p), v, s, k)
    decreases v, 1
  {
    match v
    case Arr(items) => ArrayReadsBack(items, l, depth, s, p, k);
    case Obj(ms) => ObjectReadsBack(ms, l, depth, s, p, k);
    case _ => ScalarReadsBack(v, l, depth, s, p, k);
  }

  lemma ArrayStart(s: Bytes, p: nat)
    requires p < |s| && s[p] == LBRACKET
    ensures var q := SkipWs(s, p + 1);
            ParseValue(s, p) ==
            if Front(s, q) == RBRACKET then Parsed(PARSE_OK, Arr([]), q + 1) else ArrayLoop(s, q, [])
  {
  }

  lemma ObjectStart(s: Bytes, p: nat)
    requires p < |s| && s[p] == LBRACE
    ensures var q := SkipWs(s, p + 1);
            ParseValue(s, p) ==
            if Front(s, q) == RBRACE then Parsed(PARSE_OK, Obj([]), q + 1) else ObjectLoop(s, q, [])
  {
  }

  /** Whitespace and the closing bracket, at the end of an array or object. */
  lemma ListCloses(s: Bytes, t: nat, close: Bytes, bracket: Byte, k: Rest)
    requires Reads(s, t, Then(close, Then([bracket], k))) && AllWs(close) && !IsWs(bracket)
    ensures var u := SkipWs(s, t); u < |s| && s[u] == bracket && Reads(s, u + 1, k)
  {
    hide Reads, Then, SkipWs, AllWs;
    SkipOver(s, t, close, Then([bracket], k));
    PeelOne(s, t + |close|, bracket, k);
    SkipNone(s, t + |close|);
  }

  /** The reader opens an array and comes to its items, or to its end when there is none. */
  lemma ArrayOpens(items: seq<Value>, l: Layout, depth: nat, s: Bytes, p: nat, k: Rest) returns (q: nat)
    requires WsLayout(l) && Reads(s, p, CoreK(Arr(items), l, depth, k))
    ensures q <= |s| && Reads(s, q, ItemsK(items, true, l, depth + 1, Then(Pad(l, depth), Then([RBRACKET], k))))
    ensures var t := SkipWs(s, q);
            ParseValue(s, p) ==
            if Front(s, t) == RBRACKET then Parsed(PARSE_OK, Arr([]), t + 1) else ArrayLoop(s, t, [])
  {
    hide Reads, Then, Pad, ItemsK, ParseValue, ArrayLoop, SkipWs, AllWs, WsLayout;
    var a, body := Pad(l, depth + 1), ItemsK(items, true, l, depth + 1, Then(Pad(l, depth), Then([RBRACKET], k)));
    PadIsWs(l, depth + 1);
    PeelOne(s, p, LBRACKET, Then(a, body));
    ArrayStart(s, p);
    SkipOver(s, p + 1, a, body);
    q := p + 1 + |a|;
  }

  lemma {:induction false} ArrayReadsBack(items: seq<Value>, l: Layout, depth: nat, s: Bytes, p: nat, k: Rest)
    requires ReadableItems(items)
    requires WsLayout(l)
    requires Reads(s, p, CoreK(Arr(items), l, depth, k))
    ensures ReadsAs(ParseValue(s, p), Arr(items), s, k)
    decreases items, 3
  {
    hide Reads, Then, Pad, CoreK, TextK, ParseValue, ArrayLoop, SkipWs, ReadableItems, ReadsAs, AllWs, WsLayout;
    var q := ArrayOpens(items, l, depth, s, p, k);
    PadIsWs(l, depth);
    if items == [] {
      ListCloses(s, q, Pad(l, depth), RBRACKET, k);
      ReadsAsAt(Arr([]), s, SkipWs(s, q) + 1, k);
    } else {
      ItemsReadBack(items, l, depth + 1, s, q, [], Pad(l, depth), k);
      SkipNone(s, q);
      assert [] + items == items;
    }
  }

  /** One iteration of the loop of parseArray at an item that reads as v up to q. */
  lemma ArrayIteration(s: Bytes, p: nat, acc: seq<Value>, v: Value, q: nat)
    requires p <= |s| && ParseValue(s, p) == Parsed(PARSE_OK, v, q)
    ensures var t := SkipWs(s, q);
            && (Front(s, t) == COMMA ==> ArrayLoop(s, p, acc) == ArrayLoop(s, SkipWs(s, t + 1), acc + [v]))
            && (Front(s, t) == RBRACKET ==> ArrayLoop(s, p, acc) == Parsed(PARSE_OK, Arr(acc + [v]), t + 1))
  {
    hide ParseValue, SkipWs;
  }

  /** The first item is read and added; the loop is then at the text of the others. */
  lemma {:induction false} ItemReadsBack(items: seq<Value>, l: Layout, depth: nat, s: Bytes, p: nat, acc: seq<Value>,
      k: Rest)
    returns (t: nat)
    requires items != [] && Readable(items[0]) && WsLayout(l)
    requires Reads(s, p, ItemsK(items, true, l, depth, k))
    ensures p < |s| && !IsWs(s[p]) && s[p] != RBRACKET
    ensures t <= |s| && Reads(s, t, ItemsK(items[1..], false, l, depth, k))
    ensures var u, more := SkipWs(s, t), acc + [items[0]];
            && (Front(s, u) == COMMA ==> ArrayLoop(s, p, acc) == ArrayLoop(s, SkipWs(s, u + 1), more))
            && (Front(s, u) == RBRACKET ==> ArrayLoop(s, p, acc) == Parsed(PARSE_OK, Arr(more), u + 1))
    decreases items, 1
  {
    hide Reads, Then, CoreK, Tail, ParseValue, ArrayLoop, SkipWs, Readable, AllWs, WsLayout, ReadsAs;
    var tail, more := Tail(items[0], l, depth), ItemsK(items[1..], false, l, depth, k);
    TailIsWs(items[0], l, depth);
    CoreStart(items[0], l, depth, s, p, Then(tail, more));
    ValueReadsBack(items[0], l, depth, s, p, Then(tail, more));
    var q := ValueEnd(ParseValue(s, p), items[0], s, Then(tail, more));
    ArrayIteration(s, p, acc, items[0], q);
    SkipOver(s, q, tail, more);
    t := q + |tail|;
  }

  lemma {:induction false} ItemsReadBack(items: seq<Value>, l: Layout, depth: nat, s: Bytes, p: nat, acc: seq<Value>,
                                         close: Bytes, k: Rest)
    requires items != [] && ReadableItems(items)
    requires WsLayout(l) && AllWs(close)
    requires Reads(s, p, ItemsK(items, true, l, depth, Then(close, Then([RBRACKET], k))))
    ensures p < |s| && !IsWs(s[p]) && s[p] != RBRACKET
    ensures ReadsAs(ArrayLoop(s, p, acc), Arr(acc + items), s, k)
    decreases items, 2
  {
    hide Reads, Then, TextK, ArrayLoop, SkipWs, Readable, ReadableItems, AllWs, WsLayout, ReadsAs;
    var end := Then(close, Then([RBRACKET], k));
    ReadableRest(items);
    TakeFirst(acc, items);
    var t := ItemReadsBack(items, l, depth, s, p, acc, end);
    if items[1..] == [] {
      ListCloses(s, t, close, RBRACKET, k);
      ReadsAsAt(Arr(acc + items), s, SkipWs(s, t) + 1, k);
    } else {
      PeelOne(s, t, COMMA, ItemsK(items[1..], true, l, depth, end));
      SkipNone(s, t);
      ItemsReadBack(items[1..], l, depth, s, t + 1, acc + [items[0]], close, k);
      SkipNone(s, t + 1);
    }
  }

  lemma TailIsWs(v: Value, l: Layout, depth: nat)
    requires WsLayout(l)
    ensures AllWs(Tail(v, l, depth))
  {
    PadIsWs(l, depth);
  }

  /** Past the brace and the whitespace after it. */
  lemma ObjectOpens(ms: seq<Member>, l: Layout, depth: nat, s: Bytes, p: nat, k: Rest) returns (q: nat)
    requires WsLayout(l) && Reads(s, p, CoreK(Obj(ms), l, depth, k))
    ensures q <= |s| && Reads(s, q, MembersK(ms, true, l, depth + 1, Then(Pad(l, depth), Then([RBRACE], k))))
    ensures var t := SkipWs(s, q);
            ParseValue(s, p) ==
            if Front(s, t) == RBRACE then Parsed(PARSE_OK, Obj([]), t + 1) else ObjectLoop(s, t, [])
  {
    hide Reads, Then, Pad, MembersK, ParseValue, ObjectLoop, SkipWs, AllWs, WsLayout;
    var a, body := Pad(l, depth + 1), MembersK(ms, true, l, depth + 1, Then(Pad(l, depth), Then([RBRACE], k)));
    PadIsWs(l, depth + 1);
    PeelOne(s, p, LBRACE, Then(a, body));
    ObjectStart(s, p);
    SkipOver(s, p + 1, a, body);
    q := p + 1 + |a|;
  }

  lemma {:induction false} ObjectReadsBack(ms: seq<Member>, l: Layout, depth: nat, s: Bytes, p: nat, k: Rest)
    requires Ascending(ms) && ReadableMembers(ms)
    requires WsLayout(l)
    requires Reads(s, p, CoreK(Obj(ms), l, depth, k))
    ensures ReadsAs(ParseValue(s, p), Obj(ms), s, k)
    decreases ms, 3
  {
    hide Reads, Then, Pad, CoreK, FirstMemberK, ParseValue, ObjectLoop, SkipWs, ReadableMembers, Ascending, AllWs,
      WsLayout, ReadsAs;
    var a, b, end := Pad(l, depth + 1), Pad(l, depth), Then([RBRACE], k);
    PadIsWs(l, depth + 1);
    PadIsWs(l, depth);
    var q := ObjectOpens(ms, l, depth, s, p, k);
    if ms == [] {
      SkipOver(s, q, b, end);
      PeelOne(s, q + |b|, RBRACE, k);
      SkipNone(s, q + |b|);
      ReadsAsAt(Obj([]), s, q + |b| + 1, k);
    } else {
      MembersUnfold(ms, true, l, depth + 1, Then(b, end));
      SkipOver(s, q, a, FirstMemberK(ms, l, depth + 1, Then(b, end)));
      assert [] + ms == ms;
      MembersReadBack(ms, l, depth + 1, s, q + |a|, [], b, k);
      SkipNone(s, q + |a|);
    }
  }

  /** MembersK without the whitespace and the comma before the first member. */
  function FirstMemberK(ms: seq<Member>, l: Layout, depth: nat, k: Rest): Rest
    requires ms != []
  {
    KeyK(ms[0].key, TextK(ms[0].value, l, depth, MembersK(ms[1..], false, l, depth, k)))
  }

  lemma MembersUnfold(ms: seq<Member>, first: bool, l: Layout, depth: nat, k: Rest)
    requires ms != []
    ensures MembersK(ms, first, l, depth, k) == Then(Pad(l, depth), CommaK(first, FirstMemberK(ms, l, depth, k)))
  {
  }

  lemma FirstMemberUnfold(ms: seq<Member>, l: Layout, depth: nat, k: Rest)
    requires ms != []
    ensures var v, more := ms[0].value, MembersK(ms[1..], false, l, depth, k);
            FirstMemberK(ms, l, depth, k) == KeyK(ms[0].key, CoreK(v, l, depth, Then(Tail(v, l, depth), more)))
    ensures MembersK([], false, l, depth, k) == k
  {
  }

  lemma KeyTextReadsBack(key: Bytes, s: Bytes, p: nat, k: Rest)
    requires PlainKey(key) && Reads(s, p, Then(key, Then([QUOTE], k)))
    ensures p + |key| + 1 <= |s| && Reads(s, p + |key| + 1, k)
    ensures ParseChars(s, p, []) == Scanned(PARSE_OK, true, key, p + |key| + 1)
  {
    hide ParseChars, Reads, Then;
    var q := p + |key|;
    Peel(s, p, key, Then([QUOTE], k));
    PeelOne(s, q, QUOTE, k);
    assert s[p..q] == key;
    PlainScans(s, p, q, []);
    assert [] + key == key;
    QuoteCloses(s, q, key);
  }

  lemma KeyScans(s: Bytes, p: nat, key: Bytes, q: nat)
    requires p < |s| && s[p] == QUOTE && ParseChars(s, p + 1, []) == Scanned(PARSE_OK, true, key, q)
    requires q < |s| && s[q] == COLON
    ensures ParseKey(s, p) == Scanned(PARSE_OK, true, key, SkipWs(s, q + 1))
  {
    hide ParseChars;
  }

  /** The key, the colon and the cursor at the value. */
  lemma MemberKeyReadsBack(key: Bytes, s: Bytes, p: nat, k: Rest)
    requires Reads(s, p, KeyK(key, k)) && PlainKey(key)
    ensures p + |key| + 3 <= |s| && Reads(s, p + |key| + 3, k) && s[p] == QUOTE
    ensures ParseKey(s, p) == Scanned(PARSE_OK, true, key, SkipWs(s, p + |key| + 3))
  {
    hide Reads, Then, ParseChars, ParseKey, SkipWs, PlainKey;
    var q := p + 1 + |key|;
    PeelOne(s, p, QUOTE, Then(key, Then([QUOTE], Then([COLON], k))));
    KeyTextReadsBack(key, s, p + 1, Then([COLON], k));
    PeelOne(s, q + 1, COLON, k);
    KeyScans(s, p, key, q + 1);
  }

  /** One iteration of the loop of parseObject at a member that reads as m up to q. */
  lemma ObjectIteration(s: Bytes, p: nat, acc: seq<Member>, m: Member, q: nat)
    requires p <= |s| && ParseKey(s, p).err == PARSE_OK && ParseKey(s, p).text == m.key
    requires ParseValue(s, ParseKey(s, p).pos) == Parsed(PARSE_OK, m.value, q)
    requires !HasKey(acc, m.key)
    ensures var t, more := SkipWs(s, q), Insert(acc, m);
            && (Front(s, t) == COMMA ==> ObjectLoop(s, p, acc) == ObjectLoop(s, SkipWs(s, t + 1), more))
            && (Front(s, t) == RBRACE ==> ObjectLoop(s, p, acc) == Parsed(PARSE_OK, Obj(more), t + 1))
  {
    hide ParseKey, ParseValue, SkipWs, HasKey, Insert;
  }

  /** The first member is read and added; the loop is then at the text of the others. */
  lemma {:induction false} MemberReadsBack(ms: seq<Member>, l: Layout, depth: nat, s: Bytes, p: nat, acc: seq<Member>,
      k: Rest)
    returns (t: nat)
    requires ms != [] && Ascending(acc + ms) && PlainKey(ms[0].key) && Readable(ms[0].value) && WsLayout(l)
    requires Reads(s, p, FirstMemberK(ms, l, depth, k))
    ensures p < |s| && s[p] == QUOTE
    ensures t <= |s| && Reads(s, t, MembersK(ms[1..], false, l, depth, k))
    ensures var u, more := SkipWs(s, t), acc + [ms[0]];
            && (Front(s, u) == COMMA ==> ObjectLoop(s, p, acc) == ObjectLoop(s, SkipWs(s, u + 1), more))
            && (Front(s, u) == RBRACE ==> ObjectLoop(s, p, acc) == Parsed(PARSE_OK, Obj(more), u + 1))
    decreases ms, 1
  {
    hide Reads, Then, Pad, CoreK, Tail, KeyK, ParseKey, ParseValue, HasKey, Insert, Ascending, PlainKey, ObjectLoop,
      SkipWs, Readable, AllWs, WsLayout, MembersK, FirstMemberK, ReadsAs;
    var m := ms[0];
    var tail, more := Tail(m.value, l, depth), MembersK(ms[1..], false, l, depth, k);
    TailIsWs(m.value, l, depth);
    FirstMemberUnfold(ms, l, depth, k);
    MemberKeyReadsBack(m.key, s, p, CoreK(m.value, l, depth, Then(tail, more)));
    var v := p + |m.key| + 3;
    CoreStart(m.value, l, depth, s, v, Then(tail, more));
    ValueReadsBack(m.value, l, depth, s, v, Then(tail, more));
    SkipNone(s, v);
    NewLastKey(acc, ms);
    var q := ValueEnd(ParseValue(s, v), m.value, s, Then(tail, more));
    ObjectIteration(s, p, acc, m, q);
    SkipOver(s, q, tail, more);
    t := q + |tail|;
  }

  lemma NoMembers(l: Layout, depth: nat, k: Rest)
    ensures MembersK([], false, l, depth, k) == k
  {
  }

  /** Between two members: whitespace, a comma, and the next member. */
  lemma NextMember(ms: seq<Member>, l: Layout, depth: nat, s: Bytes, t: nat, k: Rest) returns (u: nat)
    requires ms != [] && WsLayout(l) && Reads(s, t, MembersK(ms, false, l, depth, k))
    ensures u < |s| && s[u] == COMMA && SkipWs(s, t) == u && Reads(s, u + 1, FirstMemberK(ms, l, depth, k))
  {
    hide Reads, Then, Pad, SkipWs, AllWs, WsLayout, FirstMemberK, MembersK;
    var next := FirstMemberK(ms, l, depth, k);
    PadIsWs(l, depth);
    MembersUnfold(ms, false, l, depth, k);
    SkipOver(s, t, Pad(l, depth), Then([COMMA], next));
    u := t + |Pad(l, depth)|;
    PeelOne(s, u, COMMA, next);
    SkipNone(s, u);
  }

  lemma {:induction false} MembersReadBack(ms: seq<Member>, l: Layout, depth: nat, s: Bytes, p: nat, acc: seq<Member>,
                                           close: Bytes, k: Rest)
    requires ms != [] && Ascending(acc + ms)
    requires ReadableMembers(ms)
    requires WsLayout(l) && AllWs(close)
    requires Reads(s, p, FirstMemberK(ms, l, depth, Then(close, Then([RBRACE], k))))
    ensures p < |s| && s[p] == QUOTE
    ensures ReadsAs(ObjectLoop(s, p, acc), Obj(acc + ms), s, k)
    decreases ms, 2
  {
    hide Reads, Then, Pad, Ascending, PlainKey, ObjectLoop, SkipWs, Readable, ReadableMembers, AllWs, WsLayout,
      FirstMemberK, MembersK, ReadsAs;
    NoMembers(l, depth, Then(close, Then([RBRACE], k)));
    var end := Then(close, Then([RBRACE], k));
    ReadableTail(ms);
    TakeFirst(acc, ms);
    var t := MemberReadsBack(ms, l, depth, s, p, acc, end);
    if ms[1..] == [] {
      ListCloses(s, t, close, RBRACE, k);
      ReadsAsAt(Obj(acc + ms), s, SkipWs(s, t) + 1, k);
    } else {
      var u := NextMember(ms[1..], l, depth, s, t, end);
      MembersReadBack(ms[1..], l, depth, s, u + 1, acc + [ms[0]], close, k);
      SkipNone(s, u + 1);
    }
  }

  /** Members arrive in ascending order, so each goes to the end of the map. */
  lemma NewLastKey(acc: seq<Member>, ms: seq<Member>)
    requires ms != [] && Ascending(acc + ms)
    ensures !HasKey(acc, ms[0].key) && Insert(acc, ms[0]) == acc + [ms[0]]
  {
    forall i | 0 <= i < |acc|
      ensures Less(acc[i].key, ms[0].key) && acc[i].key != ms[0].key
    {
      assert (acc + ms)[i] == acc[i] && (acc + ms)[|acc|] == ms[0];
      LessIrreflexive(ms[0].key);
    }
    InsertLast(acc, ms[0]);
  }

  /** Reader::parse of a printed value, with any whitespace around it. */
  lemma DocumentReadsBack(v: Value, l: Layout, before: Bytes, after: Bytes, held: Value)
    requires Readable(v) && WsLayout(l) && AllWs(before) && AllWs(after)
    ensures var s := before + Core(v, l, 0) + after; Parse(s, held) == Parsed(PARSE_OK, v, |s|)
  {
    hide ParseValue, Core;
    var s, end := before + Core(v, l, 0) + after, Rest(after);
    var text := CoreK(v, l, 0, end);
    CoreContinued(v, l, 0, end);
    assert s[0..] == before + (Core(v, l, 0) + after);
    SkipOver(s, 0, before, text);
    CoreStart(v, l, 0, s, |before|, end);
    ValueReadsBack(v, l, 0, s, |before|, end);
    SkipNone(s, |before|);
    var q := ValueEnd(ParseValue(s, |before|), v, s, end);
    assert after + [] == after;
    SkipOver(s, q, after, Rest([]));
    SkipNone(s, |s|);
  }
}
