/** StyleWriter only adds whitespace between tokens: a lexer cuts the indented text of a value into the
    same tokens as its compact text (JsonServer/StyleWriter.h, JsonServer/FastWriter.h). */
module Tokens {
  import opened Octets
  import opened JsonValue
  import opened ReaderSpec
  import opened Printer

  // ----- the lexer -----

  predicate IsPunctuation(c: Byte) {
    c == LBRACKET || c == RBRACKET || c == LBRACE || c == RBRACE || c == COMMA || c == COLON
  }

  datatype Mode = Outside | Inside | Escaped

  /** The tokens found so far, the bytes of the one being read, and whether these are in a string. */
  datatype Lexer = Lexer(done: seq<Bytes>, current: Bytes, mode: Mode)

  /** Ends the token being read, if any. */
  function Cut(x: Lexer): Lexer {
    if x.current == [] then x else Lexer(x.done + [x.current], [], Outside)
  }

  /** A string is a token, each bracket, comma and colon is one, and so is every maximal run of other
      bytes that are not whitespace. */
  function Step(x: Lexer, c: Byte): Lexer {
    match x.mode
    case Outside =>
      if IsWs(c) then Cut(x)
      else if c == QUOTE then Lexer(Cut(x).done, [QUOTE], Inside)
      else if IsPunctuation(c) then Lexer(Cut(x).done + [[c]], [], Outside)
      else x.(current := x.current + [c])
    case Inside =>
      if c == QUOTE then Lexer(x.done + [x.current + [c]], [], Outside)
      else Lexer(x.done, x.current + [c], if c == BACKSLASH then Escaped else Inside)
    case Escaped => Lexer(x.done, x.current + [c], Inside)
  }

  function Lex(t: Bytes, x: Lexer): Lexer
    decreases |t|
  {
    if t == [] then x else Lex(t[1..], Step(x, t[0]))
  }

  function Tokens(t: Bytes): seq<Bytes> { Cut(Lex(t, Lexer([], [], Outside))).done }

  // ----- the tokens of a value -----

  function TokensOf(v: Value): seq<Bytes>
    decreases v
  {
    match v
    case Arr(items) => [[LBRACKET]] + ItemTokens(items, true) + [[RBRACKET]]
    case Obj(ms) => [[LBRACE]] + MemberTokens(ms, true) + [[RBRACE]]
    case _ => [Core(v, Compact, 0)]
  }

  function CommaToken(first: bool): seq<Bytes> { if first then [] else [[COMMA]] }

  function ItemTokens(items: seq<Value>, first: bool): seq<Bytes>
    decreases items
  {
    if items == [] then [] else CommaToken(first) + TokensOf(items[0]) + ItemTokens(items[1..], false)
  }

  function MemberTokens(ms: seq<Member>, first: bool): seq<Bytes>
    decreases ms
  {
    if ms == [] then []
    else CommaToken(first) + [Quoted(ms[0].key), [COLON]] + TokensOf(ms[0].value) + MemberTokens(ms[1..], false)
  }

  // ----- pieces of text -----

  function Ready(done: seq<Bytes>): Lexer { Lexer(done, [], Outside) }

  /** The lexer has found these tokens, the last of which may still have to be cut. */
  predicate Found(x: Lexer, done: seq<Bytes>) { x.mode.Outside? && Cut(x) == Ready(done) }

  lemma {:induction false} LexAppend(a: Bytes, b: Bytes, x: Lexer)
    ensures Lex(a + b, x) == Lex(b, Lex(a, x))
    decreases |a|
  {
    hide Step;
    if a == [] {
      assert a + b == b;
    } else {
      assert (a + b)[1..] == a[1..] + b;
      LexAppend(a[1..], b, Step(x, a[0]));
    }
  }

  lemma LexOne(c: Byte, x: Lexer)
    ensures Lex([c], x) == Step(x, c)
  {
    hide Step;
    assert [c][1..] == [];
  }

  lemma PunctuationLexes(c: Byte, x: Lexer, done: seq<Bytes>)
    requires IsPunctuation(c) && Found(x, done)
    ensures Lex([c], x) == Ready(done + [[c]])
  {
    LexOne(c, x);
  }

  /** Whitespace adds no token. */
  lemma {:induction false} WsLexes(w: Bytes, x: Lexer, done: seq<Bytes>)
    requires AllWs(w) && Found(x, done)
    ensures Found(Lex(w, x), done) && (x == Ready(done) ==> Lex(w, x) == Ready(done))
    decreases |w|
  {
    if w != [] { WsLexes(w[1..], Step(x, w[0]), done); }
  }

  predicate Solid(t: Bytes) {
    forall i :: 0 <= i < |t| ==> !IsWs(t[i]) && t[i] != QUOTE && !IsPunctuation(t[i])
  }

  lemma {:induction false} SolidLexes(t: Bytes, x: Lexer)
    requires Solid(t) && x.mode.Outside?
    ensures Lex(t, x) == x.(current := x.current + t)
    decreases |t|
  {
    if t == [] {
      assert x.current + [] == x.current;
    } else {
      SolidLexes(t[1..], Step(x, t[0]));
      assert x.current + [t[0]] + t[1..] == x.current + t;
    }
  }

  /** Inside a string the text stays inside. */
  predicate StaysInside(t: Bytes, x: Lexer) { Lex(t, x) == x.(current := x.current + t) }

  lemma EscapeByteStays(c: Byte, x: Lexer)
    requires x.mode.Inside?
    ensures StaysInside(EscapeByte(c), x)
  {
    var e := EscapeByte(c);
    if |e| == 1 {
      LexOne(e[0], x);
    } else {
      var y := Lexer(x.done, x.current + [BACKSLASH], Escaped);
      assert Step(x, e[0]) == y;
      var z := Lexer(x.done, x.current + [BACKSLASH] + [e[1]], Inside);
      assert e[1..][0] == e[1] && Step(y, e[1]) == z;
      var rest := e[1..][1..];
      assert Lex(e, x) == Lex(rest, z);
      PlainStays(rest, z);
      assert x.current + [BACKSLASH] + [e[1]] + rest == x.current + e;
    }
  }

  lemma {:induction false} PlainStays(t: Bytes, x: Lexer)
    requires x.mode.Inside? && forall i :: 0 <= i < |t| ==> t[i] != QUOTE && t[i] != BACKSLASH
    ensures StaysInside(t, x)
    decreases |t|
  {
    if t == [] {
      assert x.current + [] == x.current;
    } else {
      PlainStays(t[1..], Step(x, t[0]));
      assert x.current + [t[0]] + t[1..] == x.current + t;
    }
  }

  lemma {:induction false} EscapedStays(t: Bytes, x: Lexer)
    requires x.mode.Inside?
    ensures StaysInside(EscapeString(t), x)
    decreases |t|
  {
    hide Step, EscapeByte;
    if t == [] {
      assert x.current + [] == x.current;
    } else {
      var e, rest := EscapeByte(t[0]), EscapeString(t[1..]);
      EscapeByteStays(t[0], x);
      EscapedStays(t[1..], x.(current := x.current + e));
      LexAppend(e, rest, x);
      assert x.current + e + rest == x.current + (e + rest);
    }
  }

  /** A quoted text that stays inside is one token. */
  lemma QuotedLexes(t: Bytes, x: Lexer, done: seq<Bytes>)
    requires Found(x, done) && StaysInside(t, Lexer(done, [QUOTE], Inside))
    ensures Lex(Quoted(t), x) == Ready(done + [Quoted(t)])
  {
    LexAppend([QUOTE] + t, [QUOTE], x);
    LexAppend([QUOTE], t, x);
    LexOne(QUOTE, x);
    LexOne(QUOTE, Lexer(done, [QUOTE] + t, Inside));
  }

  lemma NumberIsSolid(n: int, suffix: Bytes)
    requires suffix == I32_SUFFIX || suffix == I64_SUFFIX
    ensures Solid(Decimal(n) + suffix) && Decimal(n) + suffix != []
  {
    var t := Decimal(n) + suffix;
    forall i | 0 <= i < |t|
      ensures !IsWs(t[i]) && t[i] != QUOTE && !IsPunctuation(t[i])
    {
      if i < |Decimal(n)| { assert t[i] == Decimal(n)[i]; }
    }
  }

  lemma SolidIsToken(t: Bytes, done: seq<Bytes>)
    requires Solid(t) && t != []
    ensures Found(Lex(t, Ready(done)), done + [t])
  {
    SolidLexes(t, Ready(done));
    assert [] + t == t;
  }

  // ----- values -----

  lemma ScalarLexes(v: Value, l: Layout, depth: nat, done: seq<Bytes>)
    requires IsScalar(v) && DoubleFree(v)
    ensures Found(Lex(Core(v, l, depth), Ready(done)), done + TokensOf(v))
  {
    hide Lex, Decimal, EscapeString, Step, Quoted, Solid;
    match v
    case Null => LiteralIsToken(NULL_LITERAL, done);
    case Bool(b) => LiteralIsToken(if b then TRUE_LITERAL else FALSE_LITERAL, done);
    case Int32(i) =>
      NumberIsSolid(i, I32_SUFFIX);
      SolidIsToken(Decimal(i) + I32_SUFFIX, done);
    case Int64(i) =>
      NumberIsSolid(i, I64_SUFFIX);
      SolidIsToken(Decimal(i) + I64_SUFFIX, done);
    case Str(t) =>
      EscapedStays(t, Lexer(done, [QUOTE], Inside));
      QuotedLexes(EscapeString(t), Ready(done), done);
  }

  lemma LiteralIsToken(t: Bytes, done: seq<Bytes>)
    requires t == NULL_LITERAL || t == TRUE_LITERAL || t == FALSE_LITERAL
    ensures Found(Lex(t, Ready(done)), done + [t])
  {
    hide Lex;
    SolidIsToken(t, done);
  }

  /** An opening bracket, whitespace, a body, whitespace, and a closing bracket. */
  lemma BracketsLex(open: Byte, a: Bytes, body: Bytes, b: Bytes, close: Byte, done: seq<Bytes>, tokens: seq<Bytes>)
    requires IsPunctuation(open) && IsPunctuation(close) && AllWs(a) && AllWs(b)
    requires Found(Lex(body, Ready(done + [[open]])), done + [[open]] + tokens)
    ensures Found(Lex([open] + a + body + b + [close], Ready(done)), done + ([[open]] + tokens + [[close]]))
  {
    hide Lex, AllWs, IsPunctuation;
    LexAppend([open] + a + body + b, [close], Ready(done));
    LexAppend([open] + a + body, b, Ready(done));
    LexAppend([open] + a, body, Ready(done));
    LexAppend([open], a, Ready(done));
    PunctuationLexes(open, Ready(done), done);
    WsLexes(a, Ready(done + [[open]]), done + [[open]]);
    var x := Lex(body, Ready(done + [[open]]));
    WsLexes(b, x, done + [[open]] + tokens);
    PunctuationLexes(close, Lex(b, x), done + [[open]] + tokens);
    assert done + [[open]] + tokens + [[close]] == done + ([[open]] + tokens + [[close]]);
  }

  lemma {:induction false} CoreLexes(v: Value, l: Layout, depth: nat, done: seq<Bytes>)
    requires DoubleFree(v) && PlainKeys(v) && WsLayout(l)
    ensures Found(Lex(Core(v, l, depth), Ready(done)), done + TokensOf(v))
    decreases v, 0
  {
    hide Lex, Found, ItemsText, MembersText, ItemTokens, MemberTokens, Pad, WsLayout, PlainKey, AllWs;
    PadIsWs(l, depth);
    PadIsWs(l, depth + 1);
    match v
    case Arr(items) =>
      var start := done + [[LBRACKET]];
      ReadyFound(start);
      ItemsLex(items, true, l, depth + 1, Ready(start), start);
      BracketsLex(LBRACKET, Pad(l, depth + 1), ItemsText(items, true, l, depth + 1), Pad(l, depth), RBRACKET, done,
                  ItemTokens(items, true));
    case Obj(ms) =>
      var start := done + [[LBRACE]];
      ReadyFound(start);
      MembersLex(ms, true, l, depth + 1, Ready(start), start);
      BracketsLex(LBRACE, Pad(l, depth + 1), MembersText(ms, true, l, depth + 1), Pad(l, depth), RBRACE, done,
                  MemberTokens(ms, true));
    case _ => ScalarLexes(v, l, depth, done);
  }

  lemma ReadyFound(done: seq<Bytes>)
    ensures Found(Ready(done), done)
  {
  }

  lemma {:induction false} TextLexes(v: Value, l: Layout, depth: nat, done: seq<Bytes>)
    requires DoubleFree(v) && PlainKeys(v) && WsLayout(l)
    ensures Found(Lex(Text(v, l, depth), Ready(done)), done + TokensOf(v))
    decreases v, 1
  {
    hide Lex, Found, Core, Pad, WsLayout, AllWs, TokensOf, DoubleFree, PlainKeys;
    CoreLexes(v, l, depth, done);
    PadIsWs(l, depth);
    LexAppend(Core(v, l, depth), Tail(v, l, depth), Ready(done));
    NothingIsWs();
    WsLexes(Tail(v, l, depth), Lex(Core(v, l, depth), Ready(done)), done + TokensOf(v));
  }

  lemma NothingIsWs()
    ensures AllWs([])
  {
  }

  /** The comma before every item or member but the first. */
  lemma CommaLexes(first: bool, x: Lexer, done: seq<Bytes>)
    requires Found(x, done)
    ensures Found(Lex(Comma(first), x), done + CommaToken(first))
    ensures !first || x == Ready(done) ==> Lex(Comma(first), x) == Ready(done + CommaToken(first))
  {
    if first {
      assert done + [] == done;
    } else {
      PunctuationLexes(COMMA, x, done);
    }
  }

  lemma {:induction false} ItemsLex(items: seq<Value>, first: bool, l: Layout, depth: nat, x: Lexer, done: seq<Bytes>)
    requires forall i :: 0 <= i < |items| ==> DoubleFree(items[i]) && PlainKeys(items[i])
    requires WsLayout(l) && Found(x, done) && (first ==> x == Ready(done))
    ensures Found(Lex(ItemsText(items, first, l, depth), x), done + ItemTokens(items, first))
    decreases items, 2
  {
    hide Lex, Found, Text, TokensOf, CommaToken, Comma, WsLayout, DoubleFree, PlainKeys;
    if items == [] {
      LexNothing(x);
      assert done + [] == done;
    } else {
      var comma, text, rest := Comma(first), Text(items[0], l, depth), ItemsText(items[1..], false, l, depth);
      var d := done + CommaToken(first);
      LexAppend(comma + text, rest, x);
      LexAppend(comma, text, x);
      CommaLexes(first, x, done);
      TextLexes(items[0], l, depth, d);
      ItemsLex(items[1..], false, l, depth, Lex(text, Ready(d)), d + TokensOf(items[0]));
      Regroup(done, CommaToken(first), TokensOf(items[0]), ItemTokens(items[1..], false));
    }
  }

  lemma LexNothing(x: Lexer)
    ensures Lex([], x) == x
  {
  }

  lemma Regroup(a: seq<Bytes>, b: seq<Bytes>, c: seq<Bytes>, d: seq<Bytes>)
    ensures a + b + c + d == a + (b + c + d)
  {
  }

  /** A member's key, its colon and its value. */
  lemma {:induction false} MemberLexes(m: Member, l: Layout, depth: nat, x: Lexer, done: seq<Bytes>)
    requires PlainKey(m.key) && DoubleFree(m.value) && PlainKeys(m.value) && WsLayout(l) && Found(x, done)
    ensures Found(Lex(MemberText(m, l, depth), x), done + ([Quoted(m.key), [COLON]] + TokensOf(m.value)))
    decreases m, 2
  {
    hide Lex, Text, TokensOf, WsLayout, DoubleFree, PlainKeys, Quoted;
    var key, text := Quoted(m.key), Text(m.value, l, depth);
    LexAppend(key + [COLON], text, x);
    LexAppend(key, [COLON], x);
    PlainStays(m.key, Lexer(done, [QUOTE], Inside));
    QuotedLexes(m.key, x, done);
    ReadyFound(done + [key]);
    PunctuationLexes(COLON, Ready(done + [key]), done + [key]);
    TextLexes(m.value, l, depth, done + [key] + [[COLON]]);
    assert done + [key] + [[COLON]] + TokensOf(m.value) == done + ([key, [COLON]] + TokensOf(m.value));
  }

  lemma {:induction false} MembersLex(ms: seq<Member>, first: bool, l: Layout, depth: nat, x: Lexer, done: seq<Bytes>)
    requires forall i :: 0 <= i < |ms| ==> PlainKey(ms[i].key) && DoubleFree(ms[i].value) && PlainKeys(ms[i].value)
    requires WsLayout(l) && Found(x, done)
    ensures Found(Lex(MembersText(ms, first, l, depth), x), done + MemberTokens(ms, first))
    decreases ms, 3
  {
    hide Lex, Found, MemberText, TokensOf, CommaToken, Comma, Pad, WsLayout, DoubleFree, PlainKeys, PlainKey,
      Quoted, AllWs;
    if ms == [] {
      LexNothing(x);
      assert done + [] == done;
    } else {
      var pad, comma := Pad(l, depth), Comma(first);
      var text, rest := MemberText(ms[0], l, depth), MembersText(ms[1..], false, l, depth);
      var d, tokens := done + CommaToken(first), [Quoted(ms[0].key), [COLON]] + TokensOf(ms[0].value);
      LexAppend(pad, comma + text + rest, x);
      LexAppend(comma + text, rest, Lex(pad, x));
      LexAppend(comma, text, Lex(pad, x));
      PadIsWs(l, depth);
      WsLexes(pad, x, done);
      CommaLexes(first, Lex(pad, x), done);
      var y := Lex(comma, Lex(pad, x));
      MemberLexes(ms[0], l, depth, y, d);
      MembersLex(ms[1..], false, l, depth, Lex(text, y), d + tokens);
      MembersRegroup(done, CommaToken(first), [Quoted(ms[0].key), [COLON]], TokensOf(ms[0].value),
        MemberTokens(ms[1..], false));
    }
  }

  lemma MembersRegroup(a: seq<Bytes>, b: seq<Bytes>, c: seq<Bytes>, d: seq<Bytes>, e: seq<Bytes>)
    ensures a + b + (c + d) + e == a + (b + c + d + e)
  {
  }

  /** In every layout, the text of a value is its tokens with whitespace between them. */
  lemma TokensOfText(v: Value, l: Layout, depth: nat)
    requires DoubleFree(v) && PlainKeys(v) && WsLayout(l)
    ensures Tokens(Text(v, l, depth)) == TokensOf(v)
  {
    hide Lex, TokensOf, DoubleFree, PlainKeys, WsLayout;
    TextLexes(v, l, depth, []);
    assert [] + TokensOf(v) == TokensOf(v);
  }

  /** The indented text has the tokens of the compact one, in the same order. */
  lemma SameTokens(v: Value, indent: Bytes, depth: nat)
    requires DoubleFree(v) && PlainKeys(v) && AllWs(indent)
    ensures Tokens(Text(v, Indented(indent), depth)) == Tokens(Text(v, Compact, depth))
  {
    hide Tokens, Text, TokensOf;
    TokensOfText(v, Indented(indent), depth);
    TokensOfText(v, Compact, depth);
  }
}
