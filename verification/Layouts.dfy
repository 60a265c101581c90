/** Where the two writers put whitespace (JsonServer/FastWriter.h, JsonServer/StyleWriter.h), told from the
    tokens alone: a scan that knows two neighbouring tokens and the nesting depth lays out the whole text. */
module Layouts {
  import opened Octets
  import opened JsonValue
  import opened Printer
  import opened Continued
  import Tokens

  datatype Kind = Opener | Closer | ItemComma | MemberComma | Colon | Key | Scalar

  datatype Token = Token(kind: Kind, text: Bytes)

  // ----- the tokens, with their kinds -----

  function Marked(v: Value): seq<Token>
    decreases v
  {
    match v
    case Arr(items) => [Token(Opener, [LBRACKET])] + Items(items, true) + [Token(Closer, [RBRACKET])]
    case Obj(ms) => [Token(Opener, [LBRACE])] + Members(ms, true) + [Token(Closer, [RBRACE])]
    case _ => [Token(Scalar, Core(v, Compact, 0))]
  }

  function Items(items: seq<Value>, first: bool): seq<Token>
    decreases items
  {
    if items == [] then []
    else (if first then [] else [Token(ItemComma, [COMMA])]) + Marked(items[0]) + Items(items[1..], false)
  }

  function Members(ms: seq<Member>, first: bool): seq<Token>
    decreases ms
  {
    if ms == [] then []
    else
      (if first then [] else [Token(MemberComma, [COMMA])])
      + [Token(Key, Quoted(ms[0].key)), Token(Colon, [COLON])] + Marked(ms[0].value) + Members(ms[1..], false)
  }

  // ----- the layout -----

  /** The nesting depth behind a token. */
  function Behind(t: Token, depth: nat): nat {
    match t.kind
    case Opener => depth + 1
    case Closer => if depth > 0 then depth - 1 else 0
    case _ => depth
  }

  /** A line ends behind an opening bracket and behind a scalar. */
  function After(t: Token, l: Layout, depth: nat): Bytes {
    if t.kind.Opener? || t.kind.Scalar? then Pad(l, depth) else []
  }

  /** A line starts at a closing bracket, one level less deep, at the first key of an object, and at the
      comma in front of any other key. */
  function Ahead(opening: bool, rest: seq<Token>, l: Layout, depth: nat): Bytes {
    if rest == [] then []
    else
      match rest[0].kind
      case Closer => if depth > 0 then Pad(l, depth - 1) else []
      case MemberComma => Pad(l, depth)
      case Key => if opening then Pad(l, depth) else []
      case _ => []
  }

  function Laid(ts: seq<Token>, l: Layout, depth: nat): Rest
    decreases |ts|, 0
  {
    if ts == [] then Rest([])
    else
      var d := Behind(ts[0], depth);
      Then(ts[0].text, Then(After(ts[0], l, d), Lines(ts[0].kind.Opener?, ts[1..], l, d)))
  }

  /** The tokens from a place in the middle on. */
  function Lines(opening: bool, rest: seq<Token>, l: Layout, depth: nat): Rest
    decreases |rest|, 1
  {
    Then(Ahead(opening, rest, l, depth), Laid(rest, l, depth))
  }

  // ----- the text of a value -----

  lemma OneToken(t: Token, more: seq<Token>, l: Layout, depth: nat)
    ensures var d := Behind(t, depth);
      Laid([t] + more, l, depth) == Then(t.text, Then(After(t, l, d), Lines(t.kind.Opener?, more, l, d)))
  {
    assert ([t] + more)[1..] == more;
  }

  lemma KeyJoins(key: Bytes, k: Rest)
    ensures Then(Quoted(key), Then([COLON], k)) == KeyK(key, k)
  {
    hide Then;
    ThenSplits([QUOTE] + key, [QUOTE], Then([COLON], k));
    ThenSplits([QUOTE], key, Then([QUOTE], Then([COLON], k)));
  }

  predicate NoKey(more: seq<Token>) { more == [] || !more[0].kind.Key? }

  lemma {:induction false} ValueLaid(v: Value, more: seq<Token>, l: Layout, depth: nat)
    requires NoKey(more)
    ensures Laid(Marked(v) + more, l, depth) == TextK(v, l, depth, Lines(false, more, l, depth))
    decreases v, 0
  {
    hide Then, Pad, Laid, Lines, Items, Members;
    match v
    case Arr(items) =>
      ArrayLaid(items, more, l, depth);
    case Obj(ms) =>
      ObjectLaid(ms, more, l, depth);
    case _ =>
      OneToken(Token(Scalar, Core(v, Compact, 0)), more, l, depth);
  }

  const OPEN_ARRAY := Token(Opener, [LBRACKET])
  const CLOSE_ARRAY := Token(Closer, [RBRACKET])
  const OPEN_OBJECT := Token(Opener, [LBRACE])
  const CLOSE_OBJECT := Token(Closer, [RBRACE])

  /** A closing bracket in front of the rest. */
  lemma CloserLaid(t: Token, more: seq<Token>, l: Layout, depth: nat)
    requires t.kind.Closer? && NoKey(more)
    ensures Lines(false, [t] + more, l, depth + 1)
         == Then(Pad(l, depth), Then(t.text, Lines(false, more, l, depth)))
  {
    hide Then, Pad, Laid;
    OneToken(t, more, l, depth + 1);
    ThenNothing(Lines(false, more, l, depth));
  }

  lemma LinesFlag(more: seq<Token>, l: Layout, depth: nat)
    requires NoKey(more)
    ensures Lines(true, more, l, depth) == Lines(false, more, l, depth)
  {
    hide Then, Pad, Laid;
  }

  lemma ContainerTokens(a: Token, body: seq<Token>, b: Token, more: seq<Token>)
    ensures [a] + body + [b] + more == [a] + (body + ([b] + more))
  {
  }

  lemma {:induction false} ArrayLaid(items: seq<Value>, more: seq<Token>, l: Layout, depth: nat)
    requires NoKey(more)
    ensures Laid(Marked(Arr(items)) + more, l, depth) == TextK(Arr(items), l, depth, Lines(false, more, l, depth))
    decreases items, 2
  {
    hide Then, Pad, Laid, Lines, Items;
    var rest := [CLOSE_ARRAY] + more;
    ContainerTokens(OPEN_ARRAY, Items(items, true), CLOSE_ARRAY, more);
    OneToken(OPEN_ARRAY, Items(items, true) + rest, l, depth);
    CloserLaid(CLOSE_ARRAY, more, l, depth);
    ItemsStart(items, rest);
    LinesFlag(Items(items, true) + rest, l, depth + 1);
    ItemsLaid(items, true, rest, l, depth + 1);
    ThenNothing(Lines(false, more, l, depth));
  }

  lemma MarkedStart(v: Value, more: seq<Token>)
    ensures var ts := Marked(v) + more; ts != [] && (ts[0].kind.Opener? || ts[0].kind.Scalar?)
  {
  }

  lemma ItemsStart(items: seq<Value>, rest: seq<Token>)
    requires NoKey(rest)
    ensures NoKey(Items(items, true) + rest) && NoKey(Items(items, false) + rest)
  {
    hide Marked;
    if items == [] {
      assert Items(items, true) + rest == rest == Items(items, false) + rest;
    } else {
      ItemsFirst(items, rest);
      MarkedStart(items[0], Items(items[1..], false) + rest);
    }
  }

  lemma ItemsFirst(items: seq<Value>, rest: seq<Token>)
    requires items != []
    ensures Items(items, true) + rest == Marked(items[0]) + (Items(items[1..], false) + rest)
    ensures Items(items, false) + rest
         == [Token(ItemComma, [COMMA])] + (Marked(items[0]) + (Items(items[1..], false) + rest))
  {
    hide Marked;
    Regroup([], Marked(items[0]), Items(items[1..], false), rest);
    Regroup([Token(ItemComma, [COMMA])], Marked(items[0]), Items(items[1..], false), rest);
  }

  lemma Regroup<T>(c: seq<T>, a: seq<T>, b: seq<T>, rest: seq<T>)
    ensures c + a + b + rest == c + (a + (b + rest))
    ensures c == [] ==> c + a + b + rest == a + (b + rest)
  {
  }

  lemma {:induction false} ItemsLaid(items: seq<Value>, first: bool, rest: seq<Token>, l: Layout, depth: nat)
    requires NoKey(rest)
    ensures Lines(false, Items(items, first) + rest, l, depth)
         == ItemsK(items, first, l, depth, Lines(false, rest, l, depth))
    decreases items, 1
  {
    hide Then, Pad, Laid, Lines, Items, Marked, TextK;
    var k := Lines(false, rest, l, depth);
    if items == [] {
      NoItems(first, rest);
    } else {
      var next := Items(items[1..], false) + rest;
      var text := Marked(items[0]) + next;
      ItemsFirst(items, rest);
      ItemsStart(items[1..], rest);
      ItemsLaid(items[1..], false, rest, l, depth);
      ValueLaid(items[0], next, l, depth);
      MarkedStart(items[0], next);
      PlainLine(text, l, depth);
      if !first { CommaLine(Token(ItemComma, [COMMA]), text, l, depth); }
    }
  }

  lemma NoItems(first: bool, rest: seq<Token>)
    ensures Items([], first) + rest == rest && Members([], first) + rest == rest
  {
  }

  /** In front of a value the line does not end. */
  lemma PlainLine(text: seq<Token>, l: Layout, depth: nat)
    requires text != [] && (text[0].kind.Opener? || text[0].kind.Scalar?)
    ensures Lines(false, text, l, depth) == Laid(text, l, depth)
  {
    hide Then, Pad, Laid;
    ThenNothing(Laid(text, l, depth));
  }

  lemma CommaLine(comma: Token, text: seq<Token>, l: Layout, depth: nat)
    requires comma.kind.ItemComma?
    ensures Lines(false, [comma] + text, l, depth) == Then(comma.text, Lines(false, text, l, depth))
  {
    hide Then, Pad, Laid;
    OneToken(comma, text, l, depth);
    ThenNothing(Laid([comma] + text, l, depth));
    ThenNothing(Lines(false, text, l, depth));
  }

  // ----- objects -----

  lemma {:induction false} ObjectLaid(ms: seq<Member>, more: seq<Token>, l: Layout, depth: nat)
    requires NoKey(more)
    ensures Laid(Marked(Obj(ms)) + more, l, depth) == TextK(Obj(ms), l, depth, Lines(false, more, l, depth))
    decreases ms, 2
  {
    hide Then, Pad, Laid, Lines, Members;
    var rest := [CLOSE_OBJECT] + more;
    ContainerTokens(OPEN_OBJECT, Members(ms, true), CLOSE_OBJECT, more);
    OneToken(OPEN_OBJECT, Members(ms, true) + rest, l, depth);
    CloserLaid(CLOSE_OBJECT, more, l, depth);
    MembersLaid(ms, true, rest, l, depth + 1);
    ThenNothing(Lines(false, more, l, depth));
  }

  lemma MembersFirst(ms: seq<Member>, rest: seq<Token>)
    requires ms != []
    ensures var text := Marked(ms[0].value) + (Members(ms[1..], false) + rest);
      var key := [Token(Key, Quoted(ms[0].key))] + ([Token(Colon, [COLON])] + text);
      && Members(ms, true) + rest == key
      && Members(ms, false) + rest == [Token(MemberComma, [COMMA])] + key
  {
    hide Marked, Quoted;
    var k, c := Token(Key, Quoted(ms[0].key)), Token(Colon, [COLON]);
    RegroupMember([], k, c, Marked(ms[0].value), Members(ms[1..], false), rest);
    RegroupMember([Token(MemberComma, [COMMA])], k, c, Marked(ms[0].value), Members(ms[1..], false), rest);
  }

  lemma RegroupMember<T>(x: seq<T>, k: T, c: T, a: seq<T>, b: seq<T>, rest: seq<T>)
    ensures x + [k, c] + a + b + rest == x + ([k] + ([c] + (a + (b + rest))))
    ensures x == [] ==> x + [k, c] + a + b + rest == [k] + ([c] + (a + (b + rest)))
  {
  }

  /** A key, its colon, and the value. */
  lemma KeyLaid(key: Bytes, text: seq<Token>, l: Layout, depth: nat)
    requires text != [] && (text[0].kind.Opener? || text[0].kind.Scalar?)
    ensures Laid([Token(Key, Quoted(key))] + ([Token(Colon, [COLON])] + text), l, depth)
         == KeyK(key, Laid(text, l, depth))
  {
    hide Then, Pad, Laid, Quoted;
    var colon := [Token(Colon, [COLON])] + text;
    OneToken(Token(Key, Quoted(key)), colon, l, depth);
    OneToken(Token(Colon, [COLON]), text, l, depth);
    PlainLine(text, l, depth);
    ThenNothing(Laid(text, l, depth));
    ThenNothing(Laid(colon, l, depth));
    KeyJoins(key, Laid(text, l, depth));
  }

  /** The line in front of a member: at its key when it is the first, at its comma otherwise. */
  lemma KeyLine(first: bool, keyed: seq<Token>, l: Layout, depth: nat)
    requires keyed != [] && keyed[0].kind.Key?
    ensures Lines(first, (if first then [] else [Token(MemberComma, [COMMA])]) + keyed, l, depth)
         == Then(Pad(l, depth), CommaK(first, Laid(keyed, l, depth)))
  {
    hide Then, Pad, Laid;
    if first {
      assert [] + keyed == keyed;
    } else {
      OneToken(Token(MemberComma, [COMMA]), keyed, l, depth);
      ThenNothing(Laid(keyed, l, depth));
    }
  }

  lemma {:induction false} MembersLaid(ms: seq<Member>, first: bool, rest: seq<Token>, l: Layout, depth: nat)
    requires NoKey(rest)
    ensures Lines(first, Members(ms, first) + rest, l, depth)
         == MembersK(ms, first, l, depth, Lines(false, rest, l, depth))
    decreases ms, 1
  {
    hide Then, Pad, Laid, Lines, Members, Marked, TextK, KeyK, CommaK;
    if ms == [] {
      NoItems(first, rest);
      LinesFlag(rest, l, depth);
    } else {
      var next := Members(ms[1..], false) + rest;
      var text := Marked(ms[0].value) + next;
      MembersFirst(ms, rest);
      MembersStart(ms[1..], rest);
      MembersLaid(ms[1..], false, rest, l, depth);
      ValueLaid(ms[0].value, next, l, depth);
      MarkedStart(ms[0].value, next);
      KeyLaid(ms[0].key, text, l, depth);
      var keyed := [Token(Key, Quoted(ms[0].key))] + ([Token(Colon, [COLON])] + text);
      KeyLine(first, keyed, l, depth);
      assert [] + keyed == keyed;
    }
  }

  lemma MembersStart(ms: seq<Member>, rest: seq<Token>)
    requires NoKey(rest)
    ensures NoKey(Members(ms, false) + rest)
  {
    hide Marked;
    if ms == [] { NoItems(false, rest); } else { MembersFirst(ms, rest); }
  }

  // ----- whole texts -----

  /** The text of a value under either layout is laid out from its tokens: a line ends behind an opening
      bracket and behind a scalar, and starts at a closing bracket, at the first key of an object and at
      the comma in front of any other key; nothing else separates tokens. */
  lemma TextIsLaid(v: Value, l: Layout)
    ensures Core(v, l, 0) == Laid(Marked(v), l, 0).bytes
  {
    hide Laid, Marked;
    ValueLaid(v, [], l, 0);
    assert Marked(v) + [] == Marked(v);
    TextContinued(v, l, 0, Rest([]));
    NothingBehind(l);
    assert Core(v, l, 0) + [] + [] == Core(v, l, 0);
  }

  lemma NothingBehind(l: Layout)
    ensures Lines(false, [], l, 0) == Rest([])
  {
  }

  function Texts(ts: seq<Token>): seq<Bytes> {
    if ts == [] then [] else [ts[0].text] + Texts(ts[1..])
  }

  function Joined(ts: seq<Bytes>): Bytes { if ts == [] then [] else ts[0] + Joined(ts[1..]) }

  lemma {:induction false} CompactJoins(ts: seq<Token>, depth: nat)
    ensures Laid(ts, Compact, depth).bytes == Joined(Texts(ts))
    decreases |ts|
  {
    if ts != [] {
      CompactJoins(ts[1..], Behind(ts[0], depth));
      assert Texts(ts)[1..] == Texts(ts[1..]);
    }
  }

  lemma {:induction false} TextsAppend(a: seq<Token>, b: seq<Token>)
    ensures Texts(a + b) == Texts(a) + Texts(b)
  {
    if a == [] {
      assert a + b == b;
    } else {
      assert (a + b)[1..] == a[1..] + b;
      TextsAppend(a[1..], b);
    }
  }

  lemma TextsOne(t: Token)
    ensures Texts([t]) == [t.text]
  {
    assert [t][1..] == [];
  }

  lemma {:induction false} MarkedTexts(v: Value)
    ensures Texts(Marked(v)) == Tokens.TokensOf(v)
    decreases v, 0
  {
    hide Texts, Items, Members, Tokens.ItemTokens, Tokens.MemberTokens, Core;
    match v
    case Arr(items) =>
      ItemsTexts(items, true);
      BracketTexts(OPEN_ARRAY, Items(items, true), CLOSE_ARRAY);
    case Obj(ms) =>
      MembersTexts(ms, true);
      BracketTexts(OPEN_OBJECT, Members(ms, true), CLOSE_OBJECT);
    case _ => TextsOne(Token(Scalar, Core(v, Compact, 0)));
  }

  lemma BracketTexts(a: Token, body: seq<Token>, b: Token)
    ensures Texts([a] + body + [b]) == [a.text] + Texts(body) + [b.text]
  {
    hide Texts;
    TextsAppend([a] + body, [b]);
    TextsAppend([a], body);
    TextsOne(a);
    TextsOne(b);
  }

  lemma {:induction false} ItemsTexts(items: seq<Value>, first: bool)
    ensures Texts(Items(items, first)) == Tokens.ItemTokens(items, first)
    decreases items, 1
  {
    hide Marked, Tokens.TokensOf;
    if items != [] {
      hide Texts;
      var comma := if first then [] else [Token(ItemComma, [COMMA])];
      TextsAppend(comma + Marked(items[0]), Items(items[1..], false));
      TextsAppend(comma, Marked(items[0]));
      TextsOne(Token(ItemComma, [COMMA]));
      NoTexts();
      MarkedTexts(items[0]);
      ItemsTexts(items[1..], false);
    }
  }

  lemma NoTexts()
    ensures Texts([]) == []
  {
  }

  lemma {:induction false} MembersTexts(ms: seq<Member>, first: bool)
    ensures Texts(Members(ms, first)) == Tokens.MemberTokens(ms, first)
    decreases ms, 1
  {
    hide Marked, Tokens.TokensOf, Quoted;
    if ms != [] {
      hide Texts;
      var comma := if first then [] else [Token(MemberComma, [COMMA])];
      var k, c := Token(Key, Quoted(ms[0].key)), Token(Colon, [COLON]);
      TextsAppend(comma + [k, c] + Marked(ms[0].value), Members(ms[1..], false));
      TextsAppend(comma + [k, c], Marked(ms[0].value));
      TextsAppend(comma, [k, c]);
      assert [k, c] == [k] + [c];
      TextsAppend([k], [c]);
      TextsOne(k);
      TextsOne(c);
      TextsOne(Token(MemberComma, [COMMA]));
      NoTexts();
      MarkedTexts(ms[0].value);
      MembersTexts(ms[1..], false);
    }
  }

  /** The compact text is the tokens of the value and nothing else. */
  lemma CompactIsTokens(v: Value)
    ensures Core(v, Compact, 0) == Joined(Tokens.TokensOf(v))
  {
    hide Core, Laid, Marked, Joined, Texts, Tokens.TokensOf;
    TextIsLaid(v, Compact);
    CompactJoins(Marked(v), 0);
    MarkedTexts(v);
  }

  /** The token of each scalar, byte by byte. */
  lemma ScalarTokens(v: Value)
    ensures match v
      case Null => Tokens.TokensOf(v) == [[0x6E, 0x75, 0x6C, 0x6C]]
      case Bool(b) => Tokens.TokensOf(v) == [if b then [0x74, 0x72, 0x75, 0x65] else [0x66, 0x61, 0x6C, 0x73, 0x65]]
      case Int32(n) =>
        Tokens.TokensOf(v) == [(if n < 0 then [0x2D] + Digits(-n) else Digits(n)) + [0x69, 0x33, 0x32]]
      case Int64(n) =>
        Tokens.TokensOf(v) == [(if n < 0 then [0x2D] + Digits(-n) else Digits(n)) + [0x69, 0x36, 0x34]]
      case Double(t) => Tokens.TokensOf(v) == [t]
      case Str(t) => Tokens.TokensOf(v) == [[0x22] + EscapeString(t) + [0x22]]
      case _ => true
  {
  }

  /** How a byte of a string is written: the quote, the backslash and five control bytes by a letter, the
      other control bytes by four lower-case hexadecimal digits, everything else as it is. */
  lemma EscapesAre(c: Byte)
    ensures c >= 0x20 && c != 0x22 && c != 0x5C ==> EscapeByte(c) == [c]
    ensures EscapeByte(0x22) == [0x5C, 0x22] && EscapeByte(0x5C) == [0x5C, 0x5C]
    ensures EscapeByte(0x08) == [0x5C, 0x62] && EscapeByte(0x0C) == [0x5C, 0x66] && EscapeByte(0x0A) == [0x5C, 0x6E]
    ensures EscapeByte(0x0D) == [0x5C, 0x72] && EscapeByte(0x09) == [0x5C, 0x74]
    ensures c < 0x20 && c !in {0x08, 0x09, 0x0A, 0x0C, 0x0D} ==>
      EscapeByte(c) == [0x5C, 0x75, 0x30, 0x30, if c < 0x10 then 0x30 else 0x31,
                        if c % 0x10 < 10 then 0x30 + c % 0x10 else 0x61 + c % 0x10 - 10]
  {
  }
}
