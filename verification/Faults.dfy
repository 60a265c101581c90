/** What the reader reports for a break in the structure of a text: behind the first value, or in an array or
    object behind any number of items or members (JsonServer/Reader.h). */
module Faults {
  import opened Octets
  import opened JsonValue
  import opened ReaderSpec
  import opened Printer
  import opened RoundTrip
  import opened Spacing
  import opened Scalars
  import Tokens

  // ----- the structure -----

  /** A text of tokens and gaps, with a gap in front, at its first token. */
  lemma Opens(before: Bytes, tokens: seq<Bytes>, gaps: seq<Bytes>) returns (p: nat, rest: seq<Bytes>)
    requires |gaps| == |tokens| && Blank(before) && AllBlank(gaps) && Starts(tokens)
    ensures var s := before + Spaced(tokens, gaps);
      && p <= |s| && SkipWs(s, 0) == p && At(s, p, tokens, rest)
      && (tokens != [] ==> tokens[0] != [] && p < |s| && s[p] == tokens[0][0])
  {
    hide SkipWs, AllBlank, Blank, Spaced, Reads, Starts;
    var s := before + Spaced(tokens, gaps);
    assert Reads(s, 0, Then(before, SpacedK(tokens, gaps))) by { WholeText(s, before, SpacedK(tokens, gaps)); }
    assert Behind(s, 0, tokens, [before] + gaps) by {
      assert ([before] + gaps)[1..] == gaps;
      BlankFirst(before, gaps);
    }
    p, rest := Gap(s, 0, tokens, [before] + gaps);
  }

  /** A second value after the first is an error, and the value held stays. */
  lemma RootFault(v: Value, more: seq<Bytes>, before: Bytes, gaps: seq<Bytes>, held: Value)
    requires Spellable(v) && more != [] && Starts(more) && (Stops(more) || !v.Double?)
    requires |gaps| == |Tokens.TokensOf(v) + more| && Blank(before) && AllBlank(gaps)
    ensures var r := Parse(before + Spaced(Tokens.TokensOf(v) + more, gaps), held);
      r.err == PARSE_ROOT_NOT_SINGULAR && r.value == held
  {
    hide SkipWs, ParseValue, Tokens.TokensOf, Spellable, AllBlank, Blank, Spaced, At, Behind, Starts, Stops;
    var tokens := Tokens.TokensOf(v) + more;
    var s := before + Spaced(tokens, gaps);
    FirstToken(v, more);
    var p, g := Opens(before, tokens, gaps);
    var h := ValueSpaced(v, more, g, s, p);
    var q, i := Gap(s, ParseValue(s, p).pos, more, h);
  }

  /** The tokens of some members, each with a comma behind it. */
  function EachMember(ms: seq<Member>): seq<Bytes> {
    if ms == [] then []
    else
      [Quoted(ms[0].key)] + ([[COLON]] + (Tokens.TokensOf(ms[0].value) + ([[COMMA]] + EachMember(ms[1..]))))
  }

  lemma EachMemberFirst(ms: seq<Member>, more: seq<Bytes>)
    requires ms != []
    ensures EachMember(ms) + more == [Quoted(ms[0].key)]
      + ([[COLON]] + (Tokens.TokensOf(ms[0].value) + ([[COMMA]] + (EachMember(ms[1..]) + more))))
  {
    hide Tokens.TokensOf, Quoted;
    var a, b := Tokens.TokensOf(ms[0].value), EachMember(ms[1..]);
    RegroupMore(Quoted(ms[0].key), [COLON], a, [COMMA], b, more);
  }

  lemma RegroupMore<T>(k: T, l: T, a: seq<T>, c: T, b: seq<T>, more: seq<T>)
    ensures [k] + ([l] + (a + ([c] + b))) + more == [k] + ([l] + (a + ([c] + (b + more))))
  {
  }

  lemma EachMemberStarts(ms: seq<Member>, more: seq<Bytes>)
    requires Starts(more)
    ensures Starts(EachMember(ms) + more)
    ensures ms != [] ==> EachMember(ms) + more != [] && (EachMember(ms) + more)[0] == Quoted(ms[0].key)
  {
    if ms == [] { assert EachMember(ms) + more == more; }
  }

  /** The loop of parseObject passes members that have a comma behind them. */
  lemma {:induction false} MembersPassed(ms: seq<Member>, acc: seq<Member>, more: seq<Bytes>, gaps: seq<Bytes>,
                                         s: Bytes, p: nat)
    returns (u: nat, rest: seq<Bytes>)
    requires MembersSpellable(ms) && Ascending(acc + ms) && Starts(more) && p <= |s|
    requires At(s, p, EachMember(ms) + more, gaps)
    ensures u <= |s| && ObjectLoop(s, p, acc) == ObjectLoop(s, u, acc + ms) && At(s, u, more, rest)
    decreases ms
  {
    hide At, Behind, SkipWs, ParseValue, ParseKey, ObjectLoop, Tokens.TokensOf, EachMember, MembersSpellable, Spellable,
      PlainKey, Quoted, Starts, Stops, Ascending, HasKey, Insert, Went;
    if ms == [] {
      assert EachMember(ms) + more == more by { NoMember(more); }
      assert acc + ms == acc;
      u, rest := p, gaps;
    } else {
      var m, next := ms[0], EachMember(ms[1..]) + more;
      var behind := [[COMMA]] + next;
      EachMemberFirst(ms, more);
      EachMemberStarts(ms[1..], more);
      SpellableFirst(ms);
      TakeFirst(acc, ms);
      NewLastKey(acc, ms);
      CommaStarts(next);
      var v, t, h := MemberPassed(m, acc, behind, gaps, s, p);
      TakeByte(s, t, COMMA, next, h);
      var w, i := Gap(s, t + 1, next, h);
      u, rest := MembersPassed(ms[1..], acc + [m], more, i, s, w);
    }
  }

  lemma NoMember(more: seq<Bytes>)
    ensures EachMember([]) + more == more
  {
  }

  lemma SpellableFirst(ms: seq<Member>)
    requires ms != [] && MembersSpellable(ms)
    ensures PlainKey(ms[0].key) && Spellable(ms[0].value) && MembersSpellable(ms[1..])
  {
    hide Spellable, PlainKey;
  }

  lemma CommaStarts(next: seq<Bytes>)
    ensures Starts([[COMMA]] + next) && Stops([[COMMA]] + next)
  {
  }

  /** One member with a new key, up to the token behind it. */
  lemma MemberPassed(m: Member, acc: seq<Member>, behind: seq<Bytes>, gaps: seq<Bytes>, s: Bytes, p: nat)
    returns (v: nat, t: nat, rest: seq<Bytes>)
    requires PlainKey(m.key) && Spellable(m.value) && Starts(behind) && (Stops(behind) || !m.value.Double?)
    requires p <= |s| && At(s, p, [Quoted(m.key)] + ([[COLON]] + (Tokens.TokensOf(m.value) + behind)), gaps)
    ensures v <= |s| && ParseKey(s, p) == Scanned(PARSE_OK, true, m.key, v)
    ensures ParseValue(s, v).err == PARSE_OK && ParseValue(s, v).value == m.value
    ensures t <= |s| && SkipWs(s, ParseValue(s, v).pos) == t == SkipWs(s, t) && At(s, t, behind, rest)
    ensures if behind == [] then t == |s| else behind[0] != [] && t < |s| && s[t] == behind[0][0]
    ensures !HasKey(acc, m.key) ==>
      && (Front(s, t) == COMMA ==> ObjectLoop(s, p, acc) == ObjectLoop(s, SkipWs(s, t + 1), Insert(acc, m)))
      && (Front(s, t) == RBRACE ==> ObjectLoop(s, p, acc) == Parsed(PARSE_OK, Obj(Insert(acc, m)), t + 1))
  {
    hide At, Behind, SkipWs, ParseValue, ParseKey, ObjectLoop, Tokens.TokensOf, Spellable, PlainKey, Quoted, Starts,
      Stops, HasKey, Insert;
    FirstToken(m.value, behind);
    var f;
    v, f := KeySpaced(m.key, Tokens.TokensOf(m.value) + behind, gaps, s, p);
    var g := ValueSpaced(m.value, behind, f, s, v);
    t, rest := Gap(s, ParseValue(s, v).pos, behind, g);
    if !HasKey(acc, m.key) { ObjectIteration(s, p, acc, m, ParseValue(s, v).pos); }
  }

  /** The first byte of a list of tokens; NUL when there is none. */
  function Lead(tokens: seq<Bytes>): Byte
    requires Starts(tokens)
  {
    if tokens == [] then 0 else tokens[0][0]
  }

  lemma AtLead(s: Bytes, p: nat, tokens: seq<Bytes>, gaps: seq<Bytes>)
    requires At(s, p, tokens, gaps) && Starts(tokens)
    ensures p <= |s| && Front(s, p) == Lead(tokens) && SkipWs(s, p) == p
  {
    hide AllBlank, Reads, SpacedK, BehindK, SkipWs;
    if tokens == [] {
      NoTokens(s, p, gaps);
    } else {
      assert [tokens[0]] + tokens[1..] == tokens;
      TakeToken(s, p, tokens[0], tokens[1..], gaps);
      assert s[p] == s[p..p + |tokens[0]|][0];
    }
    SkipNone(s, p);
  }

  lemma NoTokens(s: Bytes, p: nat, gaps: seq<Bytes>)
    requires At(s, p, [], gaps)
    ensures p == |s|
  {
  }

  /** The text of an object that breaks off after some members with commas behind them. */
  function Broken(ms: seq<Member>, more: seq<Bytes>): seq<Bytes> { [[LBRACE]] + (EachMember(ms) + more) }

  ghost predicate BreaksOff(ms: seq<Member>, more: seq<Bytes>, before: Bytes, gaps: seq<Bytes>) {
    && MembersSpellable(ms) && Ascending(ms) && Starts(more) && (ms == [] ==> Lead(more) != RBRACE)
    && |gaps| == |Broken(ms, more)| && Blank(before) && AllBlank(gaps)
  }

  /** The reader comes to the break with the members before it. */
  lemma ReachesBreak(ms: seq<Member>, more: seq<Bytes>, before: Bytes, gaps: seq<Bytes>, held: Value)
    returns (u: nat, rest: seq<Bytes>)
    requires BreaksOff(ms, more, before, gaps)
    ensures var s := before + Spaced(Broken(ms, more), gaps);
      && u <= |s| && At(s, u, more, rest) && Front(s, u) == Lead(more)
      && (ObjectLoop(s, u, ms).err != PARSE_OK ==> Parse(s, held) == ObjectLoop(s, u, ms))
  {
    hide SkipWs, ParseValue, ObjectLoop, EachMember, MembersSpellable, Ascending, AllBlank, Blank, Spaced, At, Behind,
      Starts, Lead, Quoted;
    var s, body := before + Spaced(Broken(ms, more), gaps), EachMember(ms) + more;
    BraceStarts(body);
    EachMemberStarts(ms, more);
    var p, g := Opens(before, Broken(ms, more), gaps);
    TakeByte(s, p, LBRACE, body, g);
    var q, h := Gap(s, p + 1, body, g);
    ObjectStart(s, p);
    AtLead(s, q, body, h);
    BodyLead(ms, more);
    assert [] + ms == ms;
    u, rest := MembersPassed(ms, [], more, h, s, q);
    AtLead(s, u, more, rest);
  }

  lemma BraceStarts(body: seq<Bytes>)
    ensures Starts([[LBRACE]] + body)
  {
  }

  lemma BodyLead(ms: seq<Member>, more: seq<Bytes>)
    requires Starts(more) && (ms == [] ==> Lead(more) != RBRACE)
    ensures Starts(EachMember(ms) + more) && Lead(EachMember(ms) + more) != RBRACE
  {
    EachMemberStarts(ms, more);
    if ms == [] { NoMember(more); }
  }

  /** A member starts with a quote: after the opening brace or a comma anything else is a missing key. */
  lemma KeyFault(ms: seq<Member>, more: seq<Bytes>, before: Bytes, gaps: seq<Bytes>, held: Value)
    requires BreaksOff(ms, more, before, gaps) && Lead(more) != QUOTE
    ensures var r := Parse(before + Spaced(Broken(ms, more), gaps), held);
      r.err == PARSE_MISS_KEY && r.value == Obj(ms)
  {
    hide Parse, Spaced, MembersSpellable, Ascending, AllBlank, Blank, Broken, At, Lead;
    var u, g := ReachesBreak(ms, more, before, gaps, held);
    NoKey(before + Spaced(Broken(ms, more), gaps), u, ms);
  }

  lemma NoKey(s: Bytes, u: nat, ms: seq<Member>)
    requires u <= |s| && Front(s, u) != QUOTE
    ensures ObjectLoop(s, u, ms) == Parsed(PARSE_MISS_KEY, Obj(ms), u)
  {
  }

  /** Behind a key stands a colon. */
  lemma ColonFault(ms: seq<Member>, key: Bytes, more: seq<Bytes>, before: Bytes, gaps: seq<Bytes>, held: Value)
    requires BreaksOff(ms, [Quoted(key)] + more, before, gaps) && PlainKey(key) && Starts(more) && Lead(more) != COLON
    ensures var r := Parse(before + Spaced(Broken(ms, [Quoted(key)] + more), gaps), held);
      r.err == PARSE_MISS_COLON && r.value == Obj(ms)
  {
    hide Parse, Spaced, MembersSpellable, Ascending, AllBlank, Blank, Broken, At, Behind, BehindK, Lead, Starts, Quoted,
      ParseChars, SkipWs, Reads, PlainKey;
    var s := before + Spaced(Broken(ms, [Quoted(key)] + more), gaps);
    var u, g := ReachesBreak(ms, [Quoted(key)] + more, before, gaps, held);
    TakeToken(s, u, Quoted(key), more, g);
    QuotedScans(key, s, u, BehindK(more, g));
    var q, h := Gap(s, u + |Quoted(key)|, more, g);
    AtLead(s, q, more, h);
    NoColon(s, u, ms, key, u + |Quoted(key)|);
  }

  lemma NoColon(s: Bytes, u: nat, ms: seq<Member>, key: Bytes, q: nat)
    requires u < |s| && s[u] == QUOTE && ParseChars(s, u + 1, []) == Scanned(PARSE_OK, true, key, q) && q <= |s|
    requires Front(s, SkipWs(s, q)) != COLON
    ensures var r := ObjectLoop(s, u, ms); r.err == PARSE_MISS_COLON && r.value == Obj(ms)
  {
    hide ParseChars, SkipWs;
  }

  /** A member whose key is there already trips an assert, whatever follows its value; behind one whose key
      is new stands a comma or the closing brace. */
  lemma MemberFault(ms: seq<Member>, m: Member, more: seq<Bytes>, before: Bytes, gaps: seq<Bytes>, held: Value)
    requires var tokens := [Quoted(m.key)] + ([[COLON]] + (Tokens.TokensOf(m.value) + more));
      BreaksOff(ms, tokens, before, gaps)
    requires PlainKey(m.key) && Spellable(m.value) && Starts(more) && (Stops(more) || !m.value.Double?)
    ensures var tokens := [Quoted(m.key)] + ([[COLON]] + (Tokens.TokensOf(m.value) + more));
      var r := Parse(before + Spaced(Broken(ms, tokens), gaps), held);
      && (HasKey(ms, m.key) ==> r.err == ABORTED)
      && (!HasKey(ms, m.key) && Lead(more) != COMMA && Lead(more) != RBRACE ==>
            r.err == PARSE_MISS_COMMA_OR_CURLY_BRACKET && r.value == Obj(Insert(ms, m)))
  {
    hide Parse, Spaced, MembersSpellable, Ascending, AllBlank, Blank, Broken, At, Behind, Lead, Starts, Stops, Quoted,
      SkipWs, PlainKey, Spellable, HasKey, Insert, ParseKey, ParseValue, Tokens.TokensOf;
    var tokens := [Quoted(m.key)] + ([[COLON]] + (Tokens.TokensOf(m.value) + more));
    var s := before + Spaced(Broken(ms, tokens), gaps);
    var u, g := ReachesBreak(ms, tokens, before, gaps, held);
    var v, t, h := MemberPassed(m, ms, more, g, s, u);
    AtLead(s, t, more, h);
    MemberBreaks(s, u, ms, m, v);
  }

  lemma MemberBreaks(s: Bytes, u: nat, ms: seq<Member>, m: Member, v: nat)
    requires u <= |s| && v <= |s| && ParseKey(s, u) == Scanned(PARSE_OK, true, m.key, v)
    requires ParseValue(s, v).err == PARSE_OK && ParseValue(s, v).value == m.value
    ensures var r, b := ObjectLoop(s, u, ms), Front(s, SkipWs(s, ParseValue(s, v).pos));
      && (HasKey(ms, m.key) ==> r.err == ABORTED)
      && (!HasKey(ms, m.key) && b != COMMA && b != RBRACE ==>
            r.err == PARSE_MISS_COMMA_OR_CURLY_BRACKET && r.value == Obj(Insert(ms, m)))
  {
    hide ParseKey, ParseValue, SkipWs, HasKey, Insert;
  }

  /** A byte with which no value starts. */
  predicate StartsNothing(b: Byte) {
    b != 0x2D && !IsDigit(b) && b !in {0x6E, 0x74, 0x66, 0x22, 0x5B, 0x7B}
  }

  /** Behind the colon a value must start. */
  lemma MemberValueFault(ms: seq<Member>, key: Bytes, more: seq<Bytes>, before: Bytes, gaps: seq<Bytes>, held: Value)
    requires BreaksOff(ms, [Quoted(key)] + ([[COLON]] + more), before, gaps)
    requires PlainKey(key) && Starts(more) && StartsNothing(Lead(more))
    ensures var r := Parse(before + Spaced(Broken(ms, [Quoted(key)] + ([[COLON]] + more)), gaps), held);
      r.err == PARSE_INVALID_VALUE && r.value == Obj(ms)
  {
    hide Parse, Spaced, MembersSpellable, Ascending, AllBlank, Blank, Broken, At, Lead, Starts, Quoted, SkipWs,
      PlainKey, ParseKey, ParseValue;
    var tokens := [Quoted(key)] + ([[COLON]] + more);
    var s := before + Spaced(Broken(ms, tokens), gaps);
    var u, g := ReachesBreak(ms, tokens, before, gaps, held);
    var v, h := KeySpaced(key, more, g, s, u);
    AtLead(s, v, more, h);
    NoValueStarts(s, v);
    NoMemberValue(s, u, ms, key, v);
  }

  lemma NoMemberValue(s: Bytes, u: nat, ms: seq<Member>, key: Bytes, v: nat)
    requires u <= |s| && v <= |s| && ParseKey(s, u) == Scanned(PARSE_OK, true, key, v)
    requires ParseValue(s, v).err == PARSE_INVALID_VALUE
    ensures var r := ObjectLoop(s, u, ms); r.err == PARSE_INVALID_VALUE && r.value == Obj(ms)
  {
    hide ParseKey, ParseValue;
  }

  // ----- arrays -----

  function EachItem(items: seq<Value>): seq<Bytes> {
    if items == [] then [] else Tokens.TokensOf(items[0]) + ([[COMMA]] + EachItem(items[1..]))
  }

  lemma EachItemFirst(items: seq<Value>, more: seq<Bytes>)
    requires items != []
    ensures EachItem(items) + more == Tokens.TokensOf(items[0]) + ([[COMMA]] + (EachItem(items[1..]) + more))
  {
    hide Tokens.TokensOf;
    RegroupItem(Tokens.TokensOf(items[0]), [COMMA], EachItem(items[1..]), more);
  }

  lemma RegroupItem<T>(a: seq<T>, c: T, b: seq<T>, more: seq<T>)
    ensures a + ([c] + b) + more == a + ([c] + (b + more))
  {
  }

  lemma EachItemStarts(items: seq<Value>, more: seq<Bytes>)
    requires Starts(more) && AllSpellable(items)
    ensures Starts(EachItem(items) + more)
    ensures items == [] ==> EachItem(items) + more == more
    ensures items != [] ==> Lead(EachItem(items) + more) != RBRACKET
  {
    hide Tokens.TokensOf;
    if items == [] {
      assert EachItem(items) + more == more;
    } else {
      EachItemFirst(items, more);
      FirstToken(items[0], [[COMMA]] + (EachItem(items[1..]) + more));
    }
  }

  /** The loop of parseArray passes items that have a comma behind them. */
  lemma {:induction false} ItemsPassed(items: seq<Value>, acc: seq<Value>, more: seq<Bytes>, gaps: seq<Bytes>,
                                       s: Bytes, p: nat)
    returns (u: nat, rest: seq<Bytes>)
    requires AllSpellable(items) && Starts(more) && p <= |s| && At(s, p, EachItem(items) + more, gaps)
    ensures u <= |s| && ArrayLoop(s, p, acc) == ArrayLoop(s, u, acc + items) && At(s, u, more, rest)
    decreases items
  {
    hide At, Behind, SkipWs, ParseValue, ArrayLoop, Tokens.TokensOf, EachItem, Spellable, Starts, Stops;
    EachItemStarts(items, more);
    if items == [] {
      assert acc + items == acc;
      u, rest := p, gaps;
    } else {
      var next := EachItem(items[1..]) + more;
      EachItemFirst(items, more);
      EachItemStarts(items[1..], more);
      TakeFirst(acc, items);
      CommaStarts(next);
      var g := ValueSpaced(items[0], [[COMMA]] + next, gaps, s, p);
      var q := ParseValue(s, p).pos;
      ArrayIteration(s, p, acc, items[0], q);
      var t, h := Gap(s, q, [[COMMA]] + next, g);
      TakeByte(s, t, COMMA, next, h);
      var w, i := Gap(s, t + 1, next, h);
      u, rest := ItemsPassed(items[1..], acc + [items[0]], more, i, s, w);
    }
  }

  /** Behind the opening bracket or a comma an item must start: the reader gives up with the items before. */
  lemma ItemFault(items: seq<Value>, more: seq<Bytes>, before: Bytes, gaps: seq<Bytes>, held: Value)
    requires AllSpellable(items) && Starts(more) && StartsNothing(Lead(more))
    requires items == [] ==> Lead(more) != RBRACKET
    requires |gaps| == |[[LBRACKET]] + (EachItem(items) + more)| && Blank(before) && AllBlank(gaps)
    ensures var r := Parse(before + Spaced([[LBRACKET]] + (EachItem(items) + more), gaps), held);
      r.err == PARSE_INVALID_VALUE && r.value == Arr(items)
  {
    hide SkipWs, ParseValue, ArrayLoop, EachItem, AllSpellable, AllBlank, Blank, Spaced, At, Behind, Starts, Lead;
    var body := EachItem(items) + more;
    var s := before + Spaced([[LBRACKET]] + body, gaps);
    BracketStarts(body);
    EachItemStarts(items, more);
    var p, g := Opens(before, [[LBRACKET]] + body, gaps);
    TakeByte(s, p, LBRACKET, body, g);
    var q, h := Gap(s, p + 1, body, g);
    ArrayStart(s, p);
    AtLead(s, q, body, h);
    assert [] + items == items;
    var u, i := ItemsPassed(items, [], more, h, s, q);
    AtLead(s, u, more, i);
    NoValueStarts(s, u);
    NoItem(s, u, items);
  }

  lemma BracketStarts(body: seq<Bytes>)
    ensures Starts([[LBRACKET]] + body)
  {
  }

  lemma NoItem(s: Bytes, u: nat, items: seq<Value>)
    requires u <= |s| && ParseValue(s, u).err == PARSE_INVALID_VALUE
    ensures var r := ArrayLoop(s, u, items); r.err == PARSE_INVALID_VALUE && r.value == Arr(items)
  {
    hide ParseValue;
  }
}
