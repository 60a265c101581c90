/** The reader on any spelling of a value: whatever runs of the four whitespace bytes stand between its
    tokens, and with numbers in any form of the JSON grammar (JsonServer/Reader.h). Nothing here is
    stated with the reader's own idea of whitespace. */
module Spacing {
  import opened Octets
  import opened JsonValue
  import opened ReaderSpec
  import opened Printer
  import opened RoundTrip
  import Tokens

  // ----- what may be spelled -----

  /** Space, tab, line feed and carriage return. */
  predicate Blank(t: Bytes) {
    forall i :: 0 <= i < |t| ==> t[i] == 0x20 || t[i] == 0x09 || t[i] == 0x0A || t[i] == 0x0D
  }

  predicate AllBlank(gaps: seq<Bytes>) { forall i :: 0 <= i < |gaps| ==> Blank(gaps[i]) }

  /** An integer part: an optional sign, and 0 or digits that do not start with 0. */
  predicate IsWhole(t: Bytes) {
    var d := if t != [] && t[0] == 0x2D then t[1..] else t;
    d != [] && AllDigits(d) && (d[0] == 0x30 ==> |d| == 1)
  }

  predicate IsFraction(t: Bytes) { |t| >= 2 && t[0] == 0x2E && AllDigits(t[1..]) }

  predicate IsExponent(t: Bytes) {
    && |t| >= 2 && (t[0] == 0x65 || t[0] == 0x45)
    && var d := if t[1] == 0x2B || t[1] == 0x2D then t[2..] else t[1..];
       d != [] && AllDigits(d)
  }

  /** A number with a fraction, an exponent or both. */
  predicate IsDouble(whole: Bytes, fraction: Bytes, exponent: Bytes) {
    && IsWhole(whole) && (fraction == [] || IsFraction(fraction)) && (exponent == [] || IsExponent(exponent))
    && (fraction != [] || exponent != [])
  }

  ghost predicate DoubleText(t: Bytes) {
    exists a: Bytes, b: Bytes, c: Bytes :: IsDouble(a, b, c) && t == a + b + c
  }

  ghost predicate GrammarDoubles(v: Value) {
    match v
    case Double(t) => DoubleText(t)
    case Arr(items) => forall i :: 0 <= i < |items| ==> GrammarDoubles(items[i])
    case Obj(ms) => forall i :: 0 <= i < |ms| ==> GrammarDoubles(ms[i].value)
    case _ => true
  }

  ghost predicate Spellable(v: Value) { WellFormed(v) && PlainKeys(v) && GrammarDoubles(v) }

  // ----- doubles -----

  /** What may follow a number: nothing, whitespace, or the end of an item or member. */
  predicate Ends(b: Byte) {
    b == 0 || b == SPACE || b == TAB || b == LF || b == CR || b == COMMA || b == RBRACKET || b == RBRACE
  }

  lemma {:induction false} DigitsEndIs(s: Bytes, p: nat, q: nat)
    requires p <= q <= |s| && (forall i :: p <= i < q ==> IsDigit(s[i])) && (q < |s| ==> !IsDigit(s[q]))
    ensures DigitsEnd(s, p) == q
    decreases q - p
  {
    if p < q { DigitsEndIs(s, p + 1, q); }
  }

  lemma DigitsAt(s: Bytes, a: nat, q: nat, d: Bytes)
    requires a + |d| == q <= |s| && s[a..q] == d && AllDigits(d)
    ensures forall i :: a <= i < q ==> IsDigit(s[i])
  {
    forall i | a <= i < q
      ensures IsDigit(s[i])
    {
      assert s[i] == s[a..q][i - a];
    }
  }

  lemma WholeScans(s: Bytes, p: nat, t: Bytes)
    requires IsWhole(t) && p + |t| <= |s| && s[p..p + |t|] == t && (p + |t| < |s| ==> !IsDigit(s[p + |t|]))
    ensures ScanInteger(s, p) == Scan(true, Untyped, p + |t|)
    ensures Front(s, p) == MINUS || IsDigit(Front(s, p))
  {
    hide ScanInteger, AllDigits;
    var n := if t[0] == 0x2D then 1 else 0;
    WholeDigits(t, n);
    SubSlice(s, p, |t|, n, |t|);
    DigitsAt(s, p + n, p + |t|, t[n..|t|]);
    assert s[p] == s[p..p + |t|][0] && s[p + n] == s[p..p + |t|][n];
    WholeScansAt(s, p, p + n, p + |t|);
  }

  lemma WholeDigits(t: Bytes, n: nat)
    requires IsWhole(t) && n == if t[0] == 0x2D then 1 else 0
    ensures n < |t| && AllDigits(t[n..|t|]) && (t[n] == 0x30 ==> |t| == n + 1)
  {
    assert t[n..|t|] == if n == 1 then t[1..] else t;
  }

  lemma WholeScansAt(s: Bytes, p: nat, a: nat, q: nat)
    requires p <= a < q <= |s| && a == if s[p] == MINUS then p + 1 else p
    requires (forall i :: a <= i < q ==> IsDigit(s[i])) && (q < |s| ==> !IsDigit(s[q]))
    requires s[a] == 0x30 ==> q == a + 1
    ensures ScanInteger(s, p) == Scan(true, Untyped, q)
    ensures s[p] == MINUS || IsDigit(s[p])
  {
    DigitsEndIs(s, a, q);
  }

  lemma FractionScans(s: Bytes, p: nat, t: Bytes, ty: NumberType)
    requires t == [] || IsFraction(t)
    requires p + |t| <= |s| && s[p..p + |t|] == t
    requires !IsDigit(Front(s, p + |t|)) && Front(s, p + |t|) != DOT
    ensures ScanFraction(s, p, ty) == Scan(true, if t == [] then ty else AsDouble, p + |t|)
  {
    if t != [] {
      var q := p + |t|;
      assert s[p] == t[0];
      SubSlice(s, p, |t|, 1, |t|);
      DigitsAt(s, p + 1, q, t[1..|t|]);
      DigitsEndIs(s, p + 2, q);
    }
  }

  lemma ExponentScans(s: Bytes, p: nat, t: Bytes, ty: NumberType)
    requires t == [] || IsExponent(t)
    requires p + |t| <= |s| && s[p..p + |t|] == t
    requires !IsDigit(Front(s, p + |t|)) && Front(s, p + |t|) != 0x65 && Front(s, p + |t|) != 0x45
    ensures ScanExponent(s, p, ty) == Scan(true, if t == [] then ty else AsDouble, p + |t|)
  {
    hide ScanExponent, AllDigits;
    if t != [] {
      var n := if t[1] == 0x2B || t[1] == 0x2D then 2 else 1;
      assert s[p] == t[0] && s[p + 1] == t[1];
      SubSlice(s, p, |t|, n, |t|);
      DigitsAt(s, p + n, p + |t|, t[n..|t|]);
      assert t[n..|t|] == t[n..];
      ExponentAt(s, p, p + n, p + |t|, ty);
    } else {
      NoExponent(s, p, ty);
    }
  }

  lemma ExponentAt(s: Bytes, p: nat, a: nat, q: nat, ty: NumberType)
    requires p + 1 < |s| && (s[p] == 0x65 || s[p] == 0x45)
    requires a == if s[p + 1] == 0x2B || s[p + 1] == 0x2D then p + 2 else p + 1
    requires a < q <= |s| && (forall i :: a <= i < q ==> IsDigit(s[i])) && !IsDigit(Front(s, q))
    ensures ScanExponent(s, p, ty) == Scan(true, AsDouble, q)
  {
    DigitsEndIs(s, a + 1, q);
  }

  lemma NoExponent(s: Bytes, p: nat, ty: NumberType)
    requires p <= |s| && Front(s, p) != 0x65 && Front(s, p) != 0x45
    ensures ScanExponent(s, p, ty) == Scan(true, ty, p)
  {
  }

  /** A number with a fraction or an exponent is read as the double that its text spells. */
  lemma DoubleReads(a: Bytes, b: Bytes, c: Bytes, s: Bytes, p: nat)
    requires IsDouble(a, b, c) && p + |a + b + c| <= |s| && s[p..p + |a + b + c|] == a + b + c
    requires Ends(Front(s, p + |a + b + c|))
    ensures ParseValue(s, p) == Parsed(PARSE_OK, Double(a + b + c), p + |a + b + c|)
  {
    hide IsWhole, IsFraction, IsExponent, ScanInteger, ScanFraction, ScanExponent;
    var q, r, e := p + |a|, p + |a| + |b|, p + |a| + |b| + |c|;
    Pieces(a, b, c, s, p);
    PieceStarts(b, c);
    assert b != [] ==> Front(s, q) == s[q..r][0];
    assert c != [] ==> Front(s, r) == s[r..e][0];
    WholeScans(s, p, a);
    FractionScans(s, q, b, Untyped);
    ExponentScans(s, r, c, if b == [] then Untyped else AsDouble);
    assert ScanNumber(s, p) == Scan(true, AsDouble, e);
  }

  lemma Pieces(a: Bytes, b: Bytes, c: Bytes, s: Bytes, p: nat)
    requires p + |a + b + c| <= |s| && s[p..p + |a + b + c|] == a + b + c
    ensures var q, r, e := p + |a|, p + |a| + |b|, p + |a| + |b| + |c|;
      s[p..q] == a && s[q..r] == b && s[r..e] == c
  {
    var t := a + b + c;
    SubSlice(s, p, |t|, 0, |a|);
    SubSlice(s, p, |t|, |a|, |a| + |b|);
    SubSlice(s, p, |t|, |a| + |b|, |t|);
    assert t[0..|a|] == a && t[|a|..|a| + |b|] == b && t[|a| + |b|..|t|] == c;
  }

  lemma SubSlice(s: Bytes, p: nat, n: nat, i: nat, j: nat)
    requires i <= j <= n && p + n <= |s|
    ensures s[p..p + n][i..j] == s[p + i..p + j]
  {
    var x, y := s[p..p + n][i..j], s[p + i..p + j];
    forall k | 0 <= k < j - i
      ensures x[k] == y[k]
    {
      assert x[k] == s[p..p + n][i + k];
    }
  }

  lemma PieceStarts(b: Bytes, c: Bytes)
    requires (b == [] || IsFraction(b)) && (c == [] || IsExponent(c))
    ensures b != [] ==> b[0] == DOT
    ensures c != [] ==> c[0] == 0x65 || c[0] == 0x45
  {
  }

  // ----- token by token -----

  /** The tokens, each with its gap behind it. */
  function Spaced(tokens: seq<Bytes>, gaps: seq<Bytes>): Bytes
    requires |gaps| == |tokens|
  {
    if tokens == [] then [] else tokens[0] + (gaps[0] + Spaced(tokens[1..], gaps[1..]))
  }

  function SpacedK(tokens: seq<Bytes>, gaps: seq<Bytes>): Rest
    requires |gaps| == |tokens|
  {
    Rest(Spaced(tokens, gaps))
  }

  /** Behind a token: its gap, and the tokens that follow. */
  function BehindK(tokens: seq<Bytes>, gaps: seq<Bytes>): Rest
    requires |gaps| == |tokens| + 1
  {
    Then(gaps[0], SpacedK(tokens, gaps[1..]))
  }

  predicate Starts(tokens: seq<Bytes>) {
    tokens == [] || (tokens[0] != [] && !IsWs(tokens[0][0]))
  }

  /** What may stand behind a value. */
  predicate Stops(tokens: seq<Bytes>) {
    tokens == [] || tokens[0] == [COMMA] || tokens[0] == [RBRACKET] || tokens[0] == [RBRACE]
  }

  lemma BlankIsWs(t: Bytes)
    requires Blank(t)
    ensures AllWs(t)
  {
  }

  lemma BlankRest(gaps: seq<Bytes>)
    requires AllBlank(gaps) && gaps != []
    ensures Blank(gaps[0]) && AllBlank(gaps[1..])
  {
  }

  /** The first token is at p; behind it the stream goes on. */
  lemma Take(s: Bytes, p: nat, token: Bytes, more: seq<Bytes>, gaps: seq<Bytes>)
    requires |gaps| == |more| + 1 && Reads(s, p, SpacedK([token] + more, gaps))
    ensures p + |token| <= |s| && Reads(s, p, Then(token, BehindK(more, gaps)))
    ensures Reads(s, p + |token|, BehindK(more, gaps))
  {
    assert ([token] + more)[1..] == more;
    assert SpacedK([token] + more, gaps) == Then(token, BehindK(more, gaps));
    Peel(s, p, token, BehindK(more, gaps));
  }

  /** Skipping the gap arrives at the next token, or at the end of the text. */
  lemma SkipGap(s: Bytes, p: nat, tokens: seq<Bytes>, gaps: seq<Bytes>) returns (q: nat)
    requires |gaps| == |tokens| + 1 && AllBlank(gaps) && Starts(tokens) && Reads(s, p, BehindK(tokens, gaps))
    ensures q <= |s| && SkipWs(s, p) == q && SkipWs(s, q) == q && Reads(s, q, SpacedK(tokens, gaps[1..]))
    ensures AllBlank(gaps[1..])
    ensures tokens == [] ==> q == |s|
    ensures tokens != [] ==> q < |s| && s[q] == tokens[0][0]
  {
    hide Reads, SkipWs, AllWs, Blank, AllBlank;
    BlankRest(gaps);
    BlankIsWs(gaps[0]);
    SkipOver(s, p, gaps[0], SpacedK(tokens, gaps[1..]));
    q := p + |gaps[0]|;
    if tokens == [] {
      AtTheEnd(s, q);
    } else {
      assert [tokens[0]] + tokens[1..] == tokens;
      Take(s, q, tokens[0], tokens[1..], gaps[1..]);
      Peel(s, q, tokens[0], BehindK(tokens[1..], gaps[1..]));
      assert s[q + 0] == tokens[0][0];
    }
    SkipNone(s, q);
  }

  lemma AtTheEnd(s: Bytes, q: nat)
    requires q <= |s| && Reads(s, q, Rest([]))
    ensures q == |s|
  {
  }

  /** The byte behind a value ends a number. */
  lemma BehindEnds(s: Bytes, p: nat, tokens: seq<Bytes>, gaps: seq<Bytes>)
    requires |gaps| == |tokens| + 1 && AllBlank(gaps) && Stops(tokens) && Reads(s, p, BehindK(tokens, gaps))
    ensures Ends(Front(s, p))
  {
    hide Reads;
    if gaps[0] == [] {
      var q := SkipGap(s, p, tokens, gaps);
      ThenNothing(SpacedK(tokens, gaps[1..]));
      if tokens != [] {
        assert [tokens[0]] + tokens[1..] == tokens;
        Take(s, p, tokens[0], tokens[1..], gaps[1..]);
        Peel(s, p, tokens[0], BehindK(tokens[1..], gaps[1..]));
        assert s[p + 0] == tokens[0][0];
      } else {
        AtTheEnd(s, p);
      }
    } else {
      Peel(s, p, gaps[0], SpacedK(tokens, gaps[1..]));
      assert s[p + 0] == gaps[0][0] && Blank(gaps[0]);
    }
  }

  // ----- the tokens of a value -----

  lemma FirstToken(v: Value, more: seq<Bytes>)
    requires Spellable(v)
    ensures var ts := Tokens.TokensOf(v) + more;
      ts != [] && Starts(ts) && ts[0] != [] && ts[0][0] != RBRACKET && ts[0][0] != RBRACE
  {
    hide Decimal;
    if v.Double? { DoubleStart(v.text); }
    if v.Int32? { DecimalStart(v.i32); }
    if v.Int64? { DecimalStart(v.i64); }
    if v.Obj? && v.members != [] { hide Tokens.MemberTokens; }
  }

  lemma DecimalStart(n: int)
    ensures Decimal(n) != [] && (Decimal(n)[0] == MINUS || IsDigit(Decimal(n)[0]))
  {
  }

  lemma DoubleStart(t: Bytes)
    requires DoubleText(t)
    ensures t != [] && (t[0] == MINUS || IsDigit(t[0]))
  {
    var a: Bytes, b: Bytes, c: Bytes :| IsDouble(a, b, c) && t == a + b + c;
    assert t[0] == a[0];
  }

  lemma ItemTokensFirst(items: seq<Value>, more: seq<Bytes>)
    requires items != []
    ensures Tokens.ItemTokens(items, true) + more
         == Tokens.TokensOf(items[0]) + (Tokens.ItemTokens(items[1..], false) + more)
    ensures Tokens.ItemTokens(items, false) + more == [[COMMA]] + (Tokens.ItemTokens(items, true) + more)
  {
    hide Tokens.TokensOf, Tokens.ItemTokens;
    var a, b := Tokens.TokensOf(items[0]), Tokens.ItemTokens(items[1..], false);
    ItemTokensUnfold(items);
    RegroupTwo([], a, b, more);
    RegroupTwo([[COMMA]], a, b, more);
  }

  lemma ItemTokensUnfold(items: seq<Value>)
    requires items != []
    ensures var a, b := Tokens.TokensOf(items[0]), Tokens.ItemTokens(items[1..], false);
      Tokens.ItemTokens(items, true) == [] + a + b && Tokens.ItemTokens(items, false) == [[COMMA]] + a + b
  {
    hide Tokens.TokensOf;
  }

  lemma RegroupTwo<T>(c: seq<T>, a: seq<T>, b: seq<T>, more: seq<T>)
    ensures c + a + b + more == c + (a + (b + more)) == c + ([] + a + b + more)
    ensures c == [] ==> c + a + b + more == a + (b + more)
  {
  }

  lemma MemberTokensFirst(ms: seq<Member>, more: seq<Bytes>)
    requires ms != []
    ensures Tokens.MemberTokens(ms, true) + more == [Quoted(ms[0].key)]
      + ([[COLON]] + (Tokens.TokensOf(ms[0].value) + (Tokens.MemberTokens(ms[1..], false) + more)))
    ensures Tokens.MemberTokens(ms, false) + more == [[COMMA]] + (Tokens.MemberTokens(ms, true) + more)
  {
    hide Tokens.TokensOf, Quoted, Tokens.MemberTokens;
    var k, a, b := Quoted(ms[0].key), Tokens.TokensOf(ms[0].value), Tokens.MemberTokens(ms[1..], false);
    MemberTokensUnfold(ms);
    Regroup([], k, [COLON], a, b, more);
    Regroup([[COMMA]], k, [COLON], a, b, more);
  }

  lemma MemberTokensUnfold(ms: seq<Member>)
    requires ms != []
    ensures var k, a, b := Quoted(ms[0].key), Tokens.TokensOf(ms[0].value), Tokens.MemberTokens(ms[1..], false);
      && Tokens.MemberTokens(ms, true) == [] + [k, [COLON]] + a + b
      && Tokens.MemberTokens(ms, false) == [[COMMA]] + [k, [COLON]] + a + b
  {
    hide Tokens.TokensOf, Quoted;
  }

  lemma Regroup<T>(c: seq<T>, k: T, l: T, a: seq<T>, b: seq<T>, more: seq<T>)
    ensures c + [k, l] + a + b + more == c + ([k] + ([l] + (a + (b + more))))
    ensures c + [k, l] + a + b + more == c + ([] + [k, l] + a + b + more)
    ensures c == [] ==> c + ([k] + ([l] + (a + (b + more)))) == [k] + ([l] + (a + (b + more)))
  {
  }

  lemma NoItemTokens(more: seq<Bytes>)
    ensures Tokens.ItemTokens([], false) + more == more && Tokens.ItemTokens([], true) + more == more
    ensures Tokens.MemberTokens([], false) + more == more && Tokens.MemberTokens([], true) + more == more
  {
  }

  lemma ArrayTokens(items: seq<Value>, more: seq<Bytes>)
    ensures Tokens.TokensOf(Arr(items)) + more
         == [[LBRACKET]] + (Tokens.ItemTokens(items, true) + ([[RBRACKET]] + more))
  {
    hide Tokens.ItemTokens;
  }

  lemma ObjectTokens(ms: seq<Member>, more: seq<Bytes>)
    ensures Tokens.TokensOf(Obj(ms)) + more == [[LBRACE]] + (Tokens.MemberTokens(ms, true) + ([[RBRACE]] + more))
  {
    hide Tokens.MemberTokens;
  }

  // ----- reading -----

  ghost predicate AllSpellable(items: seq<Value>) { forall i :: 0 <= i < |items| ==> Spellable(items[i]) }

  ghost predicate MembersSpellable(ms: seq<Member>) {
    forall i :: 0 <= i < |ms| ==> PlainKey(ms[i].key) && Spellable(ms[i].value)
  }

  /** The stream of the tokens, each with its gap behind it, is at p. */
  ghost predicate At(s: Bytes, p: nat, tokens: seq<Bytes>, gaps: seq<Bytes>) {
    |gaps| == |tokens| && AllBlank(gaps) && Reads(s, p, SpacedK(tokens, gaps))
  }

  /** The gap of a token that has been read is at p, and then the stream of the tokens. */
  ghost predicate Behind(s: Bytes, p: nat, tokens: seq<Bytes>, gaps: seq<Bytes>) {
    |gaps| == |tokens| + 1 && AllBlank(gaps) && Reads(s, p, BehindK(tokens, gaps))
  }

  /** A parse that succeeded with v, and the stream goes on behind the last token of v. */
  ghost predicate Went(r: Parsed, v: Value, s: Bytes, more: seq<Bytes>, gaps: seq<Bytes>) {
    r.err == PARSE_OK && r.value == v && Behind(s, r.pos, more, gaps)
  }

  lemma TakeToken(s: Bytes, p: nat, token: Bytes, more: seq<Bytes>, gaps: seq<Bytes>)
    requires At(s, p, [token] + more, gaps)
    ensures |gaps| == |more| + 1 && p + |token| <= |s| && s[p..p + |token|] == token
    ensures Reads(s, p, Then(token, BehindK(more, gaps))) && Behind(s, p + |token|, more, gaps)
  {
    hide Reads, AllBlank, BehindK, SpacedK;
    Take(s, p, token, more, gaps);
    ReadsSlice(s, p, token, BehindK(more, gaps));
  }

  lemma TakeByte(s: Bytes, p: nat, c: Byte, more: seq<Bytes>, gaps: seq<Bytes>)
    requires At(s, p, [[c]] + more, gaps)
    ensures p < |s| && s[p] == c && Behind(s, p + 1, more, gaps)
  {
    hide At, Behind, BehindK, Reads;
    TakeToken(s, p, [c], more, gaps);
    assert s[p] == s[p..p + 1][0];
  }

  lemma Gap(s: Bytes, p: nat, tokens: seq<Bytes>, gaps: seq<Bytes>) returns (q: nat, rest: seq<Bytes>)
    requires Behind(s, p, tokens, gaps) && Starts(tokens)
    ensures p <= |s| && q <= |s| && SkipWs(s, p) == q && SkipWs(s, q) == q && At(s, q, tokens, rest)
    ensures tokens == [] ==> q == |s|
    ensures tokens != [] ==> tokens[0] != [] && q < |s| && s[q] == tokens[0][0]
  {
    hide SkipWs, AllBlank, BehindK, SpacedK;
    rest := gaps[1..];
    q := SkipGap(s, p, tokens, gaps);
  }

  lemma ScalarSpaced(v: Value, s: Bytes, p: nat, more: seq<Bytes>, gaps: seq<Bytes>)
    requires IsScalar(v) && Spellable(v) && (Stops(more) || !v.Double?) && p <= |s|
    requires At(s, p, Tokens.TokensOf(v) + more, gaps)
    ensures Went(ParseValue(s, p), v, s, more, gaps)
  {
    hide ParseValue, Reads, AllBlank, BehindK, SpacedK, At;
    var t := Core(v, Compact, 0);
    TakeToken(s, p, t, more, gaps);
    if v.Double? {
      var a: Bytes, b: Bytes, c: Bytes :| IsDouble(a, b, c) && v.text == a + b + c;
      BehindEnds(s, p + |t|, more, gaps);
      DoubleReads(a, b, c, s, p);
    } else {
      ScalarReadsBack(v, Compact, 0, s, p, BehindK(more, gaps));
    }
  }

  lemma ReadsSlice(s: Bytes, p: nat, t: Bytes, k: Rest)
    requires Reads(s, p, Then(t, k))
    ensures p + |t| <= |s| && s[p..p + |t|] == t
  {
    Peel(s, p, t, k);
  }

  /** A value is read back from its tokens, whatever blanks stand between them. */
  lemma {:induction false} ValueSpaced(v: Value, more: seq<Bytes>, gaps: seq<Bytes>, s: Bytes, p: nat)
    returns (rest: seq<Bytes>)
    requires Spellable(v) && (Stops(more) || !v.Double?) && p <= |s| && At(s, p, Tokens.TokensOf(v) + more, gaps)
    ensures Went(ParseValue(s, p), v, s, more, rest)
    decreases v, 0
  {
    hide At, Went, ParseValue, Tokens.TokensOf, GrammarDoubles;
    if v.Arr? {
      SpellableItems(v);
      rest := ArraySpaced(v.items, more, gaps, s, p);
    } else if v.Obj? {
      SpellableMembers(v);
      rest := ObjectSpaced(v.members, more, gaps, s, p);
    } else {
      ScalarSpaced(v, s, p, more, gaps);
      rest := gaps;
    }
  }

  lemma SpellableItems(v: Value)
    requires Spellable(v) && v.Arr?
    ensures AllSpellable(v.items)
  {
  }

  lemma SpellableMembers(v: Value)
    requires Spellable(v) && v.Obj?
    ensures MembersSpellable(v.members) && Ascending(v.members)
  {
    hide Ascending;
  }

  lemma FirstOfItems(items: seq<Value>, more: seq<Bytes>)
    requires items != [] && AllSpellable(items)
    ensures var ts := Tokens.ItemTokens(items, true) + more;
      ts != [] && Starts(ts) && ts[0] != [] && ts[0][0] != RBRACKET
    ensures Spellable(items[0]) && AllSpellable(items[1..])
  {
    hide Tokens.TokensOf, Tokens.ItemTokens, Spellable;
    ItemTokensFirst(items, more);
    FirstToken(items[0], Tokens.ItemTokens(items[1..], false) + more);
  }

  /** What follows an item: the end of the array, or a comma and the next item. */
  lemma AfterItem(items: seq<Value>, more: seq<Bytes>)
    ensures var ts := Tokens.ItemTokens(items, false) + ([[RBRACKET]] + more);
      && Stops(ts) && Starts(ts)
      && (items == [] ==> ts == [[RBRACKET]] + more)
      && (items != [] ==> ts == [[COMMA]] + (Tokens.ItemTokens(items, true) + ([[RBRACKET]] + more)))
  {
    hide Tokens.TokensOf, Tokens.ItemTokens;
    if items == [] {
      NoItemTokens([[RBRACKET]] + more);
    } else {
      ItemTokensFirst(items, [[RBRACKET]] + more);
    }
  }

  lemma {:induction false} ArraySpaced(items: seq<Value>, more: seq<Bytes>, gaps: seq<Bytes>, s: Bytes, p: nat)
    returns (rest: seq<Bytes>)
    requires AllSpellable(items) && p <= |s| && At(s, p, Tokens.TokensOf(Arr(items)) + more, gaps)
    ensures Went(ParseValue(s, p), Arr(items), s, more, rest)
    decreases items, 3
  {
    hide At, Behind, SkipWs, ParseValue, ArrayLoop, Tokens.TokensOf, Tokens.ItemTokens, AllSpellable;
    var body := Tokens.ItemTokens(items, true) + ([[RBRACKET]] + more);
    ArrayTokens(items, more);
    TakeByte(s, p, LBRACKET, body, gaps);
    ArrayStart(s, p);
    if items == [] {
      NoItemTokens([[RBRACKET]] + more);
      var q, g := Gap(s, p + 1, body, gaps);
      TakeByte(s, q, RBRACKET, more, g);
      rest := g;
    } else {
      FirstOfItems(items, [[RBRACKET]] + more);
      var q, g := Gap(s, p + 1, body, gaps);
      rest := ItemsSpaced(items, [], more, g, s, q);
      assert [] + items == items;
    }
  }

  lemma {:induction false} ItemsSpaced(items: seq<Value>, acc: seq<Value>, more: seq<Bytes>, gaps: seq<Bytes>,
                                       s: Bytes, p: nat)
    returns (rest: seq<Bytes>)
    requires items != [] && AllSpellable(items) && p <= |s|
    requires At(s, p, Tokens.ItemTokens(items, true) + ([[RBRACKET]] + more), gaps)
    ensures Went(ArrayLoop(s, p, acc), Arr(acc + items), s, more, rest)
    decreases items, 2
  {
    hide At, Behind, SkipWs, ParseValue, ArrayLoop, Tokens.TokensOf, Tokens.ItemTokens, AllSpellable, Spellable,
      Starts, Stops;
    var behind := Tokens.ItemTokens(items[1..], false) + ([[RBRACKET]] + more);
    ItemTokensFirst(items, [[RBRACKET]] + more);
    FirstOfItems(items, [[RBRACKET]] + more);
    AfterItem(items[1..], more);
    TakeFirst(acc, items);
    var g := ValueSpaced(items[0], behind, gaps, s, p);
    var q := ParseValue(s, p).pos;
    ArrayIteration(s, p, acc, items[0], q);
    var t, h := Gap(s, q, behind, g);
    if items[1..] == [] {
      TakeByte(s, t, RBRACKET, more, h);
      rest := h;
    } else {
      FirstOfItems(items[1..], [[RBRACKET]] + more);
      TakeByte(s, t, COMMA, Tokens.ItemTokens(items[1..], true) + ([[RBRACKET]] + more), h);
      var u, i := Gap(s, t + 1, Tokens.ItemTokens(items[1..], true) + ([[RBRACKET]] + more), h);
      rest := ItemsSpaced(items[1..], acc + [items[0]], more, i, s, u);
    }
  }

  // ----- objects -----

  lemma FirstOfMembers(ms: seq<Member>, more: seq<Bytes>)
    requires ms != [] && MembersSpellable(ms)
    ensures var ts := Tokens.MemberTokens(ms, true) + more; ts != [] && Starts(ts) && ts[0][0] == QUOTE
    ensures PlainKey(ms[0].key) && Spellable(ms[0].value) && MembersSpellable(ms[1..])
  {
    hide Tokens.TokensOf, Tokens.MemberTokens, Spellable, PlainKey;
    MemberTokensFirst(ms, more);
  }

  lemma AfterMember(ms: seq<Member>, more: seq<Bytes>)
    ensures var ts := Tokens.MemberTokens(ms, false) + ([[RBRACE]] + more);
      && Stops(ts) && Starts(ts)
      && (ms == [] ==> ts == [[RBRACE]] + more)
      && (ms != [] ==> ts == [[COMMA]] + (Tokens.MemberTokens(ms, true) + ([[RBRACE]] + more)))
  {
    hide Tokens.TokensOf, Tokens.MemberTokens;
    if ms == [] {
      NoItemTokens([[RBRACE]] + more);
    } else {
      MemberTokensFirst(ms, [[RBRACE]] + more);
    }
  }

  lemma QuotedScans(key: Bytes, s: Bytes, p: nat, k: Rest)
    requires PlainKey(key) && Reads(s, p, Then(Quoted(key), k))
    ensures p < |s| && s[p] == QUOTE && p + |key| + 2 <= |s|
    ensures ParseChars(s, p + 1, []) == Scanned(PARSE_OK, true, key, p + |Quoted(key)|)
  {
    hide Reads, Then, ParseChars, PlainKey;
    ThenSplits([QUOTE] + key, [QUOTE], k);
    ThenSplits([QUOTE], key, Then([QUOTE], k));
    PeelOne(s, p, QUOTE, Then(key, Then([QUOTE], k)));
    KeyTextReadsBack(key, s, p + 1, k);
  }

  lemma KeyWithGaps(s: Bytes, p: nat, key: Bytes, q: nat, c: nat)
    requires p < |s| && s[p] == QUOTE && q <= |s|
    requires ParseChars(s, p + 1, []) == Scanned(PARSE_OK, true, key, q)
    requires SkipWs(s, q) == c && c < |s| && s[c] == COLON
    ensures ParseKey(s, p) == Scanned(PARSE_OK, true, key, SkipWs(s, c + 1))
  {
    hide ParseChars, SkipWs;
  }

  /** A key, its colon, and the gaps around the colon. */
  lemma KeySpaced(key: Bytes, after: seq<Bytes>, gaps: seq<Bytes>, s: Bytes, p: nat)
    returns (u: nat, rest: seq<Bytes>)
    requires PlainKey(key) && Starts(after) && p <= |s| && At(s, p, [Quoted(key)] + ([[COLON]] + after), gaps)
    ensures u <= |s| && ParseKey(s, p) == Scanned(PARSE_OK, true, key, u) && At(s, u, after, rest)
  {
    hide At, Behind, BehindK, Reads, Then, SkipWs, ParseChars, ParseKey, PlainKey, Quoted;
    var next := [[COLON]] + after;
    TakeToken(s, p, Quoted(key), next, gaps);
    QuotedScans(key, s, p, BehindK(next, gaps));
    var c, g := Gap(s, p + |Quoted(key)|, next, gaps);
    TakeByte(s, c, COLON, after, g);
    u, rest := Gap(s, c + 1, after, g);
    KeyWithGaps(s, p, key, p + |Quoted(key)|, c);
  }

  lemma {:induction false} ObjectSpaced(ms: seq<Member>, more: seq<Bytes>, gaps: seq<Bytes>, s: Bytes, p: nat)
    returns (rest: seq<Bytes>)
    requires MembersSpellable(ms) && Ascending(ms) && p <= |s| && At(s, p, Tokens.TokensOf(Obj(ms)) + more, gaps)
    ensures Went(ParseValue(s, p), Obj(ms), s, more, rest)
    decreases ms, 3
  {
    hide At, Behind, SkipWs, ParseValue, ObjectLoop, Tokens.TokensOf, Tokens.MemberTokens, MembersSpellable, Ascending;
    var body := Tokens.MemberTokens(ms, true) + ([[RBRACE]] + more);
    ObjectTokens(ms, more);
    TakeByte(s, p, LBRACE, body, gaps);
    ObjectStart(s, p);
    if ms == [] {
      NoItemTokens([[RBRACE]] + more);
      var q, g := Gap(s, p + 1, body, gaps);
      TakeByte(s, q, RBRACE, more, g);
      rest := g;
    } else {
      FirstOfMembers(ms, [[RBRACE]] + more);
      var q, g := Gap(s, p + 1, body, gaps);
      assert [] + ms == ms;
      rest := MembersSpaced(ms, [], more, g, s, q);
    }
  }

  lemma {:induction false} MembersSpaced(ms: seq<Member>, acc: seq<Member>, more: seq<Bytes>, gaps: seq<Bytes>,
                                         s: Bytes, p: nat)
    returns (rest: seq<Bytes>)
    requires ms != [] && MembersSpellable(ms) && Ascending(acc + ms) && p <= |s|
    requires At(s, p, Tokens.MemberTokens(ms, true) + ([[RBRACE]] + more), gaps)
    ensures Went(ObjectLoop(s, p, acc), Obj(acc + ms), s, more, rest)
    decreases ms, 2
  {
    hide At, Behind, SkipWs, ParseValue, ParseKey, ObjectLoop, Tokens.TokensOf, Tokens.MemberTokens, MembersSpellable,
      Spellable, PlainKey, Quoted, Starts, Stops, Ascending, HasKey, Insert;
    var m, behind := ms[0], Tokens.MemberTokens(ms[1..], false) + ([[RBRACE]] + more);
    MemberTokensFirst(ms, [[RBRACE]] + more);
    FirstOfMembers(ms, [[RBRACE]] + more);
    AfterMember(ms[1..], more);
    TakeFirst(acc, ms);
    NewLastKey(acc, ms);
    FirstToken(m.value, behind);
    var v, f := KeySpaced(m.key, Tokens.TokensOf(m.value) + behind, gaps, s, p);
    var g := ValueSpaced(m.value, behind, f, s, v);
    var q := ParseValue(s, v).pos;
    ObjectIteration(s, p, acc, m, q);
    var t, h := Gap(s, q, behind, g);
    if ms[1..] == [] {
      TakeByte(s, t, RBRACE, more, h);
      rest := h;
    } else {
      var next := Tokens.MemberTokens(ms[1..], true) + ([[RBRACE]] + more);
      FirstOfMembers(ms[1..], [[RBRACE]] + more);
      TakeByte(s, t, COMMA, next, h);
      var u, i := Gap(s, t + 1, next, h);
      rest := MembersSpaced(ms[1..], acc + [m], more, i, s, u);
    }
  }

  // ----- whole documents -----

  /** Every spelling of a value is read as that value: its tokens, any run of the bytes 0x20, 0x09, 0x0A
      and 0x0D before the first and after each of them, doubles in any form of the grammar. */
  lemma SpellingReads(v: Value, before: Bytes, gaps: seq<Bytes>, held: Value)
    requires Spellable(v) && |gaps| == |Tokens.TokensOf(v)| && Blank(before) && AllBlank(gaps)
    ensures var s := before + Spaced(Tokens.TokensOf(v), gaps); Parse(s, held) == Parsed(PARSE_OK, v, |s|)
  {
    hide SkipWs, ParseValue, Tokens.TokensOf, Spellable, AllBlank, Blank, Spaced, AllWs, Reads;
    var ts := Tokens.TokensOf(v);
    var s := before + Spaced(ts, gaps);
    assert ts + [] == ts;
    FirstToken(v, []);
    assert Reads(s, 0, Then(before, SpacedK(ts, gaps))) by { WholeText(s, before, SpacedK(ts, gaps)); }
    assert Behind(s, 0, ts, [before] + gaps) by {
      assert ([before] + gaps)[1..] == gaps;
      BlankFirst(before, gaps);
    }
    var p, g := Gap(s, 0, ts, [before] + gaps);
    var h := ValueSpaced(v, [], g, s, p);
    var q := ParseValue(s, p).pos;
    var e, i := Gap(s, q, [], h);
  }

  lemma WholeText(s: Bytes, before: Bytes, k: Rest)
    requires s == before + k.bytes
    ensures Reads(s, 0, Then(before, k))
  {
    assert s[0..] == s;
  }

  lemma BlankFirst(before: Bytes, gaps: seq<Bytes>)
    requires Blank(before) && AllBlank(gaps)
    ensures AllBlank([before] + gaps)
  {
    hide Blank;
  }
}
