/** Which numbers, literals and strings the reader accepts, what they are read as, and what it reports for
    the others (JsonServer/Reader.h). */
module Scalars {
  import opened Octets
  import opened JsonValue
  import opened ReaderSpec
  import opened Printer
  import opened RoundTrip
  import opened Spacing

  // ----- integers -----

  /** The number that an integer part denotes. */
  function Denoted(w: Bytes): int
    requires IsWhole(w)
  {
    if w[0] == 0x2D then -(Numeral(w[1..]) as int) else Numeral(w)
  }

  /** The suffix of a width: i32 or i64. */
  function WidthSuffix(wide: bool): Bytes {
    if wide then [0x69, 0x36, 0x34] else [0x69, 0x33, 0x32]
  }

  lemma StrtolIs(s: Bytes, p: nat, w: Bytes)
    requires IsWhole(w) && p + |w| <= |s| && s[p..p + |w|] == w && !IsDigit(Front(s, p + |w|))
    ensures Strtol(s, p) == Denoted(w)
  {
    hide AllDigits;
    var q, n := p + |w|, if w[0] == 0x2D then 1 else 0;
    WholeDigits(w, n);
    SubSlice(s, p, |w|, n, |w|);
    DigitsAt(s, p + n, q, w[n..|w|]);
    DigitsEndIs(s, p + n, q);
    assert s[p] == s[p..q][0];
    assert w[n..|w|] == if n == 1 then w[1..] else w;
    assert n == 0 ==> IsDigit(s[p + n]);
  }

  lemma WholeStops(s: Bytes, p: nat, w: Bytes)
    requires IsWhole(w) && p + |w| <= |s| && s[p..p + |w|] == w
    requires var b := Front(s, p + |w|); !IsDigit(b) && b != DOT && b != 0x65 && b != 0x45
    ensures ScanNumber(s, p) == ScanSuffix(s, p + |w|, Untyped) && Strtol(s, p) == Denoted(w)
    ensures ParseValue(s, p) == ParseNumber(s, p)
  {
    hide ScanInteger, ScanSuffix, IsWhole;
    WholeScans(s, p, w);
    StrtolIs(s, p, w);
  }

  /** An integer part with a suffix is read as the number it denotes, or found too big for its width. */
  lemma IntegerReads(w: Bytes, wide: bool, s: Bytes, p: nat)
    requires IsWhole(w) && p + |w| + 3 <= |s| && s[p..p + |w|] == w && s[p + |w|..p + |w| + 3] == WidthSuffix(wide)
    ensures var n, q := Denoted(w), p + |w| + 3;
      ParseValue(s, p)
        == if n < -0x8000_0000_0000_0000 || n > 0x7FFF_FFFF_FFFF_FFFF then
             Parsed(PARSE_NUMBER_TOO_BIG, if wide then Int64(0) else Int32(0), q)
           else if wide then Parsed(PARSE_OK, Int64(n), q)
           else if n < -0x8000_0000 || n > 0x7FFF_FFFF then Parsed(PARSE_NUMBER_TOO_BIG, Null, q)
           else Parsed(PARSE_OK, Int32(n), q)
  {
    hide ScanNumber, Strtol, ParseValue, IsWhole;
    var a := p + |w|;
    assert s[a] == s[a..a + 3][0] && s[a + 1] == s[a..a + 3][1] && s[a + 2] == s[a..a + 3][2];
    WholeStops(s, p, w);
  }

  /** An integer without a suffix is no value, and one beyond 64 bits is too big. */
  lemma BareInteger(w: Bytes, s: Bytes, p: nat)
    requires IsWhole(w) && p + |w| <= |s| && s[p..p + |w|] == w && Ends(Front(s, p + |w|))
    ensures var n := Denoted(w); var r := ParseValue(s, p);
      r.err == if n < -0x8000_0000_0000_0000 || n > 0x7FFF_FFFF_FFFF_FFFF then PARSE_NUMBER_TOO_BIG
               else PARSE_INVALID_VALUE
  {
    hide ScanNumber, Strtol, ParseValue, IsWhole;
    WholeStops(s, p, w);
  }

  // ----- only these numbers -----

  lemma WholeOnly(s: Bytes, p: nat)
    requires p <= |s| && ScanInteger(s, p).ok
    ensures IsWhole(s[p..ScanInteger(s, p).pos]) && ScanInteger(s, p).ty == Untyped
  {
    var q := ScanInteger(s, p).pos;
    var t, a := s[p..q], if s[p] == MINUS then p + 1 else p;
    SubSlice(s, p, q - p, a - p, q - p);
    var d := if t[0] == 0x2D then t[1..] else t;
    assert d == t[a - p..q - p] == s[a..q];
    assert d[0] == s[a];
  }

  lemma FractionOnly(s: Bytes, p: nat, ty: NumberType)
    requires p <= |s| && ScanFraction(s, p, ty).ok
    ensures var r := ScanFraction(s, p, ty);
      if r.pos == p then r.ty == ty else r.ty == AsDouble && IsFraction(s[p..r.pos])
  {
    var q := ScanFraction(s, p, ty).pos;
    if q > p {
      var t := s[p..q];
      SubSlice(s, p, q - p, 1, q - p);
      assert t[1..] == t[1..q - p] == s[p + 1..q] == [s[p + 1]] + s[p + 2..q];
    }
  }

  lemma ExponentOnly(s: Bytes, p: nat, ty: NumberType)
    requires p <= |s| && ScanExponent(s, p, ty).ok
    ensures var r := ScanExponent(s, p, ty);
      if r.pos == p then r.ty == ty else r.ty == AsDouble && IsExponent(s[p..r.pos])
  {
    hide IsExponent;
    var q := ScanExponent(s, p, ty).pos;
    if q > p {
      var a := if s[p + 1] == PLUS || s[p + 1] == MINUS then p + 2 else p + 1;
      assert AllDigits(s[a..q]) by { assert s[a..q] == [s[a]] + s[a + 1..q]; }
      ExponentSlice(s, p, a, q);
    }
  }

  lemma ExponentSlice(s: Bytes, p: nat, a: nat, q: nat)
    requires p + 1 < |s| && (s[p] == 0x65 || s[p] == 0x45)
    requires a == if s[p + 1] == PLUS || s[p + 1] == MINUS then p + 2 else p + 1
    requires a < q <= |s| && AllDigits(s[a..q])
    ensures IsExponent(s[p..q])
  {
    hide AllDigits;
    var t, n := s[p..q], a - p;
    assert t[0] == s[p] && t[1] == s[p + 1];
    assert t[n..] == s[a..q];
  }

  lemma SuffixOnly(s: Bytes, p: nat, ty: NumberType)
    requires p <= |s| && ScanSuffix(s, p, ty).ok && (ty == Untyped || ty == AsDouble)
    ensures var r := ScanSuffix(s, p, ty);
      if r.pos == p then r.ty == ty
      else ty == Untyped && (r.ty == AsInt32 || r.ty == AsInt64) && s[p..r.pos] == WidthSuffix(r.ty == AsInt64)
  {
    if Front(s, p) == LOWER_I {
      assert s[p + 1] == 0x33 || s[p + 1] == 0x36;
      assert s[p..p + 3] == [s[p], s[p + 1], s[p + 2]];
    }
  }

  /** What the scan of a number has seen when it succeeds: an integer part, and a fraction, an exponent or
      both, or a suffix. */
  lemma ScanShape(s: Bytes, p: nat) returns (w: Bytes, f: Bytes, e: Bytes)
    requires p <= |s| && ScanNumber(s, p).ok
    ensures var r := ScanNumber(s, p);
      && IsWhole(w) && (f == [] || IsFraction(f)) && (e == [] || IsExponent(e))
      && match r.ty
         case AsDouble => (f != [] || e != []) && s[p..r.pos] == w + f + e
         case Untyped => f == [] && e == []
         case _ => s[p..r.pos] == w + WidthSuffix(r.ty == AsInt64)
  {
    hide IsWhole, IsFraction, IsExponent, ScanInteger, ScanFraction, ScanExponent, ScanSuffix;
    var a := ScanInteger(s, p);
    WholeOnly(s, p);
    var b := ScanFraction(s, a.pos, a.ty);
    FractionOnly(s, a.pos, a.ty);
    var c := ScanExponent(s, b.pos, b.ty);
    ExponentOnly(s, b.pos, b.ty);
    var d := ScanSuffix(s, c.pos, c.ty);
    SuffixOnly(s, c.pos, c.ty);
    w, f, e := s[p..a.pos], s[a.pos..b.pos], s[b.pos..c.pos];
    JoinSlices(s, p, a.pos, b.pos, c.pos);
    JoinSlices(s, p, a.pos, a.pos, d.pos);
  }

  lemma JoinSlices(s: Bytes, p: nat, a: nat, b: nat, c: nat)
    requires p <= a <= b <= c <= |s|
    ensures s[p..a] + s[a..b] + s[b..c] == s[p..c]
    ensures b == a ==> s[p..a] + s[a..c] == s[p..c]
  {
  }

  /** Whatever number the reader accepts is spelled by the grammar, up to where it stops: a double with a
      fraction or an exponent, or an integer with the suffix of its width. */
  lemma NumberAcceptedOnly(s: Bytes, p: nat) returns (w: Bytes)
    requires p <= |s| && ParseNumber(s, p).err == PARSE_OK
    ensures var r := ParseNumber(s, p);
      match r.value
      case Double(t) => DoubleText(t) && s[p..r.pos] == t
      case Int32(n) => IsWhole(w) && s[p..r.pos] == w + WidthSuffix(false) && Denoted(w) == n
      case Int64(n) => IsWhole(w) && s[p..r.pos] == w + WidthSuffix(true) && Denoted(w) == n
      case _ => false
  {
    hide IsWhole, IsFraction, IsExponent, ScanNumber, Denoted, Strtol;
    var f, e;
    w, f, e := ScanShape(s, p);
    var r := ScanNumber(s, p);
    if r.ty == AsDouble {
      assert IsDouble(w, f, e);
    } else {
      Suffixed(s, p, r.pos, w, WidthSuffix(r.ty == AsInt64));
      StrtolIs(s, p, w);
    }
  }

  lemma Suffixed(s: Bytes, p: nat, q: nat, w: Bytes, suffix: Bytes)
    requires p <= q <= |s| && s[p..q] == w + suffix && suffix != [] && !IsDigit(suffix[0])
    ensures p + |w| < q && s[p..p + |w|] == w && !IsDigit(Front(s, p + |w|))
  {
    assert |s[p..q]| == |w| + |suffix|;
    SubSlice(s, p, q - p, 0, |w|);
    assert s[p + |w|] == s[p..q][|w|];
  }

  // ----- what starts a value -----

  /** A byte that starts no value, or a minus without a digit, is an invalid value. */
  lemma NoValueStarts(s: Bytes, p: nat)
    requires p <= |s|
    ensures var b := Front(s, p);
      && (b == 0x2D && !IsDigit(Front(s, p + 1)) ==> ParseValue(s, p) == Parsed(PARSE_INVALID_VALUE, Null, p + 1))
      && (b != 0x2D && !IsDigit(b) && b !in {0x6E, 0x74, 0x66, 0x22, 0x5B, 0x7B} ==>
            ParseValue(s, p) == Parsed(PARSE_INVALID_VALUE, Null, p))
  {
  }

  lemma MatchIff(s: Bytes, p: nat, lit: Bytes)
    requires p <= |s|
    ensures MatchLength(s, p, lit) == |lit| <==> p + |lit| <= |s| && s[p..p + |lit|] == lit
  {
    hide MatchLength;
    var q := p + |lit|;
    if q <= |s| && s[p..q] == lit {
      forall i | 0 <= i < |lit|
        ensures s[p + i] == lit[i]
      {
        assert s[p..q][i] == lit[i];
      }
      MatchLengthIs(s, p, lit, |lit|);
    }
  }

  /** A literal must be there to its last byte. */
  lemma LiteralReads(s: Bytes, p: nat, lit: Bytes, v: Value)
    requires || (lit == [0x6E, 0x75, 0x6C, 0x6C] && v == Null) || (lit == [0x74, 0x72, 0x75, 0x65] && v == Bool(true))
             || (lit == [0x66, 0x61, 0x6C, 0x73, 0x65] && v == Bool(false))
    requires p < |s| && s[p] == lit[0]
    ensures var r, q := ParseValue(s, p), p + |lit|;
      if q <= |s| && s[p..q] == lit then r == Parsed(PARSE_OK, v, q)
      else r.err == PARSE_EXPECT_VALUE && r.value == Null
  {
    hide MatchLength;
    MatchIff(s, p, lit);
    LiteralStarts(s, p, lit, v);
  }

  lemma LiteralStarts(s: Bytes, p: nat, lit: Bytes, v: Value)
    requires || (lit == NULL_LITERAL && v == Null) || (lit == TRUE_LITERAL && v == Bool(true))
             || (lit == FALSE_LITERAL && v == Bool(false))
    requires p < |s| && s[p] == lit[0]
    ensures ParseValue(s, p) == ParseLiteral(s, p, lit, v)
  {
    hide ParseLiteral;
  }

  // ----- strings -----

  /** Escaped text is scanned to its end, whatever follows. */
  lemma {:induction false} ScansEscaped(t: Bytes, s: Bytes, p: nat, buf: Bytes, k: Rest) returns (q: nat)
    requires Reads(s, p, Then(EscapeString(t), k))
    ensures q <= |s| && Reads(s, q, k) && ParseChars(s, p, buf) == ParseChars(s, q, buf + t)
    decreases t
  {
    hide Then, Reads, EscapeByte, EscapeString, ParseChars;
    EscapeFirst(t);
    if t == [] {
      ThenNothing(k);
      assert buf + [] == buf;
      AtMostEnd(s, p, k);
      q := p;
    } else {
      var e := EscapeByte(t[0]);
      ThenSplits(e, EscapeString(t[1..]), k);
      EscapedReadsBack(t[0], s, p, buf, Then(EscapeString(t[1..]), k));
      TakeFirst(buf, t);
      q := ScansEscaped(t[1..], s, p + |e|, buf + [t[0]], k);
    }
  }

  lemma AtMostEnd(s: Bytes, p: nat, k: Rest)
    requires Reads(s, p, k)
    ensures p <= |s|
  {
  }

  /** Hexadecimal digits in either case. */
  lemma HexDigitsAre(b: Byte)
    ensures IsHex(b) <==> 0x30 <= b <= 0x39 || 0x41 <= b <= 0x46 || 0x61 <= b <= 0x66
    ensures IsHex(b) ==>
      HexDigit(b) == if b <= 0x39 then b - 0x30 else if b <= 0x46 then b - 0x41 + 10 else b - 0x61 + 10
  {
  }

  /** The four digits at p are hexadecimal. */
  predicate FourHex(x: Bytes) { |x| >= 4 && IsHex(x[0]) && IsHex(x[1]) && IsHex(x[2]) && IsHex(x[3]) }

  /** The code of four hexadecimal digits. */
  function Code(x: Bytes): nat
    requires FourHex(x)
  {
    HexDigit(x[0]) * 0x1000 + HexDigit(x[1]) * 0x100 + HexDigit(x[2]) * 0x10 + HexDigit(x[3])
  }

  // ----- every spelling of a string -----

  /** The pieces of a string: a byte as it is, an escape of one letter, a unit, or a surrogate pair. */
  datatype Piece = Raw(b: Byte) | Short(letter: Byte) | Unit(digits: Bytes) | Pair(high: Bytes, low: Bytes)

  predicate IsPiece(x: Piece) {
    match x
    case Raw(b) => b >= 0x20 && b != 0x22 && b != 0x5C
    case Short(c) => c in {0x22, 0x5C, 0x2F, 0x62, 0x66, 0x6E, 0x72, 0x74}
    case Unit(u) => |u| == 4 && FourHex(u) && !(0xD800 <= Code(u) <= 0xDBFF)
    case Pair(h, l) =>
      && |h| == 4 && FourHex(h) && 0xD800 <= Code(h) <= 0xDBFF
      && |l| == 4 && FourHex(l) && 0xDC00 <= Code(l) <= 0xDFFF
  }

  function Spelling(x: Piece): Bytes {
    match x
    case Raw(b) => [b]
    case Short(c) => [0x5C, c]
    case Unit(u) => [0x5C, 0x75] + u
    case Pair(h, l) => [0x5C, 0x75] + (h + ([0x5C, 0x75] + l))
  }

  lemma CodeBound(x: Bytes)
    requires FourHex(x)
    ensures Code(x) < 0x1_0000
  {
  }

  /** The bytes that a piece stands for. */
  function Meaning(x: Piece): Bytes
    requires IsPiece(x)
  {
    match x
    case Raw(b) => [b]
    case Short(c) =>
      [if c == 0x62 then 0x08 else if c == 0x66 then 0x0C else if c == 0x6E then 0x0A
       else if c == 0x72 then 0x0D else if c == 0x74 then 0x09 else c]
    case Unit(u) => CodeBound(u); EncodeUtf8(Code(u))
    case Pair(h, l) => EncodeUtf8(0x1_0000 + (Code(h) - 0xD800) * 0x400 + (Code(l) - 0xDC00))
  }

  predicate ArePieces(xs: seq<Piece>) { forall i :: 0 <= i < |xs| ==> IsPiece(xs[i]) }

  function Spellings(xs: seq<Piece>): Bytes { if xs == [] then [] else Spelling(xs[0]) + Spellings(xs[1..]) }

  function Meanings(xs: seq<Piece>): Bytes
    requires ArePieces(xs)
  {
    if xs == [] then [] else Meaning(xs[0]) + Meanings(xs[1..])
  }

  /** Four digits at p. */
  lemma HexReads(s: Bytes, p: nat, x: Bytes)
    requires |x| == 4 && FourHex(x) && p + 4 <= |s| && s[p..p + 4] == x
    ensures ParseHex(s, p, 0, p + 4) == Hex(true, Code(x), p + 4)
  {
    hide ParseHex;
    HexFails(s, p);
    assert s[p..][..4] == x;
  }

  lemma UnitReads(u: Bytes, s: Bytes, p: nat)
    requires IsPiece(Unit(u)) && p + 6 <= |s| && s[p..p + 6] == Spelling(Unit(u))
    ensures s[p] == 0x5C && ParseEscape(s, p + 1) == Escape(PARSE_OK, Meaning(Unit(u)), p + 6)
  {
    hide ParseHex, Code, FourHex, EncodeUtf8;
    var t := s[p..p + 6];
    assert s[p] == t[0] && s[p + 1] == t[1] && s[p + 2..p + 6] == t[2..6] == u;
    HexReads(s, p + 2, u);
  }

  lemma PairSlices(h: Bytes, l: Bytes, t: Bytes)
    requires |h| == |l| == 4 && t == [0x5C, 0x75] + (h + ([0x5C, 0x75] + l))
    ensures t[0] == t[6] == 0x5C && t[1] == t[7] == 0x75 && t[2..6] == h && t[8..12] == l
  {
  }

  lemma PairReads(h: Bytes, l: Bytes, s: Bytes, p: nat)
    requires IsPiece(Pair(h, l)) && p + 12 <= |s| && s[p..p + 12] == Spelling(Pair(h, l))
    ensures s[p] == 0x5C && ParseEscape(s, p + 1) == Escape(PARSE_OK, Meaning(Pair(h, l)), p + 12)
  {
    hide ParseHex, Code, FourHex, EncodeUtf8;
    var t := s[p..p + 12];
    PairSlices(h, l, t);
    SubSlice(s, p, 12, 2, 6);
    SubSlice(s, p, 12, 8, 12);
    assert s[p] == t[0] && s[p + 1] == t[1] && s[p + 6] == t[6] && s[p + 7] == t[7];
    HexReads(s, p + 2, h);
    HexReads(s, p + 8, l);
  }

  lemma PieceReads(x: Piece, s: Bytes, p: nat, buf: Bytes)
    requires IsPiece(x) && p + |Spelling(x)| <= |s| && s[p..p + |Spelling(x)|] == Spelling(x)
    ensures ParseChars(s, p, buf) == ParseChars(s, p + |Spelling(x)|, buf + Meaning(x))
  {
    hide ParseEscape, Meaning, Code;
    var q := p + |Spelling(x)|;
    assert s[p] == s[p..q][0];
    match x
    case Raw(b) => assert Meaning(x) == [b] by { RawMeans(b); }
    case Short(c) =>
      assert s[p + 1] == s[p..q][1];
      ShortReads(c, s, p);
    case Unit(u) => UnitReads(u, s, p);
    case Pair(h, l) => PairReads(h, l, s, p);
  }

  lemma RawMeans(b: Byte)
    requires IsPiece(Raw(b))
    ensures Meaning(Raw(b)) == [b]
  {
  }

  lemma ShortReads(c: Byte, s: Bytes, p: nat)
    requires IsPiece(Short(c)) && p + 2 <= |s| && s[p + 1] == c
    ensures ParseEscape(s, p + 1) == Escape(PARSE_OK, Meaning(Short(c)), p + 2)
  {
  }

  lemma {:induction false} PiecesRead(xs: seq<Piece>, s: Bytes, p: nat, buf: Bytes, k: Rest) returns (q: nat)
    requires ArePieces(xs) && Reads(s, p, Then(Spellings(xs), k))
    ensures q <= |s| && Reads(s, q, k) && ParseChars(s, p, buf) == ParseChars(s, q, buf + Meanings(xs))
    decreases |xs|
  {
    hide Then, Reads, Spelling, Meaning, IsPiece, ParseChars;
    if xs == [] {
      ThenNothing(k);
      assert buf + [] == buf;
      AtMostEnd(s, p, k);
      q := p;
    } else {
      var a, b := Spelling(xs[0]), Spellings(xs[1..]);
      ThenSplits(a, b, k);
      ReadsSlice(s, p, a, Then(b, k));
      Peel(s, p, a, Then(b, k));
      PieceReads(xs[0], s, p, buf);
      assert buf + Meaning(xs[0]) + Meanings(xs[1..]) == buf + Meanings(xs);
      q := PiecesRead(xs[1..], s, p + |a|, buf + Meaning(xs[0]), k);
    }
  }

  /** Every spelling of a string is read as the bytes that its pieces stand for. */
  lemma StringReads(xs: seq<Piece>, s: Bytes, p: nat, k: Rest)
    requires ArePieces(xs) && Reads(s, p, Then([QUOTE], Then(Spellings(xs), Then([QUOTE], k))))
    ensures p <= |s| && ParseValue(s, p).err == PARSE_OK && ParseValue(s, p).value == Str(Meanings(xs))
    ensures Reads(s, ParseValue(s, p).pos, k)
  {
    hide Then, Reads, ParseChars, Spellings, Meanings, ArePieces;
    PeelOne(s, p, QUOTE, Then(Spellings(xs), Then([QUOTE], k)));
    var q := PiecesRead(xs, s, p + 1, [], Then([QUOTE], k));
    PeelOne(s, q, QUOTE, k);
    QuoteCloses(s, q, [] + Meanings(xs));
    assert [] + Meanings(xs) == Meanings(xs);
  }

  // ----- strings that break off -----

  /** The error that the rest of a string starts with, or PARSE_OK when it starts with none. */
  function FaultOf(x: Bytes): ParseError {
    if x == [] then PARSE_OK
    else if x[0] == 0 then PARSE_MISS_QUOTATION_MARK
    else if x[0] < 0x20 then PARSE_INVALID_STRING_CHAR
    else if x[0] != 0x5C then PARSE_OK
    else if |x| == 1 then PARSE_INVALID_STRING_ESCAPE
    else if x[1] in {0x22, 0x5C, 0x2F, 0x62, 0x66, 0x6E, 0x72, 0x74} then PARSE_OK
    else if x[1] != 0x75 then PARSE_INVALID_STRING_ESCAPE
    else if !FourHex(x[2..]) then PARSE_INVALID_UNICODE_HEX
    else if !(0xD800 <= Code(x[2..]) <= 0xDBFF) then PARSE_OK
    else if |x| < 8 || x[6] != 0x5C || x[7] != 0x75 then PARSE_INVALID_UNICODE_SURROGATE
    else if !FourHex(x[8..]) then PARSE_INVALID_UNICODE_HEX
    else if !(0xDC00 <= Code(x[8..]) <= 0xDFFF) then PARSE_INVALID_UNICODE_SURROGATE
    else PARSE_OK
  }

  lemma HexFails(s: Bytes, p: nat)
    requires p <= |s|
    ensures var h := ParseHex(s, p, 0, p + 4);
      if FourHex(s[p..]) then h == Hex(true, Code(s[p..]), p + 4) else !h.ok
  {
    var x := s[p..];
    assert forall i :: 0 <= i < |x| ==> x[i] == s[p + i];
    if p < |s| && IsHex(s[p]) {
      assert ParseHex(s, p, 0, p + 4) == ParseHex(s, p + 1, HexDigit(s[p]), p + 4);
      HexFailsThree(s, p + 1, HexDigit(s[p]));
    }
  }

  lemma HexFailsThree(s: Bytes, p: nat, u: nat)
    requires p <= |s|
    ensures var h := ParseHex(s, p, u, p + 3);
      if p + 3 <= |s| && IsHex(s[p]) && IsHex(s[p + 1]) && IsHex(s[p + 2]) then
        h == Hex(true, ((u * 16 + HexDigit(s[p])) * 16 + HexDigit(s[p + 1])) * 16 + HexDigit(s[p + 2]), p + 3)
      else !h.ok
  {
    if p < |s| && IsHex(s[p]) {
      var v := u * 16 + HexDigit(s[p]);
      assert ParseHex(s, p, u, p + 3) == ParseHex(s, p + 1, v, p + 3);
      if p + 1 < |s| && IsHex(s[p + 1]) {
        assert ParseHex(s, p + 1, v, p + 3) == ParseHex(s, p + 2, v * 16 + HexDigit(s[p + 1]), p + 3);
      }
    }
  }

  lemma UnicodeFault(s: Bytes, p: nat)
    requires p + 2 <= |s| && s[p] == 0x5C && s[p + 1] == 0x75
    ensures var e := ParseUnicode(s, p + 2); e.err == FaultOf(s[p..])
  {
    hide ParseHex, Code, FourHex, EncodeUtf8;
    var x := s[p..];
    assert x[2..] == s[p + 2..] && (|x| >= 8 ==> x[8..] == s[p + 8..]);
    assert forall i :: 0 <= i < |x| ==> x[i] == s[p + i];
    HexFails(s, p + 2);
    FourAreThere(x[2..]);
    if |x| >= 8 { HexFails(s, p + 8); }
  }

  lemma FourAreThere(x: Bytes)
    ensures FourHex(x) ==> |x| >= 4
  {
  }

  /** The scan of a string reports the error with which its rest starts. */
  lemma CharsFault(s: Bytes, p: nat, buf: Bytes)
    requires p <= |s| && FaultOf(s[p..]) != PARSE_OK
    ensures var r := ParseChars(s, p, buf); r.err == FaultOf(s[p..]) && !r.closed
  {
    hide ParseUnicode, FourHex, Code;
    var x := s[p..];
    assert forall i :: 0 <= i < |x| ==> x[i] == s[p + i];
    if x[0] == 0x5C && |x| > 1 && x[1] == 0x75 { UnicodeFault(s, p); }
  }

  /** A string that breaks after some escaped text is no value. */
  lemma StringFault(t: Bytes, fault: Bytes, s: Bytes, p: nat)
    requires Reads(s, p, Then([QUOTE], Then(EscapeString(t), Rest(fault)))) && FaultOf(fault) != PARSE_OK
    ensures p <= |s| && ParseValue(s, p).err == FaultOf(fault) && ParseValue(s, p).value == Null
  {
    hide ParseChars, EscapeString, FaultOf;
    PeelOne(s, p, QUOTE, Then(EscapeString(t), Rest(fault)));
    var q := ScansEscaped(t, s, p + 1, [], Rest(fault));
    CharsFault(s, q, [] + t);
  }
}
