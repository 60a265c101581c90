/** The recursive-descent reader as it runs over the cursor (JsonServer/Reader.h). Every method is
    proved to return, and to leave the cursor, exactly as ReaderSpec says; the proofs include that
    it terminates, that no pop runs past the end and that every expect finds its byte. */
module Reader {
  import opened Octets
  import opened JsonValue
  import opened ReaderSpec
  import opened ReadStream

  method ParseWhitespace(src: StringReadStream)
    requires src.Valid()
    modifies src
    ensures src.Valid() && src.it == SkipWs(src.json, old(src.it))
  {
    while src.HasNext()
      invariant src.Valid() && SkipWs(src.json, src.it) == SkipWs(src.json, old(src.it))
      decreases |src.json| - src.it
    {
      var ch := src.Front();
      if ch == SPACE || ch == TAB || ch == CR || ch == LF {
        src.Pop();
      } else {
        break;
      }
    }
  }

  method ReadLiteral(src: StringReadStream, lit: Bytes, v: Value) returns (err: ParseError, value: Value)
    requires src.Valid() && src.HasNext() && |lit| > 0 && src.Front() == lit[0]
    requires forall i :: 0 <= i < |lit| ==> lit[i] != 0
    modifies src
    ensures src.Valid() && Parsed(err, value, src.it) == ParseLiteral(src.json, old(src.it), lit, v)
  {
    var n := 1;
    src.Expect(lit[0]);
    while n < |lit| && lit[n] == src.Front()
      invariant src.Valid() && 1 <= n <= |lit| && src.it == old(src.it) + n
      invariant forall i :: 0 <= i < n ==> src.json[old(src.it) + i] == lit[i]
    {
      n := n + 1;
      src.Pop();
    }
    MatchLengthIs(src.json, old(src.it), lit, n);
    if n < |lit| {
      return PARSE_EXPECT_VALUE, Null;
    }
    return PARSE_OK, v;
  }

  method SkipDigits(src: StringReadStream)
    requires src.Valid()
    modifies src
    ensures src.Valid() && src.it == DigitsEnd(src.json, old(src.it))
  {
    while IsDigit(src.Front())
      invariant src.Valid() && DigitsEnd(src.json, src.it) == DigitsEnd(src.json, old(src.it))
      decreases |src.json| - src.it
    {
      src.Pop();
    }
  }

  // The four stretches of parseNumber that move the cursor.

  method ReadInteger(src: StringReadStream) returns (ok: bool)
    requires src.Valid()
    modifies src
    ensures src.Valid() && Scan(ok, Untyped, src.it) == ScanInteger(src.json, old(src.it))
  {
    if src.Front() == MINUS { src.Pop(); }
    if src.Front() == ZERO {
      src.Pop();
    } else {
      if !IsDigit19(src.Front()) { return false; }
      SkipDigits(src);
    }
    ok := true;
  }

  method ReadFraction(src: StringReadStream, ty0: NumberType) returns (ok: bool, ty: NumberType)
    requires src.Valid()
    modifies src
    ensures src.Valid() && Scan(ok, ty, src.it) == ScanFraction(src.json, old(src.it), ty0)
  {
    ty := ty0;
    if src.Front() == DOT {
      ty := AsDouble;
      src.Pop();
      if !IsDigit(src.Front()) { return false, ty; }
      src.Pop();
      SkipDigits(src);
    }
    ok := true;
  }

  method ReadExponent(src: StringReadStream, ty0: NumberType) returns (ok: bool, ty: NumberType)
    requires src.Valid()
    modifies src
    ensures src.Valid() && Scan(ok, ty, src.it) == ScanExponent(src.json, old(src.it), ty0)
  {
    ty := ty0;
    if src.Front() == 0x65 || src.Front() == 0x45 {
      ty := AsDouble;
      src.Pop();
      if src.Front() == PLUS || src.Front() == MINUS { src.Pop(); }
      if !IsDigit(src.Front()) { return false, ty; }
      src.Pop();
      SkipDigits(src);
    }
    ok := true;
  }

  method ReadSuffix(src: StringReadStream, ty0: NumberType) returns (ok: bool, ty: NumberType)
    requires src.Valid()
    modifies src
    ensures src.Valid() && Scan(ok, ty, src.it) == ScanSuffix(src.json, old(src.it), ty0)
  {
    ty := ty0;
    ok := true;
    if src.Front() == LOWER_I {
      src.Pop();
      if ty == AsDouble { return false, ty; }
      var ch := src.Next();
      if ch == 0x33 {
        ty := AsInt32;
        ch := src.Next();
        ok := ch == 0x32;
      } else if ch == 0x36 {
        ty := AsInt64;
        ch := src.Next();
        ok := ch == 0x34;
      } else {
        ok := false;
      }
    }
  }

  method ReadNumberText(src: StringReadStream) returns (ok: bool, ty: NumberType)
    requires src.Valid()
    modifies src
    ensures src.Valid() && Scan(ok, ty, src.it) == ScanNumber(src.json, old(src.it))
  {
    ty := Untyped;
    ok := ReadInteger(src);
    if !ok { return; }
    ok, ty := ReadFraction(src, ty);
    if !ok { return; }
    ok, ty := ReadExponent(src, ty);
    if !ok { return; }
    ok, ty := ReadSuffix(src, ty);
  }

  method ReadNumber(src: StringReadStream) returns (err: ParseError, value: Value)
    requires src.Valid()
    modifies src
    ensures src.Valid() && Parsed(err, value, src.it) == ParseNumber(src.json, old(src.it))
  {
    var start := src.it;
    var ok, ty := ReadNumberText(src);
    if !ok || src.it == start {
      return PARSE_INVALID_VALUE, Null;
    }
    if ty == AsDouble {
      return PARSE_OK, Double(src.json[start..src.it]);
    }
    var n := Strtol(src.json, start);
    if n < INT64_MIN || n > INT64_MAX {
      return PARSE_NUMBER_TOO_BIG, ZeroOf(ty);
    }
    if ty == AsInt64 {
      return PARSE_OK, Int64(n);
    }
    if ty == AsInt32 {
      if n > INT32_MAX || n < INT32_MIN {
        return PARSE_NUMBER_TOO_BIG, Null;
      }
      return PARSE_OK, Int32(n);
    }
    return PARSE_INVALID_VALUE, Null;
  }

  method ReadHex4(src: StringReadStream) returns (ok: bool, u: nat)
    requires src.Valid()
    modifies src
    ensures src.Valid() && Hex(ok, u, src.it) == ParseHex(src.json, old(src.it), 0, old(src.it) + 4)
  {
    u := 0;
    for i := 0 to 4
      invariant src.Valid()
      invariant src.it == old(src.it) + i
      invariant ParseHex(src.json, src.it, u, old(src.it) + 4) == ParseHex(src.json, old(src.it), 0, old(src.it) + 4)
    {
      var ch := src.Next();
      u := u * 16;
      if 0x30 <= ch <= 0x39 {
        u := u + (ch - 0x30);
      } else if 0x41 <= ch <= 0x46 {
        u := u + (ch - (0x41 - 10));
      } else if 0x61 <= ch <= 0x66 {
        u := u + (ch - (0x61 - 10));
      } else {
        return false, u;
      }
    }
    ok := true;
  }

  /** The case of \u, after the u was read. */
  method ReadUnicode(src: StringReadStream) returns (err: ParseError, out: Bytes)
    requires src.Valid()
    modifies src
    ensures src.Valid() && Escape(err, out, src.it) == ParseUnicode(src.json, old(src.it))
  {
    out := [];
    ParseHexBound(src.json, src.it, 0, src.it + 4, 1);
    assert Pow16(4) == 0x1_0000;
    var ok, u := ReadHex4(src);
    if !ok { return PARSE_INVALID_UNICODE_HEX, out; }
    if u >= 0xD800 && u <= 0xDBFF {
      var ch := src.Next();
      if ch != BACKSLASH { return PARSE_INVALID_UNICODE_SURROGATE, out; }
      ch := src.Next();
      if ch != LOWER_U { return PARSE_INVALID_UNICODE_SURROGATE, out; }
      var u2;
      ok, u2 := ReadHex4(src);
      if !ok { return PARSE_INVALID_UNICODE_HEX, out; }
      if u2 < 0xDC00 || u2 > 0xDFFF { return PARSE_INVALID_UNICODE_SURROGATE, out; }
      u := 0x1_0000 + (u - 0xD800) * 0x400 + (u2 - 0xDC00);
    }
    return PARSE_OK, EncodeUtf8(u);
  }

  method ReadEscape(src: StringReadStream) returns (err: ParseError, out: Bytes)
    requires src.Valid()
    modifies src
    ensures src.Valid() && Escape(err, out, src.it) == ParseEscape(src.json, old(src.it))
  {
    var ch := src.Next();
    match ch {
      case 0x22 => return PARSE_OK, [QUOTE];
      case 0x5C => return PARSE_OK, [BACKSLASH];
      case 0x2F => return PARSE_OK, [SLASH];
      case 0x62 => return PARSE_OK, [0x08];
      case 0x66 => return PARSE_OK, [0x0C];
      case 0x6E => return PARSE_OK, [LF];
      case 0x72 => return PARSE_OK, [CR];
      case 0x74 => return PARSE_OK, [TAB];
      case 0x75 => err, out := ReadUnicode(src);
      case _ => return PARSE_INVALID_STRING_ESCAPE, [];
    }
  }

  /** parseString; closed tells whether the value was set. */
  method ReadString(src: StringReadStream) returns (err: ParseError, closed: bool, buffer: Bytes)
    requires src.Valid() && src.HasNext() && src.Front() == QUOTE
    modifies src
    ensures src.Valid() && Scanned(err, closed, buffer, src.it) == ParseChars(src.json, old(src.it) + 1, [])
  {
    src.Expect(QUOTE);
    buffer, closed := [], false;
    while src.HasNext()
      invariant src.Valid()
      invariant ParseChars(src.json, src.it, buffer) == ParseChars(src.json, old(src.it) + 1, [])
      decreases |src.json| - src.it
    {
      var ch := src.Next();
      if ch == QUOTE {
        return PARSE_OK, true, buffer;
      } else if ch == BACKSLASH {
        var e, out := ReadEscape(src);
        if e != PARSE_OK { return e, false, buffer; }
        buffer := buffer + out;
      } else if ch == 0 {
        return PARSE_MISS_QUOTATION_MARK, false, buffer;
      } else {
        if ch < 0x20 { return PARSE_INVALID_STRING_CHAR, false, buffer; }
        buffer := buffer + [ch];
      }
    }
    err := PARSE_OK;
  }

  method ReadArray(src: StringReadStream) returns (err: ParseError, value: Value)
    requires src.Valid() && src.HasNext() && src.Front() == LBRACKET
    modifies src
    ensures src.Valid() && Parsed(err, value, src.it) == ParseValue(src.json, old(src.it))
    decreases |src.json| - src.it, 0
  {
    var items: seq<Value> := [];
    src.Expect(LBRACKET);
    ParseWhitespace(src);
    if src.Front() == RBRACKET {
      src.Pop();
      return PARSE_OK, Arr(items);
    }
    while true
      invariant src.Valid() && old(src.it) < src.it
      invariant ArrayLoop(src.json, src.it, items) == ParseValue(src.json, old(src.it))
      decreases |src.json| - src.it
    {
      var e, temp := ReadValue(src);
      if e != PARSE_OK { return e, Arr(items); }
      items := items + [temp];
      ParseWhitespace(src);
      var ch := src.Next();
      if ch == COMMA {
        ParseWhitespace(src);
      } else if ch == RBRACKET {
        return PARSE_OK, Arr(items);
      }
    }
  }

  /** The first half of an iteration of parseObject: the key and its colon. */
  method ReadKey(src: StringReadStream) returns (err: ParseError, key: Bytes)
    requires src.Valid()
    modifies src
    ensures src.Valid()
    ensures var k := ParseKey(src.json, old(src.it)); k.err == err && k.text == key && k.pos == src.it
  {
    if src.Front() != QUOTE { return PARSE_MISS_KEY, []; }
    var closed;
    err, closed, key := ReadString(src);
    if err != PARSE_OK { return; }
    ParseWhitespace(src);
    var ch := src.Next();
    if ch != COLON { return PARSE_MISS_COLON, key; }
    ParseWhitespace(src);
  }

  method ReadObject(src: StringReadStream) returns (err: ParseError, value: Value)
    requires src.Valid() && src.HasNext() && src.Front() == LBRACE
    modifies src
    ensures src.Valid() && Parsed(err, value, src.it) == ParseValue(src.json, old(src.it))
    decreases |src.json| - src.it, 0
  {
    src.Expect(LBRACE);
    ParseWhitespace(src);
    if src.Front() == RBRACE {
      src.Pop();
      return PARSE_OK, Obj([]);
    }
    err, value := ReadMembers(src);
  }

  /** One iteration of the loop of parseObject. */
  method ReadMember(src: StringReadStream, before: seq<Member>)
    returns (again: bool, err: ParseError, members: seq<Member>)
    requires src.Valid()
    modifies src
    ensures src.Valid() && Turn(again, err, members, src.it) == MemberTurn(src.json, old(src.it), before)
    decreases |src.json| - src.it, 2
  {
    members := before;
    again := false;
    var key, member;
    err, key := ReadKey(src);
    if err != PARSE_OK { return; }
    err, member := ReadValue(src);
    if err != PARSE_OK { return; }
    if HasKey(members, key) { return false, ABORTED, members; }
    members := Insert(members, Member(key, member));
    ParseWhitespace(src);
    if src.Front() == COMMA {
      src.Pop();
      ParseWhitespace(src);
      again := true;
    } else if src.Front() == RBRACE {
      src.Pop();
    } else {
      err := PARSE_MISS_COMMA_OR_CURLY_BRACKET;
    }
  }

  /** The loop of parseObject. */
  method ReadMembers(src: StringReadStream) returns (err: ParseError, value: Value)
    requires src.Valid()
    modifies src
    ensures src.Valid() && Parsed(err, value, src.it) == ObjectLoop(src.json, old(src.it), [])
    decreases |src.json| - src.it, 3
  {
    var members: seq<Member>, again := [], true;
    err := PARSE_OK;
    ghost var goal := ObjectLoop(src.json, src.it, members);
    while again
      invariant src.Valid() && old(src.it) <= src.it
      invariant again ==> ObjectLoop(src.json, src.it, members) == goal
      invariant !again ==> Parsed(err, Obj(members), src.it) == goal
      decreases again, |src.json| - src.it
    {
      again, err, members := ReadMember(src, members);
    }
    value := Obj(members);
  }

  method ReadValue(src: StringReadStream) returns (err: ParseError, value: Value)
    requires src.Valid()
    modifies src
    ensures src.Valid() && Parsed(err, value, src.it) == ParseValue(src.json, old(src.it))
    decreases |src.json| - src.it, 1
  {
    match src.Front() {
      case 0x6E => err, value := ReadLiteral(src, NULL_LITERAL, Null);
      case 0x74 => err, value := ReadLiteral(src, TRUE_LITERAL, Bool(true));
      case 0x66 => err, value := ReadLiteral(src, FALSE_LITERAL, Bool(false));
      case 0x22 =>
        var closed, text;
        err, closed, text := ReadString(src);
        value := if closed then Str(text) else Null;
      case 0x5B => err, value := ReadArray(src);
      case 0x7B => err, value := ReadObject(src);
      case _ => err, value := ReadNumber(src);
    }
  }

  method Read(src: StringReadStream, before: Value) returns (err: ParseError, value: Value)
    requires src.Valid() && src.it == 0
    modifies src
    ensures src.Valid() && Parsed(err, value, src.it) == Parse(src.json, before)
  {
    ParseWhitespace(src);
    err, value := ReadValue(src);
    if err != PARSE_OK { return; }
    ParseWhitespace(src);
    if src.HasNext() {
      return PARSE_ROOT_NOT_SINGULAR, before;
    }
  }
}
