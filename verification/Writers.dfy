/** The two event-driven writers and the traversal that drives them (JsonServer/FastWriter.h,
    JsonServer/StyleWriter.h, Value::writeTo in JsonServer/Value.h). The asserts of the source are
    the preconditions of the events, so the traversal is proved never to trip one. */
module Writers {
  import opened Octets
  import opened JsonValue
  import opened Printer
  import ReaderSpec

  class StringWriteStream {
    var text: Bytes

    constructor ()
      ensures text == []
    {
      text := [];
    }

    method Put(t: Bytes)
      modifies this
      ensures text == old(text) + t
    {
      text := text + t;
    }
  }

  /** One open bracket: which kind, and how many values it got so far. */
  datatype Level = Level(inArray: bool, valueCount: nat)

  /** What separates the next value from what the innermost bracket already holds. */
  function Separator(stack: seq<Level>): Bytes {
    if stack == [] then []
    else
      var top := stack[|stack| - 1];
      if top.inArray then Comma(top.valueCount == 0)
      else if top.valueCount % 2 == 1 then [COLON]
      else Comma(top.valueCount == 0)
  }

  /** The stack once the innermost bracket got one more value. */
  function Counted(stack: seq<Level>): seq<Level> {
    if stack == [] then []
    else
      var n := |stack| - 1;
      stack[n := stack[n].(valueCount := stack[n].valueCount + 1)]
  }

  lemma EscapeStep(before: Bytes, str: Bytes, i: nat)
    requires i < |str|
    ensures before + EscapeString(str[i..]) == before + EscapeByte(str[i]) + EscapeString(str[i + 1..])
  {
    assert str[i..][1..] == str[i + 1..];
  }

  lemma QuotedText(before: Bytes, t: Bytes)
    ensures before + [QUOTE] + t + [QUOTE] == before + Quoted(t)
  {
  }

  lemma EscapeDone(before: Bytes, str: Bytes)
    ensures before + EscapeString(str[|str|..]) == before
  {
  }

  class FastWriter {
    var seeValue: bool
    var stack: seq<Level>
    const ws: StringWriteStream

    constructor (ws: StringWriteStream)
      ensures this.ws == ws && !seeValue && stack == []
    {
      this.ws := ws;
      seeValue := false;
      stack := [];
    }

    /** The asserts of prefix: one root value, and strings where an object wants a key. */
    ghost predicate Accepts(isString: bool)
      reads this
    {
      && (seeValue ==> stack != [])
      && (stack != [] ==>
            var top := stack[|stack| - 1];
            top.inArray || top.valueCount % 2 == 1 || isString)
    }

    ghost predicate InArray()
      reads this
    {
      stack != [] && stack[|stack| - 1].inArray
    }

    ghost predicate InObject()
      reads this
    {
      stack != [] && !stack[|stack| - 1].inArray
    }

    method Prefix(isString: bool)
      requires Accepts(isString)
      modifies this, ws
      ensures seeValue && stack == Counted(old(stack)) && ws.text == old(ws.text) + Separator(old(stack))
    {
      seeValue := true;
      if stack == [] { return; }
      var n := |stack| - 1;
      if stack[n].inArray {
        if stack[n].valueCount > 0 { ws.Put([COMMA]); }
      } else if stack[n].valueCount % 2 == 1 {
        ws.Put([COLON]);
      } else {
        if stack[n].valueCount > 0 { ws.Put([COMMA]); }
      }
      stack := stack[n := stack[n].(valueCount := stack[n].valueCount + 1)];
    }

    /** Null, Bool, Int32, Int64 and Double: a prefix and the token. */
    method Token(token: Bytes)
      requires Accepts(false)
      modifies this, ws
      ensures seeValue && stack == Counted(old(stack)) && ws.text == old(ws.text) + Separator(old(stack)) + token
    {
      Prefix(false);
      ws.Put(token);
    }

    method Int32(i: int)
      requires Accepts(false)
      modifies this, ws
      ensures seeValue && stack == Counted(old(stack))
      ensures ws.text == old(ws.text) + Separator(old(stack)) + (Decimal(i) + I32_SUFFIX)
    {
      Token(Decimal(i) + I32_SUFFIX);
    }

    method Int64(i: int)
      requires Accepts(false)
      modifies this, ws
      ensures seeValue && stack == Counted(old(stack))
      ensures ws.text == old(ws.text) + Separator(old(stack)) + (Decimal(i) + I64_SUFFIX)
    {
      Token(Decimal(i) + I64_SUFFIX);
    }

    method String(str: Bytes)
      requires Accepts(true)
      modifies this, ws
      ensures seeValue && stack == Counted(old(stack))
      ensures ws.text == old(ws.text) + Separator(old(stack)) + Quoted(EscapeString(str))
    {
      hide EscapeString, EscapeByte, Quoted, Separator, Counted;
      Prefix(true);
      ghost var base := ws.text;
      ws.Put([QUOTE]);
      ghost var start := ws.text;
      assert str[0..] == str;
      for i := 0 to |str|
        invariant ws.text + EscapeString(str[i..]) == start + EscapeString(str)
        invariant seeValue && stack == Counted(old(stack))
      {
        EscapeStep(ws.text, str, i);
        ws.Put(EscapeByte(str[i]));
      }
      EscapeDone(ws.text, str);
      ws.Put([QUOTE]);
      QuotedText(base, EscapeString(str));
    }

    /** The key goes out raw. */
    method Key(key: Bytes)
      requires Accepts(true)
      modifies this, ws
      ensures seeValue && stack == Counted(old(stack))
      ensures ws.text == old(ws.text) + Separator(old(stack)) + Quoted(key)
    {
      Prefix(true);
      ws.Put([QUOTE]);
      ws.Put(key);
      ws.Put([QUOTE]);
    }

    method Start(inArray: bool)
      requires Accepts(false)
      modifies this, ws
      ensures seeValue && stack == Counted(old(stack)) + [Level(inArray, 0)]
      ensures ws.text == old(ws.text) + Separator(old(stack)) + [if inArray then LBRACKET else LBRACE]
    {
      Prefix(false);
      stack := stack + [Level(inArray, 0)];
      ws.Put([if inArray then LBRACKET else LBRACE]);
    }

    method End(inArray: bool)
      requires if inArray then InArray() else InObject()
      modifies this, ws
      ensures seeValue == old(seeValue) && stack == old(stack)[..|old(stack)| - 1]
      ensures ws.text == old(ws.text) + [if inArray then RBRACKET else RBRACE]
    {
      stack := stack[..|stack| - 1];
      ws.Put([if inArray then RBRACKET else RBRACE]);
    }
  }

  /** writeTo with a FastWriter: the stack comes back with one more value counted at the top, and the
      output grows by the separator and the compact text of the value. */
  method WriteFast(v: Value, fw: FastWriter)
    requires fw.Accepts(v.Str?)
    modifies fw, fw.ws
    ensures fw.seeValue && fw.stack == Counted(old(fw.stack))
    ensures fw.ws.text == old(fw.ws.text) + Separator(old(fw.stack)) + Core(v, Compact, |old(fw.stack)|)
    decreases v, 1
  {
    hide ItemsText, MembersText, Separator, EscapeString, Quoted, Decimal;
    ghost var base, stack, depth := fw.ws.text + Separator(fw.stack), fw.stack, |fw.stack|;
    match v {
      case Null => fw.Token(ReaderSpec.NULL_LITERAL);
      case Bool(b) => fw.Token(if b then ReaderSpec.TRUE_LITERAL else ReaderSpec.FALSE_LITERAL);
      case Int32(i) => fw.Int32(i);
      case Int64(i) => fw.Int64(i);
      case Double(t) => fw.Token(t);
      case Str(t) => fw.String(t);
      case Arr(items) =>
        fw.Start(true);
        WriteItems(items, fw);
        LevelClosed(Counted(stack), Level(true, 0), Level(true, |items|));
        fw.End(true);
        ArrayClosed(base, items, depth);
      case Obj(ms) =>
        fw.Start(false);
        WriteMembers(ms, fw);
        LevelClosed(Counted(stack), Level(false, 0), Level(false, 2 * |ms|));
        fw.End(false);
        ObjectClosed(base, ms, depth);
    }
  }

  /** The loop of writeTo over an array. */
  method WriteItems(items: seq<Value>, fw: FastWriter)
    requires fw.InArray() && fw.stack[|fw.stack| - 1].valueCount == 0
    modifies fw, fw.ws
    ensures fw.seeValue == (old(fw.seeValue) || items != [])
    ensures fw.stack == old(fw.stack)[|old(fw.stack)| - 1 := Level(true, |items|)]
    ensures fw.ws.text == old(fw.ws.text) + ItemsText(items, true, Compact, |old(fw.stack)|)
    decreases items, 0
  {
    hide Core, Text, ItemsText;
    ghost var stack, text, depth := fw.stack, fw.ws.text, |fw.stack|;
    assert items[0..] == items;
    for i := 0 to |items|
      invariant fw.seeValue == (old(fw.seeValue) || i > 0)
      invariant fw.stack == stack[depth - 1 := Level(true, i)]
      invariant fw.ws.text + ItemsText(items[i..], i == 0, Compact, depth)
        == text + ItemsText(items, true, Compact, depth)
    {
      ItemStep(fw.ws.text, items, i, Compact, depth);
      CompactText(items[i], depth);
      WriteFast(items[i], fw);
    }
    ItemsDone(fw.ws.text, items, Compact, depth);
  }

  /** The loop of writeTo over an object. */
  method WriteMembers(ms: seq<Member>, fw: FastWriter)
    requires fw.InObject() && fw.stack[|fw.stack| - 1].valueCount == 0
    modifies fw, fw.ws
    ensures fw.seeValue == (old(fw.seeValue) || ms != [])
    ensures fw.stack == old(fw.stack)[|old(fw.stack)| - 1 := Level(false, 2 * |ms|)]
    ensures fw.ws.text == old(fw.ws.text) + MembersText(ms, true, Compact, |old(fw.stack)|)
    decreases ms, 0
  {
    hide Core, Text, MembersText, Quoted;
    ghost var stack, text, depth := fw.stack, fw.ws.text, |fw.stack|;
    assert ms[0..] == ms;
    for i := 0 to |ms|
      invariant fw.seeValue == (old(fw.seeValue) || i > 0)
      invariant fw.stack == stack[depth - 1 := Level(false, 2 * i)]
      invariant fw.ws.text + MembersText(ms[i..], i == 0, Compact, depth)
        == text + MembersText(ms, true, Compact, depth)
    {
      MemberStep(fw.ws.text, ms, i, Compact, depth);
      CompactText(ms[i].value, depth);
      fw.Key(ms[i].key);
      WriteFast(ms[i].value, fw);
    }
    MembersDone(fw.ws.text, ms, Compact, depth);
  }

  lemma CompactText(v: Value, depth: nat)
    ensures Text(v, Compact, depth) == Core(v, Compact, depth)
  {
  }

  lemma ClosedText(base: Bytes, open: Byte, body: Bytes, close: Byte)
    ensures base + [open] + body + [close] == base + ([open] + [] + body + [] + [close])
  {
  }

  lemma ArrayClosed(base: Bytes, items: seq<Value>, depth: nat)
    ensures base + [LBRACKET] + ItemsText(items, true, Compact, depth + 1) + [RBRACKET]
         == base + Core(Arr(items), Compact, depth)
  {
    hide ItemsText;
    ClosedText(base, LBRACKET, ItemsText(items, true, Compact, depth + 1), RBRACKET);
  }

  lemma ObjectClosed(base: Bytes, ms: seq<Member>, depth: nat)
    ensures base + [LBRACE] + MembersText(ms, true, Compact, depth + 1) + [RBRACE]
         == base + Core(Obj(ms), Compact, depth)
  {
    hide MembersText;
    ClosedText(base, LBRACE, MembersText(ms, true, Compact, depth + 1), RBRACE);
  }

  /** A level that was opened and closed leaves those below it. */
  lemma LevelClosed(stack: seq<Level>, first: Level, last: Level)
    ensures (stack + [first])[|stack| := last][..|stack|] == stack
  {
  }

  // ----- StyleWriter -----

  class StyleWriter {
    var indentDepth: nat
    const indent: Bytes
    const fw: FastWriter

    /** One level of indentation for each bracket that is open. */
    ghost predicate Valid()
      reads this, fw
    {
      indentDepth == |fw.stack|
    }

    constructor (ws: StringWriteStream, indent: Bytes)
      ensures Valid() && fresh(fw) && fw.ws == ws && this.indent == indent && !fw.seeValue && fw.stack == []
    {
      var w := new FastWriter(ws);
      fw := w;
      this.indent := indent;
      indentDepth := 0;
    }

    method KeepIndent()
      modifies fw.ws
      ensures fw.ws.text == old(fw.ws.text) + Pad(Indented(indent), indentDepth)
    {
      hide Repeat;
      ghost var before := fw.ws.text;
      if indentDepth > 0 {
        fw.ws.Put([LF]);
        for i := 0 to indentDepth
          invariant fw.ws.text + Repeat(indent, indentDepth - i) == before + [LF] + Repeat(indent, indentDepth)
        {
          RepeatStep(fw.ws.text, indent, indentDepth - i);
          fw.ws.Put(indent);
        }
        RepeatDone(fw.ws.text, indent);
        assert before + [LF] + Repeat(indent, indentDepth) == before + ([LF] + Repeat(indent, indentDepth));
      }
    }

    method Scalar(token: Bytes)
      requires Valid() && fw.Accepts(false)
      modifies this, fw, fw.ws
      ensures Valid() && fw.seeValue && fw.stack == Counted(old(fw.stack)) && indentDepth == old(indentDepth)
      ensures fw.ws.text
           == old(fw.ws.text) + Separator(old(fw.stack)) + token + Pad(Indented(indent), indentDepth)
    {
      fw.Token(token);
      KeepIndent();
    }

    method String(str: Bytes)
      requires Valid() && fw.Accepts(true)
      modifies this, fw, fw.ws
      ensures Valid() && fw.seeValue && fw.stack == Counted(old(fw.stack)) && indentDepth == old(indentDepth)
      ensures fw.ws.text
           == old(fw.ws.text) + Separator(old(fw.stack)) + Quoted(EscapeString(str))
            + Pad(Indented(indent), indentDepth)
    {
      fw.String(str);
      KeepIndent();
    }

    method Key(key: Bytes)
      requires Valid() && fw.Accepts(true)
      modifies this, fw, fw.ws
      ensures Valid() && fw.seeValue && fw.stack == Counted(old(fw.stack)) && indentDepth == old(indentDepth)
      ensures fw.ws.text
           == old(fw.ws.text) + Pad(Indented(indent), indentDepth) + Separator(old(fw.stack)) + Quoted(key)
    {
      KeepIndent();
      fw.Key(key);
    }

    method Start(inArray: bool)
      requires Valid() && fw.Accepts(false)
      modifies this, fw, fw.ws
      ensures Valid() && fw.seeValue && fw.stack == Counted(old(fw.stack)) + [Level(inArray, 0)]
      ensures fw.ws.text
           == old(fw.ws.text) + Separator(old(fw.stack)) + [if inArray then LBRACKET else LBRACE]
              + Pad(Indented(indent), old(indentDepth) + 1)
    {
      fw.Start(inArray);
      indentDepth := indentDepth + 1;
      KeepIndent();
    }

    /** The bracket match also gives the assert that the depth is positive. */
    method End(inArray: bool)
      requires Valid() && if inArray then fw.InArray() else fw.InObject()
      modifies this, fw, fw.ws
      ensures indentDepth == old(indentDepth) - 1 && fw.seeValue == old(fw.seeValue)
      ensures fw.stack == old(fw.stack)[..|old(fw.stack)| - 1] && Valid()
      ensures fw.ws.text
           == old(fw.ws.text) + Pad(Indented(indent), indentDepth) + [if inArray then RBRACKET else RBRACE]
    {
      indentDepth := indentDepth - 1;
      KeepIndent();
      fw.End(inArray);
    }
  }

  lemma RepeatDone(before: Bytes, t: Bytes)
    ensures before + Repeat(t, 0) == before
  {
  }

  lemma RepeatStep(before: Bytes, t: Bytes, n: nat)
    requires n > 0
    ensures before + Repeat(t, n) == before + t + Repeat(t, n - 1)
  {
  }

  /** writeTo with a StyleWriter: as with a FastWriter, with the whitespace of the indented layout. */
  method WriteStyled(v: Value, sw: StyleWriter)
    requires sw.Valid() && sw.fw.Accepts(v.Str?)
    modifies sw, sw.fw, sw.fw.ws
    ensures sw.Valid() && sw.fw.seeValue && sw.fw.stack == Counted(old(sw.fw.stack))
    ensures sw.fw.ws.text
         == old(sw.fw.ws.text) + Separator(old(sw.fw.stack)) + Text(v, Indented(sw.indent), old(sw.indentDepth))
    decreases v, 1
  {
    hide ItemsText, MembersText, Pad, EscapeString, Decimal, Quoted, Separator, Text;
    ghost var base, l, depth := sw.fw.ws.text + Separator(sw.fw.stack), Indented(sw.indent), sw.indentDepth;
    match v {
      case Null => sw.Scalar(ReaderSpec.NULL_LITERAL); ScalarDone(base, v, l, depth);
      case Bool(b) =>
        sw.Scalar(if b then ReaderSpec.TRUE_LITERAL else ReaderSpec.FALSE_LITERAL);
        ScalarDone(base, v, l, depth);
      case Int32(i) => sw.Scalar(Decimal(i) + I32_SUFFIX); ScalarDone(base, v, l, depth);
      case Int64(i) => sw.Scalar(Decimal(i) + I64_SUFFIX); ScalarDone(base, v, l, depth);
      case Double(t) => sw.Scalar(t); ScalarDone(base, v, l, depth);
      case Str(t) => sw.String(t); ScalarDone(base, v, l, depth);
      case Arr(items) =>
        sw.Start(true);
        WriteStyledItems(items, sw);
        sw.End(true);
        ArrayDone(base, items, l, depth);
      case Obj(ms) =>
        sw.Start(false);
        WriteStyledMembers(ms, sw);
        sw.End(false);
        ObjectDone(base, ms, l, depth);
    }
  }

  method WriteStyledItems(items: seq<Value>, sw: StyleWriter)
    requires sw.Valid() && sw.fw.InArray() && sw.fw.stack[|sw.fw.stack| - 1].valueCount == 0
    modifies sw, sw.fw, sw.fw.ws
    ensures sw.Valid() && sw.fw.seeValue == (old(sw.fw.seeValue) || items != [])
    ensures sw.fw.stack == old(sw.fw.stack)[|old(sw.fw.stack)| - 1 := Level(true, |items|)]
    ensures sw.fw.ws.text == old(sw.fw.ws.text) + ItemsText(items, true, Indented(sw.indent), old(sw.indentDepth))
    decreases items, 0
  {
    hide Text, ItemsText;
    ghost var stack, l, depth := sw.fw.stack, Indented(sw.indent), sw.indentDepth;
    ghost var whole := sw.fw.ws.text + ItemsText(items, true, l, depth);
    assert items[0..] == items;
    for i := 0 to |items|
      invariant sw.Valid() && sw.fw.seeValue == (old(sw.fw.seeValue) || i > 0)
      invariant sw.fw.stack == stack[depth - 1 := Level(true, i)]
      invariant sw.fw.ws.text + ItemsText(items[i..], i == 0, l, depth) == whole
    {
      ItemStep(sw.fw.ws.text, items, i, l, depth);
      WriteStyled(items[i], sw);
    }
    ItemsDone(sw.fw.ws.text, items, l, depth);
  }

  method WriteStyledMembers(ms: seq<Member>, sw: StyleWriter)
    requires sw.Valid() && sw.fw.InObject() && sw.fw.stack[|sw.fw.stack| - 1].valueCount == 0
    modifies sw, sw.fw, sw.fw.ws
    ensures sw.Valid() && sw.fw.seeValue == (old(sw.fw.seeValue) || ms != [])
    ensures sw.fw.stack == old(sw.fw.stack)[|old(sw.fw.stack)| - 1 := Level(false, 2 * |ms|)]
    ensures sw.fw.ws.text == old(sw.fw.ws.text) + MembersText(ms, true, Indented(sw.indent), old(sw.indentDepth))
    decreases ms, 0
  {
    hide Text, MembersText, Quoted, Pad;
    ghost var stack, l, depth := sw.fw.stack, Indented(sw.indent), sw.indentDepth;
    ghost var whole := sw.fw.ws.text + MembersText(ms, true, l, depth);
    assert ms[0..] == ms;
    for i := 0 to |ms|
      invariant sw.Valid() && sw.fw.seeValue == (old(sw.fw.seeValue) || i > 0)
      invariant sw.fw.stack == stack[depth - 1 := Level(false, 2 * i)]
      invariant sw.fw.ws.text + MembersText(ms[i..], i == 0, l, depth) == whole
    {
      MemberStep(sw.fw.ws.text, ms, i, l, depth);
      sw.Key(ms[i].key);
      WriteStyled(ms[i].value, sw);
    }
    MembersDone(sw.fw.ws.text, ms, l, depth);
  }

  lemma ScalarDone(base: Bytes, v: Value, l: Layout, depth: nat)
    requires IsScalar(v)
    ensures base + Core(v, l, depth) + Pad(l, depth) == base + Text(v, l, depth)
  {
  }

  lemma ArrayDone(base: Bytes, items: seq<Value>, l: Layout, depth: nat)
    ensures base + [LBRACKET] + Pad(l, depth + 1) + ItemsText(items, true, l, depth + 1) + Pad(l, depth) + [RBRACKET]
         == base + Text(Arr(items), l, depth)
  {
    hide Pad, ItemsText;
    Bracketed(base, LBRACKET, Pad(l, depth + 1), ItemsText(items, true, l, depth + 1), Pad(l, depth), RBRACKET);
  }

  lemma ObjectDone(base: Bytes, ms: seq<Member>, l: Layout, depth: nat)
    ensures base + [LBRACE] + Pad(l, depth + 1) + MembersText(ms, true, l, depth + 1) + Pad(l, depth) + [RBRACE]
         == base + Text(Obj(ms), l, depth)
  {
    hide Pad, MembersText;
    Bracketed(base, LBRACE, Pad(l, depth + 1), MembersText(ms, true, l, depth + 1), Pad(l, depth), RBRACE);
  }

  lemma Bracketed(base: Bytes, open: Byte, a: Bytes, body: Bytes, b: Bytes, close: Byte)
    ensures base + [open] + a + body + b + [close] == base + ([open] + a + body + b + [close] + [])
  {
  }

  lemma ItemStep(before: Bytes, items: seq<Value>, i: nat, l: Layout, depth: nat)
    requires i < |items|
    ensures before + Comma(i == 0) + Text(items[i], l, depth) + ItemsText(items[i + 1..], false, l, depth)
            == before + ItemsText(items[i..], i == 0, l, depth)
  {
    hide Text, ItemsText, Comma;
    SuffixStep(items, i);
    FirstItem(items[i..], i == 0, l, depth);
    Regroup(before, Comma(i == 0), Text(items[i], l, depth), ItemsText(items[i + 1..], false, l, depth));
  }

  lemma SuffixStep<T>(xs: seq<T>, i: nat)
    requires i < |xs|
    ensures xs[i..] != [] && xs[i..][0] == xs[i] && xs[i..][1..] == xs[i + 1..]
  {
  }

  lemma FirstItem(items: seq<Value>, first: bool, l: Layout, depth: nat)
    requires items != []
    ensures ItemsText(items, first, l, depth)
         == Comma(first) + Text(items[0], l, depth) + ItemsText(items[1..], false, l, depth)
  {
    hide Text, Comma;
  }

  lemma Regroup(a: Bytes, b: Bytes, c: Bytes, d: Bytes)
    ensures a + b + c + d == a + (b + c + d)
  {
  }

  lemma MemberStep(before: Bytes, ms: seq<Member>, i: nat, l: Layout, depth: nat)
    requires i < |ms|
    ensures before + Pad(l, depth) + Comma(i == 0) + Quoted(ms[i].key) + [COLON] + Text(ms[i].value, l, depth)
            + MembersText(ms[i + 1..], false, l, depth)
            == before + MembersText(ms[i..], i == 0, l, depth)
  {
    hide Pad, Text, Comma, Quoted;
    SuffixStep(ms, i);
  }

  lemma ItemsDone(text: Bytes, items: seq<Value>, l: Layout, depth: nat)
    ensures text + ItemsText(items[|items|..], |items| == 0, l, depth) == text
  {
  }

  lemma MembersDone(text: Bytes, ms: seq<Member>, l: Layout, depth: nat)
    ensures text + MembersText(ms[|ms|..], |ms| == 0, l, depth) == text
  {
  }
}
