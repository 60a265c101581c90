/** Where the reader and the writers do not undo each other, exactly: keys that are written raw, an
    array whose separators are not commas, and a string that never ends. */
module ReaderLimits {
  import opened Octets
  import opened JsonValue
  import opened ReaderSpec
  import opened Printer
  import opened Continued
  import opened RoundTrip

  // ----- keys -----

  lemma {:induction false} HexHasNoQuote(s: Bytes, p: nat, u: nat, end: nat)
    requires p <= |s| && p <= end && ParseHex(s, p, u, end).ok
    ensures end <= |s| && forall i :: p <= i < end ==> s[i] != QUOTE
    decreases end - p
  {
    if p < end { HexHasNoQuote(s, p + 1, u * 16 + HexDigit(s[p]), end); }
  }

  /** An escape yields fewer bytes than it takes, counting the backslash; and only the escape of a
      quote contains one. */
  lemma EscapeShape(s: Bytes, p: nat)
    requires p <= |s| && ParseEscape(s, p).err == PARSE_OK
    ensures var e := ParseEscape(s, p);
            && p < e.pos && 0 < |e.out| <= e.pos - p
            && (s[p] == QUOTE ==> e == Escape(PARSE_OK, [QUOTE], p + 1))
            && (s[p] != QUOTE ==> forall i :: p <= i < e.pos ==> s[i] != QUOTE)
  {
    if ShortEscape(Front(s, p)) == 0 {
      var h := ParseHex(s, p + 1, 0, p + 5);
      HexHasNoQuote(s, p + 1, 0, p + 5);
      if 0xD800 <= h.code <= 0xDBFF {
        HexHasNoQuote(s, p + 7, 0, p + 11);
      }
    }
  }

  /** The raw text of a key, between p and its closing quote. */
  predicate KeyAt(key: Bytes, s: Bytes, p: nat) {
    p + |key| < |s| && s[p + |key|] == QUOTE && s[p..p + |key|] == key
  }

  lemma KeyByte(key: Bytes, s: Bytes, p: nat, i: nat)
    requires KeyAt(key, s, p) && i < |key|
    ensures p + i < |s| && s[p + i] == key[i]
  {
    assert s[p..p + |key|][i] == s[p + i];
  }

  /** The scan returns the key itself. */
  predicate Survives(key: Bytes, r: Scanned) { r.err == PARSE_OK && r.closed && r.text == key }

  lemma ScanStep(s: Bytes, p: nat, buf: Bytes)
    requires p < |s|
    ensures s[p] == QUOTE ==> ParseChars(s, p, buf) == Scanned(PARSE_OK, true, buf, p + 1)
    ensures s[p] == BACKSLASH ==>
              var e := ParseEscape(s, p + 1);
              ParseChars(s, p, buf) ==
              if e.err == PARSE_OK then ParseChars(s, e.pos, buf + e.out) else Scanned(e.err, false, buf, e.pos)
    ensures s[p] < 0x20 ==> ParseChars(s, p, buf).err != PARSE_OK
    ensures PlainKey([s[p]]) ==> ParseChars(s, p, buf) == ParseChars(s, p + 1, buf + [s[p]])
  {
    hide ParseEscape;
    assert PlainKey([s[p]]) ==> [s[p]][0] >= 0x20;
  }

  /** A key that the scan returns has every piece of itself that was read so far as a prefix. */
  lemma Matched(key: Bytes, m: nat, out: Bytes)
    requires m <= |key| && key[..m] + out <= key && out != []
    ensures m + |out| <= |key| && key[m] == out[0] && key[..m] + out == key[..m + |out|]
  {
    assert (key[..m] + out)[m] == out[0];
  }

  predicate NoQuote(key: Bytes, from: nat, to: nat) {
    forall j :: from <= j < to && j < |key| ==> key[j] != QUOTE
  }

  lemma NoQuoteNext(key: Bytes, m: nat, c: nat)
    requires m < c < |key| && NoQuote(key, m, c)
    ensures key[m] != QUOTE && (key[c] != QUOTE ==> NoQuote(key, m + 1, c + 1))
    ensures key[c] != QUOTE && key[c] != BACKSLASH && key[c] >= 0x20 ==> PlainKey([key[c]])
  {
  }

  /** An escape inside the key leaves the bytes read behind the bytes consumed, with no quote between. */
  lemma EscapeLags(key: Bytes, s: Bytes, p: nat, c: nat, m: nat) returns (c': nat, m': nat)
    requires KeyAt(key, s, p) && m <= c < |key| && key[c] == BACKSLASH && NoQuote(key, m, c)
    requires Survives(key, ParseChars(s, p + c, key[..m]))
    ensures c < c' && m' < c' <= |key| && NoQuote(key, m', c')
    ensures Survives(key, ParseChars(s, p + c', key[..m']))
  {
    hide ParseChars, ParseEscape;
    KeyByte(key, s, p, c);
    ScanStep(s, p + c, key[..m]);
    var e := ParseEscape(s, p + c + 1);
    EscapeShape(s, p + c + 1);
    Matched(key, m, e.out);
    c', m' := e.pos - p, m + |e.out|;
    assert s[p + c + 1] != QUOTE by { assert e.out == [QUOTE] ==> key[m] == QUOTE; }
    assert s[p + |key|] == QUOTE;
    assert c' <= |key|;
    forall j | m' <= j < c' && j < |key|
      ensures key[j] != QUOTE
    {
      KeyByte(key, s, p, j);
    }
  }

  /** Once the bytes read are behind the bytes consumed, the scan cannot come back to the key. */
  lemma {:induction false} LaggingScan(key: Bytes, s: Bytes, p: nat, c: nat, m: nat)
    requires KeyAt(key, s, p) && m < c <= |key| && NoQuote(key, m, c)
    ensures !Survives(key, ParseChars(s, p + c, key[..m]))
    decreases |key| - c
  {
    hide ParseChars, NoQuote, PlainKey;
    var r := ParseChars(s, p + c, key[..m]);
    ScanStep(s, p + c, key[..m]);
    if c < |key| && Survives(key, r) {
      KeyByte(key, s, p, c);
      NoQuoteNext(key, m, c);
      if key[c] == BACKSLASH {
        var c', m' := EscapeLags(key, s, p, c, m);
        LaggingScan(key, s, p, c', m');
      } else {
        Matched(key, m, [key[c]]);
        LaggingScan(key, s, p, c + 1, m + 1);
      }
    }
  }

  lemma PlainCons(key: Bytes)
    requires key != [] && PlainKey([key[0]])
    ensures PlainKey(key[1..]) ==> PlainKey(key)
  {
    var c, rest := key[0], key[1..];
    assert [c][0] >= 0x20 && [c][0] != QUOTE && [c][0] != BACKSLASH;
    assert forall i :: 0 < i < |key| ==> key[i] == rest[i - 1];
  }

  /** The index of the first byte that FastWriter::Key should have escaped. */
  function FirstUnplain(key: Bytes): (a: nat)
    requires !PlainKey(key)
    ensures a < |key| && PlainKey(key[..a]) && !PlainKey([key[a]])
  {
    if !PlainKey([key[0]]) then 0
    else
      PlainCons(key);
      var a := FirstUnplain(key[1..]);
      assert key[..a + 1] == [key[0]] + key[1..][..a];
      a + 1
  }

  lemma KeyPrefix(key: Bytes, s: Bytes, p: nat, a: nat)
    requires KeyAt(key, s, p) && a <= |key|
    ensures s[p..p + a] == key[..a]
  {
    assert s[p..p + |key|][..a] == s[p..p + a];
  }

  lemma UnplainKeyMisread(key: Bytes, s: Bytes, p: nat)
    requires !PlainKey(key) && KeyAt(key, s, p)
    ensures !Survives(key, ParseChars(s, p, []))
  {
    hide ParseChars, PlainKey;
    var a := FirstUnplain(key);
    if Survives(key, ParseChars(s, p, [])) {
      KeyPrefix(key, s, p, a);
      PlainScans(s, p, p + a, []);
      assert [] + key[..a] == key[..a];
      KeyByte(key, s, p, a);
      ScanStep(s, p + a, key[..a]);
      assert key[a] == BACKSLASH by { Unplain(key[a]); }
      var c, m := EscapeLags(key, s, p, a, a);
      LaggingScan(key, s, p, c, m);
    }
  }

  lemma Unplain(c: Byte)
    requires !PlainKey([c])
    ensures c < 0x20 || c == QUOTE || c == BACKSLASH
  {
  }

  /** A key that is written raw is read back as itself exactly when it is plain, whatever follows. */
  lemma KeySurvivesIffPlain(key: Bytes, rest: Bytes)
    ensures Survives(key, ParseChars(key + [QUOTE] + rest, 0, [])) <==> PlainKey(key)
  {
    var s := key + [QUOTE] + rest;
    assert s[0..|key|] == key;
    if PlainKey(key) {
      PlainScans(s, 0, |key|, []);
      assert [] + key == key;
      QuoteCloses(s, |key|, key);
    } else {
      UnplainKeyMisread(key, s, 0);
    }
  }

  /** A member that was added stays to the end of its object. */
  lemma {:induction false} MembersStay(s: Bytes, p: nat, ms: seq<Member>)
    requires p <= |s| && ObjectLoop(s, p, ms).err == PARSE_OK
    ensures ObjectLoop(s, p, ms).value.Obj? && forall m :: m in ms ==> m in ObjectLoop(s, p, ms).value.members
    decreases |s| - p
  {
    hide ParseKey, ParseValue, Insert, HasKey, SkipWs;
    var t := MemberTurn(s, p, ms);
    var k := ParseKey(s, p);
    InsertKeeps(ms, Member(k.text, ParseValue(s, k.pos).value));
    if t.again { MembersStay(s, t.pos, t.members); }
  }

  /** What the loop read at its first turn is in the object it returns. */
  lemma FirstKeyStays(s: Bytes, p: nat)
    requires p <= |s| && ObjectLoop(s, p, []).err == PARSE_OK
    ensures ParseKey(s, p).err == PARSE_OK && ObjectLoop(s, p, []).value.Obj?
    ensures HasKey(ObjectLoop(s, p, []).value.members, ParseKey(s, p).text)
  {
    hide ParseKey, ParseValue, SkipWs, Insert;
    var k := ParseKey(s, p);
    var m := Member(k.text, ParseValue(s, k.pos).value);
    InsertKeeps([], m);
    var t := MemberTurn(s, p, []);
    if t.again { MembersStay(s, t.pos, t.members); }
    assert m in t.members;
  }

  /** An object with one member survives the trip exactly when its key is plain. */
  lemma ObjectSurvivesIffPlain(key: Bytes, v: Value, l: Layout, depth: nat, s: Bytes, p: nat, k: Rest)
    requires Readable(v) && WsLayout(l)
    requires Reads(s, p, CoreK(Obj([Member(key, v)]), l, depth, k))
    ensures var r := ParseValue(s, p);
            (r.err == PARSE_OK && r.value == Obj([Member(key, v)])) <==> PlainKey(key)
  {
    hide Reads, Then, Pad, CoreK, KeyK, ParseValue, ParseChars, ObjectLoop, SkipWs, AllWs, WsLayout,
      FirstMemberK, MembersK;
    var ms := [Member(key, v)];
    if PlainKey(key) {
      ValueReadsBack(Obj(ms), l, depth, s, p, k);
      var q := ValueEnd(ParseValue(s, p), Obj(ms), s, k);
    } else {
      var t := UnplainKeyStarts(key, v, l, depth, s, p, k);
      UnplainKeyMisread(key, s, t + 1);
      OnlyKeySurvives(key, v, s, t);
    }
  }

  /** An object that comes back with one member had its key read as it is. */
  lemma OnlyKeySurvives(key: Bytes, v: Value, s: Bytes, t: nat)
    requires t < |s| && s[t] == QUOTE
    ensures var r := ObjectLoop(s, t, []);
      r.err == PARSE_OK && r.value == Obj([Member(key, v)]) ==> Survives(key, ParseChars(s, t + 1, []))
  {
    hide ParseChars, ObjectLoop, SkipWs;
    var r := ObjectLoop(s, t, []);
    if r.err == PARSE_OK && r.value == Obj([Member(key, v)]) {
      FirstKeyStays(s, t);
      assert ParseKey(s, t).text == key;
    }
  }

  /** The reader reaches the raw key and takes the object for what its loop makes of it. */
  lemma UnplainKeyStarts(key: Bytes, v: Value, l: Layout, depth: nat, s: Bytes, p: nat, k: Rest) returns (t: nat)
    requires WsLayout(l) && Reads(s, p, CoreK(Obj([Member(key, v)]), l, depth, k))
    ensures t < |s| && s[t] == QUOTE && KeyAt(key, s, t + 1)
    ensures ParseValue(s, p) == ObjectLoop(s, t, [])
  {
    hide Reads, Then, Pad, CoreK, KeyK, ParseValue, ParseChars, ObjectLoop, SkipWs, AllWs, WsLayout,
      FirstMemberK, MembersK;
    var ms := [Member(key, v)];
    var q := ObjectOpens(ms, l, depth, s, p, k);
    var end := Then(Pad(l, depth), Then([RBRACE], k));
    PadIsWs(l, depth + 1);
    MembersUnfold(ms, true, l, depth + 1, end);
    SkipOver(s, q, Pad(l, depth + 1), FirstMemberK(ms, l, depth + 1, end));
    t := q + |Pad(l, depth + 1)|;
    FirstMemberUnfold(ms, l, depth + 1, end);
    var after := CoreK(v, l, depth + 1, Then(Tail(v, l, depth + 1), MembersK(ms[1..], false, l, depth + 1, end)));
    RawKey(key, s, t, after);
    SkipNone(s, t);
  }

  lemma RawKey(key: Bytes, s: Bytes, p: nat, k: Rest)
    requires Reads(s, p, KeyK(key, k))
    ensures p < |s| && s[p] == QUOTE && KeyAt(key, s, p + 1)
  {
    hide Reads, Then;
    PeelOne(s, p, QUOTE, Then(key, Then([QUOTE], Then([COLON], k))));
    Peel(s, p + 1, key, Then([QUOTE], Then([COLON], k)));
    PeelOne(s, p + 1 + |key|, QUOTE, Then([COLON], k));
  }

  // ----- arrays -----

  /** The texts of the items with the bytes of seps where the commas belong. */
  function Joined(items: seq<Value>, seps: Bytes): Bytes
    requires |items| == |seps| + 1
  {
    Core(items[0], Compact, 0) + if seps == [] then [] else [seps[0]] + Joined(items[1..], seps[1..])
  }

  function Separated(items: seq<Value>, seps: Bytes): Bytes
    requires |items| == |seps| + 1
  {
    [LBRACKET] + Joined(items, seps) + [RBRACKET]
  }

  /** The same in front of k. */
  function JoinedK(items: seq<Value>, seps: Bytes, k: Rest): Rest
    requires |items| == |seps| + 1
    decreases |items|, 1
  {
    CoreK(items[0], Compact, 0, AfterItem(items, seps, k))
  }

  function AfterItem(items: seq<Value>, seps: Bytes, k: Rest): Rest
    requires |items| == |seps| + 1
    decreases |items|, 0
  {
    if seps == [] then k else Then([seps[0]], JoinedK(items[1..], seps[1..], k))
  }

  lemma {:induction false} JoinedContinued(items: seq<Value>, seps: Bytes, k: Rest)
    requires |items| == |seps| + 1
    ensures Then(Joined(items, seps), k) == JoinedK(items, seps, k)
  {
    hide Core, CoreK, Then;
    var core := Core(items[0], Compact, 0);
    CoreContinued(items[0], Compact, 0, AfterItem(items, seps, k));
    if seps == [] {
      assert core + [] == core;
    } else {
      var rest := Joined(items[1..], seps[1..]);
      JoinedContinued(items[1..], seps[1..], k);
      ThenSplits(core, [seps[0]] + rest, k);
      ThenSplits([seps[0]], rest, k);
    }
  }

  predicate Solid(seps: Bytes) { forall i :: 0 <= i < |seps| ==> !IsWs(seps[i]) }

  /** What the loop of parseArray makes of the items from p on: all of them, or fewer when a closing
      bracket stands where a comma belongs. */
  predicate Collects(r: Parsed, items: seq<Value>, seps: Bytes, acc: seq<Value>, end: nat) {
    if RBRACKET in seps then r.err == PARSE_OK && r.value.Arr? && |r.value.items| < |acc| + |items|
    else r == Parsed(PARSE_OK, Arr(acc + items), end)
  }

  /** The byte after an item ends the array, or is skipped like a comma. */
  lemma {:induction false} LoopCollects(items: seq<Value>, seps: Bytes, s: Bytes, p: nat, acc: seq<Value>)
    requires |items| == |seps| + 1 && ReadableItems(items) && Solid(seps)
    requires Reads(s, p, JoinedK(items, seps, Then([RBRACKET], Rest([]))))
    ensures p <= |s| && SkipWs(s, p) == p && Front(s, p) != RBRACKET
    ensures Collects(ArrayLoop(s, p, acc), items, seps, acc, |s|)
    decreases |items|
  {
    hide CoreK, ParseValue, SkipWs, Reads, Then, ArrayLoop, Readable, JoinedK;
    var end := Then([RBRACKET], Rest([]));
    var v, k := items[0], AfterItem(items, seps, end);
    assert Reads(s, p, CoreK(v, Compact, 0, k)) by { FirstJoined(items, seps, end); }
    CoreStart(v, Compact, 0, s, p, k);
    SkipNone(s, p);
    ValueReadsBack(v, Compact, 0, s, p, k);
    var q := ValueEnd(ParseValue(s, p), v, s, k);
    if seps == [] {
      PeelOne(s, q, RBRACKET, Rest([]));
      SkipNone(s, q);
      ArrayTurn(s, p, acc, v, q);
      AtEnd(s, q + 1);
      assert items == [v];
    } else {
      var items', seps' := items[1..], seps[1..];
      PeelOne(s, q, seps[0], JoinedK(items', seps', end));
      SkipNone(s, q);
      ArrayTurn(s, p, acc, v, q);
      if seps[0] != RBRACKET {
        LoopCollects(items', seps', s, q + 1, acc + [v]);
        TakeFirst(acc, items);
        assert RBRACKET in seps <==> RBRACKET in seps' by { assert seps == [seps[0]] + seps'; }
      }
    }
  }

  lemma FirstJoined(items: seq<Value>, seps: Bytes, k: Rest)
    requires |items| == |seps| + 1
    ensures JoinedK(items, seps, k) == CoreK(items[0], Compact, 0, AfterItem(items, seps, k))
  {
  }

  /** parseArray takes any bytes but whitespace and the closing bracket for commas: the error that it records is
      overwritten by the next item. A closing bracket ends the array there. */
  lemma AnySeparatorIsAccepted(items: seq<Value>, seps: Bytes, held: Value)
    requires |items| == |seps| + 1 && ReadableItems(items) && Solid(seps)
    ensures var s := Separated(items, seps);
      var r := Parse(s, held);
      if RBRACKET in seps then !(r.err == PARSE_OK && r.value == Arr(items))
      else r == Parsed(PARSE_OK, Arr(items), |s|)
  {
    hide Separated, JoinedK, ParseValue, SkipWs, Reads, Then, ArrayLoop, Readable;
    var s, end := Separated(items, seps), Then([RBRACKET], Rest([]));
    JoinedContinued(items, seps, end);
    TextIs(items, seps);
    WholeText(LBRACKET, Joined(items, seps), RBRACKET);
    PeelOne(s, 0, LBRACKET, JoinedK(items, seps, end));
    SkipNone(s, 0);
    LoopCollects(items, seps, s, 1, []);
    ArrayStart(s, 0);
    assert [] + items == items;
    NoneAtEnd(s);
  }

  lemma TextIs(items: seq<Value>, seps: Bytes)
    requires |items| == |seps| + 1
    ensures Separated(items, seps) == [LBRACKET] + Joined(items, seps) + [RBRACKET]
  {
  }

  lemma NoneAtEnd(s: Bytes)
    ensures SkipWs(s, |s|) == |s|
  {
  }

  lemma WholeText(open: Byte, a: Bytes, close: Byte)
    ensures Reads([open] + a + [close], 0, Then([open], Then(a, Then([close], Rest([])))))
  {
    var s := [open] + a + [close];
    assert s[0..] == [open] + (a + ([close] + []));
  }

  lemma AtEnd(s: Bytes, p: nat)
    requires Reads(s, p, Rest([]))
    ensures p == |s| && SkipWs(s, p) == p
  {
  }

  /** One iteration of the loop of parseArray, on every next byte. */
  lemma ArrayTurn(s: Bytes, p: nat, acc: seq<Value>, v: Value, q: nat)
    requires p <= |s| && ParseValue(s, p) == Parsed(PARSE_OK, v, q) && q < |s| && SkipWs(s, q) == q
    ensures s[q] == RBRACKET ==> ArrayLoop(s, p, acc) == Parsed(PARSE_OK, Arr(acc + [v]), q + 1)
    ensures s[q] == COMMA ==> ArrayLoop(s, p, acc) == ArrayLoop(s, SkipWs(s, q + 1), acc + [v])
    ensures s[q] != RBRACKET && s[q] != COMMA ==> ArrayLoop(s, p, acc) == ArrayLoop(s, q + 1, acc + [v])
  {
    hide ParseValue, SkipWs;
  }

  // ----- strings -----

  /** A \\u and four hexadecimal digits, and the code they stand for. */
  predicate UnitAt(t: Bytes) {
    |t| >= 6 && t[0] == BACKSLASH && t[1] == LOWER_U && IsHex(t[2]) && IsHex(t[3]) && IsHex(t[4]) && IsHex(t[5])
  }

  function UnitOf(t: Bytes): nat
    requires UnitAt(t)
  {
    ((HexDigit(t[2]) * 16 + HexDigit(t[3])) * 16 + HexDigit(t[4])) * 16 + HexDigit(t[5])
  }

  /** The length of the complete escape at the front of t: two bytes for a letter, six for a unit, twelve
      for a surrogate pair; 0 if there is none. */
  function EscapeLength(t: Bytes): (n: nat)
    ensures n <= |t|
  {
    if |t| >= 2 && t[0] == BACKSLASH && ShortEscape(t[1]) != 0 then 2
    else if !UnitAt(t) then 0
    else if !(0xD800 <= UnitOf(t) <= 0xDBFF) then 6
    else if UnitAt(t[6..]) && 0xDC00 <= UnitOf(t[6..]) <= 0xDFFF then 12
    else 0
  }

  /** Plain bytes and complete escapes, and no bare quote. */
  predicate Unclosed(t: Bytes)
    decreases |t|
  {
    if t == [] then true
    else if t[0] == BACKSLASH then EscapeLength(t) > 0 && Unclosed(t[EscapeLength(t)..])
    else t[0] >= 0x20 && t[0] != QUOTE && Unclosed(t[1..])
  }

  /** Four hexadecimal digits at p. */
  lemma HexAt(s: Bytes, p: nat, t: Bytes)
    requires p <= |s| && t == s[p..]
    ensures var h := ParseHex(s, p, 0, p + 4);
      && (h.ok <==> |t| >= 4 && IsHex(t[0]) && IsHex(t[1]) && IsHex(t[2]) && IsHex(t[3]))
      && (h.ok ==> h.code == ((HexDigit(t[0]) * 16 + HexDigit(t[1])) * 16 + HexDigit(t[2])) * 16 + HexDigit(t[3]))
  {
    HexStep(s, p, 0, p + 4);
    if |t| >= 1 && IsHex(t[0]) {
      HexStep(s, p + 1, HexDigit(t[0]), p + 4);
      if |t| >= 2 && IsHex(t[1]) {
        var u := HexDigit(t[0]) * 16 + HexDigit(t[1]);
        HexStep(s, p + 2, u, p + 4);
        if |t| >= 3 && IsHex(t[2]) { HexStep(s, p + 3, u * 16 + HexDigit(t[2]), p + 4); }
      }
    }
  }

  lemma HexStep(s: Bytes, p: nat, u: nat, end: nat)
    requires p <= |s| && p < end
    ensures p == |s| || !IsHex(s[p]) ==> !ParseHex(s, p, u, end).ok
    ensures p < |s| && IsHex(s[p]) ==> ParseHex(s, p, u, end) == ParseHex(s, p + 1, u * 16 + HexDigit(s[p]), end)
    ensures p < |s| && p + 1 == end && IsHex(s[p]) ==>
      ParseHex(s, p, u, end) == Hex(true, u * 16 + HexDigit(s[p]), end)
  {
  }

  /** The reader takes exactly the complete escapes. */
  lemma EscapeLengthIs(s: Bytes, p: nat)
    requires p < |s| && s[p] == BACKSLASH
    ensures var e := ParseEscape(s, p + 1);
      && (e.err == PARSE_OK <==> EscapeLength(s[p..]) > 0)
      && (e.err == PARSE_OK ==> e.pos == p + EscapeLength(s[p..]))
  {
    hide ParseHex;
    var t := s[p..];
    if p + 1 < |s| && s[p + 1] == LOWER_U {
      assert s[p + 2..] == t[2..];
      HexAt(s, p + 2, t[2..]);
      if ParseHex(s, p + 2, 0, p + 6).ok && |t| >= 8 {
        assert t[6..][2..] == s[p + 8..];
        HexAt(s, p + 8, s[p + 8..]);
      }
    }
  }

  lemma {:induction false} UnclosedIff(s: Bytes, p: nat, buf: Bytes)
    requires p <= |s|
    ensures var r := ParseChars(s, p, buf); r.err == PARSE_OK && !r.closed <==> Unclosed(s[p..])
    decreases |s| - p
  {
    hide ParseEscape, EscapeLength;
    if p < |s| {
      var t := s[p..];
      if t[0] == BACKSLASH {
        EscapeLengthIs(s, p);
        var e := ParseEscape(s, p + 1);
        if e.err == PARSE_OK {
          assert t[EscapeLength(t)..] == s[e.pos..];
          UnclosedIff(s, e.pos, buf + e.out);
        }
      } else if t[0] >= 0x20 && t[0] != QUOTE {
        assert t[1..] == s[p + 1..];
        UnclosedIff(s, p + 1, buf + [s[p]]);
      }
    }
  }

  lemma OpenScanIsNull(s: Bytes, held: Value)
    requires s != [] && s[0] == QUOTE
    ensures var t := ParseChars(s, 1, []);
      Parse(s, held) == Parsed(PARSE_OK, Null, |s|) <==> t.err == PARSE_OK && !t.closed
  {
    hide ParseChars, ArrayLoop, ObjectLoop, ParseNumber, ParseLiteral, SkipWs;
    SkipNone(s, 0);
    NoneAtEnd(s);
  }

  /** A text that starts with a quote is taken for null, without an error and to its end, exactly when
      plain bytes and complete escapes follow, and no bare quote. */
  lemma UnterminatedStringIsNull(t: Bytes, held: Value)
    ensures Parse([QUOTE] + t, held) == Parsed(PARSE_OK, Null, 1 + |t|) <==> Unclosed(t)
  {
    hide ParseChars, Parse, Unclosed;
    var s := [QUOTE] + t;
    assert s[1..] == t;
    OpenScanIsNull(s, held);
    UnclosedIff(s, 1, []);
  }
}
