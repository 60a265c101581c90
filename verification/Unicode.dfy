/** The Unicode escapes of parseString against a reference decoder written from section 3 of
    RFC 3629, which rejects overlong forms, surrogates and codes above 0x10FFFF. */
module Unicode {
  import opened Octets
  import opened ReaderSpec
  import opened RoundTrip

  predicate IsScalarValue(u: nat) { u < 0xD800 || 0xE000 <= u <= 0x10_FFFF }

  predicate IsTail(b: Byte) { 0x80 <= b < 0xC0 }

  /** The bits a byte carries besides its marker. */
  function Bits(b: int, marker: int): int { b - marker }

  /** The code at the front of a text and its length in bytes. */
  function DecodeOne(b: Bytes): (r: Option<(nat, nat)>)
    requires b != []
    ensures r.Some? ==> 0 < r.value.1 <= |b|
  {
    if b[0] < 0x80 then Some((b[0], 1))
    else if 0xC0 <= b[0] < 0xE0 && |b| >= 2 && IsTail(b[1]) then
      InRange(Bits(b[0], 0xC0) * 0x40 + Bits(b[1], 0x80), 0x80, 2)
    else if 0xE0 <= b[0] < 0xF0 && |b| >= 3 && IsTail(b[1]) && IsTail(b[2]) then
      InRange(Bits(b[0], 0xE0) * 0x1000 + Bits(b[1], 0x80) * 0x40 + Bits(b[2], 0x80), 0x800, 3)
    else if 0xF0 <= b[0] < 0xF8 && |b| >= 4 && IsTail(b[1]) && IsTail(b[2]) && IsTail(b[3]) then
      InRange(Bits(b[0], 0xF0) * 0x4_0000 + Bits(b[1], 0x80) * 0x1000 + Bits(b[2], 0x80) * 0x40 + Bits(b[3], 0x80),
              0x1_0000, 4)
    else None
  }

  function InRange(u: int, least: nat, length: nat): Option<(nat, nat)> {
    if u >= least && IsScalarValue(u) then Some((u, length)) else None
  }

  function Decode(b: Bytes): Option<seq<nat>> {
    if b == [] then Some([])
    else
      var one := DecodeOne(b);
      if one.None? then None
      else
        var rest := Decode(b[one.value.1..]);
        if rest.None? then None else Some([one.value.0] + rest.value)
  }

  lemma Sextets(u: nat)
    ensures u == u / 0x1000 * 0x1000 + u / 0x40 % 0x40 * 0x40 + u % 0x40
    ensures u == u / 0x4_0000 * 0x4_0000 + u / 0x1000 % 0x40 * 0x1000 + u / 0x40 % 0x40 * 0x40 + u % 0x40
  {
    var d := u / 0x40;
    var e := d / 0x40;
    assert u / 0x1000 == e && u / 0x4_0000 == e / 0x40;
    assert u == d * 0x40 + u % 0x40 && d == e * 0x40 + d % 0x40 && e == e / 0x40 * 0x40 + e % 0x40;
  }

  /** The decoder undoes encodeUtf8 exactly on the scalar values. */
  lemma DecodeOneOfEncoded(u: nat, rest: Bytes)
    requires u < 0x11_0000
    ensures DecodeOne(EncodeUtf8(u) + rest) == if IsScalarValue(u) then Some((u, |EncodeUtf8(u)| as nat)) else None
  {
    var e, b := EncodeUtf8(u), EncodeUtf8(u) + rest;
    forall i | 0 <= i < |e|
      ensures b[i] == e[i]
    {
    }
    Sextets(u);
  }

  function Utf8(us: seq<nat>): Bytes
    requires forall i :: 0 <= i < |us| ==> us[i] < 0x11_0000
  {
    if us == [] then [] else EncodeUtf8(us[0]) + Utf8(us[1..])
  }

  lemma {:induction false} DecodeUtf8(us: seq<nat>)
    requires forall i :: 0 <= i < |us| ==> IsScalarValue(us[i])
    ensures (forall i :: 0 <= i < |us| ==> us[i] < 0x11_0000) && Decode(Utf8(us)) == Some(us)
  {
    if us != [] {
      var head, rest := EncodeUtf8(us[0]), Utf8(us[1..]);
      DecodeOneOfEncoded(us[0], rest);
      DecodeUtf8(us[1..]);
      assert (head + rest)[|head|..] == rest;
      assert [us[0]] + us[1..] == us;
    }
  }

  // ----- surrogate pairs -----

  predicate IsHigh(u: nat) { 0xD800 <= u <= 0xDBFF }

  predicate IsLow(u: nat) { 0xDC00 <= u <= 0xDFFF }

  /** The arithmetic of parseString on a pair. */
  function Combine(high: nat, low: nat): nat
    requires IsHigh(high) && IsLow(low)
  {
    0x1_0000 + (high - 0xD800) * 0x400 + (low - 0xDC00)
  }

  /** Pairs stand for the codes 0x10000..0x10FFFF: every one of them, and each only once. */
  lemma PairsCoverSupplementaryPlanes(u: nat, high: nat, low: nat)
    requires IsHigh(high) && IsLow(low)
    ensures 0x1_0000 <= Combine(high, low) <= 0x10_FFFF
    ensures 0x1_0000 <= u <= 0x10_FFFF ==>
              (Combine(high, low) == u <==>
                high == 0xD800 + (u - 0x1_0000) / 0x400 && low == 0xDC00 + (u - 0x1_0000) % 0x400)
    ensures 0x1_0000 <= u <= 0x10_FFFF ==>
              IsHigh(0xD800 + (u - 0x1_0000) / 0x400) && IsLow(0xDC00 + (u - 0x1_0000) % 0x400)
  {
  }

  // ----- escapes -----

  /** Four hexadecimal digits, in either case, that spell u. */
  predicate HexSpells(t: Bytes, u: nat) {
    && |t| == 4 && IsHex(t[0]) && IsHex(t[1]) && IsHex(t[2]) && IsHex(t[3])
    && u == ((HexDigit(t[0]) * 16 + HexDigit(t[1])) * 16 + HexDigit(t[2])) * 16 + HexDigit(t[3])
  }

  predicate UnitSpells(t: Bytes, u: nat) { |t| == 6 && t[0] == BACKSLASH && t[1] == LOWER_U && HexSpells(t[2..], u) }

  /** An escape of u: one \u unit below 0x10000, a surrogate pair above. */
  predicate Spells(t: Bytes, u: nat) {
    if u < 0x1_0000 then UnitSpells(t, u)
    else
      && u <= 0x10_FFFF && |t| == 12
      && UnitSpells(t[..6], 0xD800 + (u - 0x1_0000) / 0x400)
      && UnitSpells(t[6..], 0xDC00 + (u - 0x1_0000) % 0x400)
  }

  lemma HexReadsBack(t: Bytes, u: nat, s: Bytes, p: nat)
    requires HexSpells(t, u) && p + 4 <= |s| && s[p..p + 4] == t
    ensures ParseHex(s, p, 0, p + 4) == Hex(true, u, p + 4)
  {
    assert s[p] == t[0] && s[p + 1] == t[1] && s[p + 2] == t[2] && s[p + 3] == t[3];
    var a := HexDigit(t[0]);
    var b := a * 16 + HexDigit(t[1]);
    var c := b * 16 + HexDigit(t[2]);
    assert ParseHex(s, p, 0, p + 4) == ParseHex(s, p + 1, a, p + 4) == ParseHex(s, p + 2, b, p + 4);
    assert ParseHex(s, p + 2, b, p + 4) == ParseHex(s, p + 3, c, p + 4);
    assert ParseHex(s, p + 3, c, p + 4) == ParseHex(s, p + 4, u, p + 4);
  }

  lemma UnitReadsBack(t: Bytes, u: nat, s: Bytes, p: nat)
    requires UnitSpells(t, u) && p + 6 <= |s| && s[p..p + 6] == t
    ensures s[p] == BACKSLASH && s[p + 1] == LOWER_U && ParseHex(s, p + 2, 0, p + 6) == Hex(true, u, p + 6)
  {
    assert s[p] == t[0] && s[p + 1] == t[1];
    assert s[p + 2..p + 6] == t[2..];
    HexReadsBack(t[2..], u, s, p + 2);
  }

  lemma EscapeReadsBack(t: Bytes, u: nat, s: Bytes, p: nat, buf: Bytes)
    requires IsScalarValue(u) && Spells(t, u) && p + |t| <= |s| && s[p..p + |t|] == t
    ensures ParseChars(s, p, buf) == ParseChars(s, p + |t|, buf + EncodeUtf8(u))
  {
    hide ParseHex;
    if u < 0x1_0000 {
      UnitReadsBack(t, u, s, p);
      assert ParseEscape(s, p + 1) == ParseUnicode(s, p + 2) == Escape(PARSE_OK, EncodeUtf8(u), p + 6);
    } else {
      var high, low := 0xD800 + (u - 0x1_0000) / 0x400, 0xDC00 + (u - 0x1_0000) % 0x400;
      assert s[p..p + 6] == s[p..p + 12][..6] == t[..6];
      assert s[p + 6..p + 12] == s[p..p + 12][6..] == t[6..];
      UnitReadsBack(t[..6], high, s, p);
      UnitReadsBack(t[6..], low, s, p + 6);
      PairsCoverSupplementaryPlanes(u, high, low);
      assert ParseLowSurrogate(s, p + 6, high) == Escape(PARSE_OK, EncodeUtf8(u), p + 12);
      assert ParseEscape(s, p + 1) == ParseUnicode(s, p + 2) == Escape(PARSE_OK, EncodeUtf8(u), p + 12);
    }
  }

  datatype Unit = Unit(text: Bytes, code: nat)

  ghost predicate WellSpelled(units: seq<Unit>) {
    forall i :: 0 <= i < |units| ==> IsScalarValue(units[i].code) && Spells(units[i].text, units[i].code)
  }

  function Texts(units: seq<Unit>): Bytes {
    if units == [] then [] else units[0].text + Texts(units[1..])
  }

  function Codes(units: seq<Unit>): seq<nat> { seq(|units|, i requires 0 <= i < |units| => units[i].code) }

  lemma FirstCode(units: seq<Unit>, buf: Bytes)
    requires units != [] && WellSpelled(units)
    ensures buf + Utf8(Codes(units)) == buf + EncodeUtf8(units[0].code) + Utf8(Codes(units[1..]))
  {
    hide EncodeUtf8;
    assert Codes(units)[0] == units[0].code && Codes(units)[1..] == Codes(units[1..]);
  }

  lemma {:induction false} EscapesReadBack(units: seq<Unit>, s: Bytes, p: nat, buf: Bytes, k: Rest)
    requires WellSpelled(units) && Reads(s, p, Then(Texts(units), Then([QUOTE], k)))
    ensures ParseChars(s, p, buf) == Scanned(PARSE_OK, true, buf + Utf8(Codes(units)), p + |Texts(units)| + 1)
    decreases units
  {
    hide Reads, Then, ParseChars, Spells, EncodeUtf8;
    if units == [] {
      ThenNothing(Then([QUOTE], k));
      PeelOne(s, p, QUOTE, k);
      QuoteCloses(s, p, buf);
      assert buf + [] == buf;
    } else {
      var t, u, more := units[0].text, units[0].code, Texts(units[1..]);
      ThenSplits(t, more, Then([QUOTE], k));
      Peel(s, p, t, Then(more, Then([QUOTE], k)));
      assert s[p..p + |t|] == t;
      EscapeReadsBack(t, u, s, p, buf);
      EscapesReadBack(units[1..], s, p + |t|, buf + EncodeUtf8(u), k);
      FirstCode(units, buf);
    }
  }

  /** A string literal made of escapes of any scalar values parses to bytes that the reference
      decoder maps back to exactly those values. */
  lemma EscapedTextDecodes(units: seq<Unit>, rest: Bytes)
    requires WellSpelled(units)
    ensures var r := ParseChars(Texts(units) + [QUOTE] + rest, 0, []);
            r.err == PARSE_OK && r.closed && Decode(r.text) == Some(Codes(units))
  {
    var s := Texts(units) + [QUOTE] + rest;
    assert s[0..] == Texts(units) + ([QUOTE] + rest);
    EscapesReadBack(units, s, 0, [], Rest(rest));
    assert [] + Utf8(Codes(units)) == Utf8(Codes(units));
    DecodeUtf8(Codes(units));
  }

  /** An escape the reader accepts yields UTF-8 exactly when it does not start with a lone low
      surrogate, which the reader does not check for. */
  lemma EscapeIsUtf8IffNoLoneSurrogate(s: Bytes, p: nat)
    requires p <= |s| && ParseUnicode(s, p).err == PARSE_OK
    ensures Decode(ParseUnicode(s, p).out).Some? <==> !IsLow(ParseHex(s, p, 0, p + 4).code)
  {
    hide ParseHex, EncodeUtf8, DecodeOne;
    var h := ParseHex(s, p, 0, p + 4);
    ParseHexBound(s, p, 0, p + 4, 1);
    assert Pow16(4) == 0x1_0000;
    var u := if IsHigh(h.code) then Combine(h.code, ParseHex(s, p + 6, 0, p + 10).code) else h.code;
    assert ParseUnicode(s, p).out == EncodeUtf8(u);
    DecodeOneOfEncoded(u, []);
    assert EncodeUtf8(u) + [] == EncodeUtf8(u);
    assert EncodeUtf8(u)[|EncodeUtf8(u)|..] == [];
  }
}
