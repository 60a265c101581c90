/** The record of one log statement (LogServer/log_line.cpp, LogServer/log_line.hpp): tagged binary
    arguments behind a fixed header, in a buffer that starts on the stack and moves to the heap. The
    byte order of numbers is that of the machine, which writes and reads them itself. */
module LogLines {
  import opened Octets
  import opened Buffers

  /** The kinds of arguments, in the order of their tags. A literal is kept as its address; a double is
      kept as its 64 bits. */
  datatype Arg =
    | Char(c: Byte)
    | UInt32(u32: nat)
    | UInt64(u64: nat)
    | Int32(i32: int)
    | Int64(i64: int)
    | Double(bits: nat)
    | Literal(address: nat)
    | Text(text: Bytes)

  const WORD: int := 0x1_0000_0000
  const LONG: int := 0x1_0000_0000_0000_0000

  predicate Valid(a: Arg) {
    match a
    case Char(_) => true
    case UInt32(n) => n < WORD
    case UInt64(n) => n < LONG
    case Int32(n) => -WORD <= 2 * n < WORD
    case Int64(n) => -LONG <= 2 * n < LONG
    case Double(n) => n < LONG
    case Literal(n) => n < LONG
    case Text(_) => true
  }

  lemma Widths()
    ensures Pow256(4) == WORD && Pow256(8) == LONG
  {
    assert Pow256(2) == 0x1_0000;
    assert Pow256(4) == 0x1_0000_0000;
    assert Pow256(6) == 0x1_0000_0000_0000;
  }

  // ----- encoding -----

  function Tag(a: Arg): Byte {
    match a
    case Char(_) => 0
    case UInt32(_) => 1
    case UInt64(_) => 2
    case Int32(_) => 3
    case Int64(_) => 4
    case Double(_) => 5
    case Literal(_) => 6
    case Text(_) => 7
  }

  function Payload(a: Arg): Bytes
    requires Valid(a)
  {
    Widths();
    match a
    case Char(c) => [c]
    case UInt32(n) => BigEndian(n, 4)
    case UInt64(n) => BigEndian(n, 8)
    case Int32(n) => Encoded(n, 4)
    case Int64(n) => Encoded(n, 8)
    case Double(n) => BigEndian(n, 8)
    case Literal(n) => BigEndian(n, 8)
    case Text(t) => t + [0]
  }

  /** An empty string leaves no trace. */
  function Encode(a: Arg): Bytes
    requires Valid(a)
  {
    if a == Text([]) then [] else [Tag(a)] + Payload(a)
  }

  predicate AllValid(args: seq<Arg>) { forall i :: 0 <= i < |args| ==> Valid(args[i]) }

  function EncodeAll(args: seq<Arg>): Bytes
    requires AllValid(args)
  {
    if args == [] then [] else Encode(args[0]) + EncodeAll(args[1..])
  }

  // ----- decoding -----

  /** What stringify puts out, and whether it stopped at the end of the used bytes. A walk that jumps
      over that end is undefined from there on. */
  datatype Visit = Visit(args: seq<Arg>, finished: bool)

  /** The size of a fixed argument, or 0 for a tag that stands for none. */
  function Size(tag: Byte): nat {
    match tag
    case 0 => 1
    case 1 => 4
    case 2 => 8
    case 3 => 4
    case 4 => 8
    case 5 => 8
    case 6 => 8
    case _ => 0
  }

  function Fixed(tag: Byte, s: Bytes): Arg
    requires |s| == Size(tag) > 0
  {
    match tag
    case 0 => Char(s[0])
    case 1 => UInt32(FromBigEndian(s))
    case 2 => UInt64(FromBigEndian(s))
    case 3 => Int32(Decoded(s))
    case 4 => Int64(Decoded(s))
    case 5 => Double(FromBigEndian(s))
    case _ => Literal(FromBigEndian(s))
  }

  /** Where the first NUL at or after p is; |s| when there is none. */
  function NulAt(s: Bytes, p: nat): (r: nat)
    requires p <= |s|
    ensures p <= r <= |s| && (r < |s| ==> IsNul(s, r))
    ensures forall i :: p <= i < r ==> !IsNul(s, i)
    decreases |s| - p
  {
    if p == |s| || s[p] == 0 then p else NulAt(s, p + 1)
  }

  predicate IsNul(s: Bytes, i: int) { 0 <= i < |s| && s[i] == 0 }

  lemma NulAtIs(s: Bytes, p: nat, r: nat)
    requires p <= r <= |s| && (r < |s| ==> IsNul(s, r)) && forall i :: p <= i < r ==> !IsNul(s, i)
    ensures NulAt(s, p) == r
  {
    var q := NulAt(s, p);
    assert q < r ==> !IsNul(s, q);
  }

  function Cons(a: Arg, v: Visit): Visit { v.(args := [a] + v.args) }

  /** What one turn of the loop of stringify does with the bytes left. */
  datatype Turn = Shows(arg: Arg, length: nat) | Skips | Overruns(shown: seq<Arg>)

  function NextTurn(s: Bytes): (t: Turn)
    requires s != []
    ensures t.Shows? ==> 0 < t.length <= |s|
  {
    var n := Size(s[0]);
    if n > 0 then
      if |s| < 1 + n then Overruns([]) else Shows(Fixed(s[0], s[1..1 + n]), 1 + n)
    else if s[0] == 7 then
      var r := NulAt(s, 1);
      if r == |s| then Overruns([Text(s[1..])]) else Shows(Text(s[1..r]), r + 1)
    else Skips
  }

  /** The loop of stringify; an unknown tag is skipped. */
  function Decode(s: Bytes): Visit
    decreases |s|
  {
    if s == [] then Visit([], true)
    else
      match NextTurn(s)
      case Shows(a, n) => Cons(a, Decode(s[n..]))
      case Skips => Decode(s[1..])
      case Overruns(shown) => Visit(shown, false)
  }

  lemma DecodeShows(s: Bytes, a: Arg, rest: Bytes)
    requires s != [] && NextTurn(s).Shows? && NextTurn(s).arg == a && s[NextTurn(s).length..] == rest
    ensures Decode(s) == Cons(a, Decode(rest))
  {
    hide NextTurn;
  }

  // ----- the round trip -----

  /** The arguments that leave a trace. */
  function Shown(args: seq<Arg>): seq<Arg> {
    if args == [] then []
    else (if args[0] == Text([]) then [] else [args[0]]) + Shown(args[1..])
  }

  predicate NulFree(a: Arg) { a.Text? ==> forall i :: 0 <= i < |a.text| ==> a.text[i] != 0 }

  lemma FixedReadsBack(a: Arg)
    requires Valid(a) && !a.Text?
    ensures Size(Tag(a)) == |Payload(a)| > 0 && Fixed(Tag(a), Payload(a)) == a
  {
    Widths();
    match a
    case Char(_) =>
    case UInt32(n) => FromBigEndianOf(n, 4);
    case UInt64(n) => FromBigEndianOf(n, 8);
    case Int32(n) => DecodedOfEncoded(n, 4);
    case Int64(n) => DecodedOfEncoded(n, 8);
    case Double(n) => FromBigEndianOf(n, 8);
    case Literal(n) => FromBigEndianOf(n, 8);
  }

  lemma FixedDecodes(a: Arg, rest: Bytes)
    requires Valid(a) && !a.Text?
    ensures Decode(Encode(a) + rest) == Cons(a, Decode(rest))
  {
    hide Payload, Fixed, Valid, Decode, Size, Tag;
    FixedReadsBack(a);
    HeadSlices(Tag(a), Payload(a), rest);
    DecodeShows(Encode(a) + rest, a, rest);
  }

  lemma HeadSlices(tag: Byte, payload: Bytes, rest: Bytes)
    ensures var s, n := [tag] + payload + rest, |payload|;
      s[0] == tag && |s| == 1 + n + |rest| && s[1..1 + n] == payload && s[1 + n..] == rest
  {
    assert [tag] + payload + rest == [tag] + (payload + rest);
  }

  /** A string comes out up to its first NUL, and what follows it is taken for further arguments. */
  lemma TextDecodes(t: Bytes, rest: Bytes)
    requires t != []
    ensures var r := NulAt(t, 0);
      Decode(Encode(Text(t)) + rest) == Cons(Text(t[..r]), Decode((t + [0])[r + 1..] + rest))
  {
    hide Decode, Encode, NextTurn, IsNul;
    var s, r := Encode(Text(t)) + rest, NulAt(t, 0);
    TextStarts(t, rest);
    TextSlices(t, rest, r);
    NulOfText(t, s);
    TextTurn(s);
    DecodeShows(s, Text(t[..r]), (t + [0])[r + 1..] + rest);
  }

  lemma TextTurn(s: Bytes)
    requires s != [] && s[0] == 7 && NulAt(s, 1) < |s|
    ensures NextTurn(s) == Shows(Text(s[1..NulAt(s, 1)]), NulAt(s, 1) + 1)
  {
    hide Fixed;
  }

  lemma NulOfText(t: Bytes, s: Bytes)
    requires 1 + |t| < |s| && s[1 + |t|] == 0 && forall i :: 0 <= i < |t| ==> s[1 + i] == t[i]
    ensures NulAt(s, 1) == 1 + NulAt(t, 0)
  {
    var r := NulAt(t, 0);
    assert IsNul(s, 1 + r) by { assert r < |t| ==> IsNul(t, r); }
    forall i | 1 <= i < 1 + r
      ensures !IsNul(s, i)
    {
      assert !IsNul(t, i - 1);
    }
    NulAtIs(s, 1, 1 + r);
  }

  lemma TextStarts(t: Bytes, rest: Bytes)
    requires t != []
    ensures var s := Encode(Text(t)) + rest;
      && |s| == |t| + 2 + |rest| && s[0] == 7 && s[1 + |t|] == 0
      && (forall i :: 0 <= i < |t| ==> s[1 + i] == t[i])
  {
    var s, u := Encode(Text(t)) + rest, t + [0];
    assert s == [7] + u + rest;
    assert u[|t|] == 0;
    forall i | 0 <= i < |u|
      ensures s[1 + i] == u[i]
    {
    }
  }

  lemma TextSlices(t: Bytes, rest: Bytes, r: nat)
    requires t != [] && r <= |t|
    ensures var s := Encode(Text(t)) + rest;
      s[1..1 + r] == t[..r] && s[2 + r..] == (t + [0])[r + 1..] + rest
  {
    var s, u := Encode(Text(t)) + rest, t + [0];
    assert s[1..] == u + rest by { assert s == [7] + (u + rest); }
    assert s[1..1 + r] == s[1..][..r] == u[..r] == t[..r];
    assert s[2 + r..] == s[1..][r + 1..] == u[r + 1..] + rest;
  }

  /** Bytes that are no tags are skipped. */
  lemma {:induction false} UnknownSkipped(b: Bytes, rest: Bytes)
    requires forall i :: 0 <= i < |b| ==> b[i] > 7
    ensures Decode(b + rest) == Decode(rest)
    decreases |b|
  {
    hide Fixed;
    if b == [] {
      assert b + rest == rest;
    } else {
      assert (b + rest)[1..] == b[1..] + rest;
      UnknownSkipped(b[1..], rest);
    }
  }

  /** A string that holds a NUL with printable text on both sides: the text behind the NUL vanishes, and the
      terminator is taken for the tag of a char, whose byte is the tag of the next argument. */
  lemma NulSwallowsNextTag(a: Bytes, b: Bytes, c: Byte, rest: Bytes)
    requires a != [] && (forall i :: 0 <= i < |a| ==> a[i] > 7) && (forall i :: 0 <= i < |b| ==> b[i] > 7)
    ensures Decode(Encode(Text(a + [0] + b)) + ([c] + rest)) == Cons(Text(a), Cons(Char(c), Decode(rest)))
  {
    hide Decode, Encode, NulAt;
    var t, r := a + [0] + b, |a|;
    assert t[r] == 0 && forall i :: 0 <= i < r ==> t[i] == a[i];
    NulAtIs(t, 0, r);
    TextDecodes(t, [c] + rest);
    assert t[..r] == a && (t + [0])[r + 1..] + ([c] + rest) == b + ([0, c] + rest);
    UnknownSkipped(b, [0, c] + rest);
    CharDecodes(c, rest);
  }

  lemma CharDecodes(c: Byte, rest: Bytes)
    ensures Decode([0, c] + rest) == Cons(Char(c), Decode(rest))
  {
    hide Decode;
    FixedDecodes(Char(c), rest);
    assert Encode(Char(c)) == [0, c];
  }

  lemma ArgDecodesIff(a: Arg, rest: Bytes)
    requires Valid(a) && a != Text([])
    ensures NulFree(a) ==> Decode(Encode(a) + rest) == Cons(a, Decode(rest))
    ensures !NulFree(a) ==> Decode(Encode(a) + rest).args != [] && Decode(Encode(a) + rest).args[0] != a
  {
    hide Decode, Encode;
    if a.Text? {
      var t := a.text;
      TextDecodes(t, rest);
      var r := NulAt(t, 0);
      if NulFree(a) {
        NulAtIs(t, 0, |t|);
        assert t[..|t|] == t && (t + [0])[|t| + 1..] + rest == rest;
      } else {
        var i :| 0 <= i < |t| && t[i] == 0;
        assert IsNul(t, i);
        assert |t[..r]| < |t|;
      }
    } else {
      FixedDecodes(a, rest);
    }
  }

  /** stringify visits exactly the arguments of the statement, in order, and stops exactly at the end
      of the used bytes, if and only if none of the strings contains a NUL. */
  lemma {:induction false} VisitsArgumentsIff(args: seq<Arg>)
    requires AllValid(args)
    ensures Decode(EncodeAll(args)) == Visit(Shown(args), true) <==> forall i :: 0 <= i < |args| ==> NulFree(args[i])
    decreases args
  {
    hide Valid, NulFree;
    if args != [] {
      hide Decode, Encode;
      var a, more := args[0], args[1..];
      VisitsArgumentsIff(more);
      assert (forall i :: 0 <= i < |args| ==> NulFree(args[i])) <==>
             NulFree(a) && forall i :: 0 <= i < |more| ==> NulFree(more[i]) by { AllSplit(args); }
      if a == Text([]) {
        EmptyVanishes(EncodeAll(more));
        assert [] + Shown(more) == Shown(more);
      } else {
        ArgDecodesIff(a, EncodeAll(more));
        ConsShown(a, Decode(EncodeAll(more)), Shown(more));
      }
    }
  }

  lemma EmptyVanishes(rest: Bytes)
    ensures Encode(Text([])) + rest == rest && NulFree(Text([]))
  {
  }

  lemma ConsShown(a: Arg, v: Visit, shown: seq<Arg>)
    ensures Cons(a, v) == Visit([a] + shown, true) <==> v == Visit(shown, true)
  {
    assert ([a] + v.args)[1..] == v.args && ([a] + shown)[1..] == shown;
  }

  lemma AllSplit(args: seq<Arg>)
    requires args != []
    ensures (forall i :: 0 <= i < |args| ==> NulFree(args[i]))
        <==> NulFree(args[0]) && forall i :: 0 <= i < |args[1..]| ==> NulFree(args[1..][i])
  {
    hide NulFree;
    if NulFree(args[0]) && forall i :: 0 <= i < |args[1..]| ==> NulFree(args[1..][i]) {
      forall i | 0 <= i < |args|
        ensures NulFree(args[i])
      {
        if i > 0 { assert args[1..][i - 1] == args[i]; }
      }
    }
  }

  // ----- the header -----

  /** Time, thread, the addresses of the file and function names, line and level. */
  datatype Header = Header(time: nat, thread: nat, file: nat, func: nat, line: nat, level: nat)

  const HEADER_SIZE := 37

  predicate ValidHeader(h: Header) {
    h.time < LONG && h.thread < LONG && h.file < LONG && h.func < LONG && h.line < WORD && h.level < 256
  }

  function EncodeHeader(h: Header): (s: Bytes)
    ensures |s| == HEADER_SIZE
  {
    BigEndian(h.time, 8) + BigEndian(h.thread, 8) + BigEndian(h.file, 8) + BigEndian(h.func, 8)
    + BigEndian(h.line, 4) + BigEndian(h.level, 1)
  }

  function DecodeHeader(s: Bytes): Header
    requires |s| >= HEADER_SIZE
  {
    Header(FromBigEndian(s[..8]), FromBigEndian(s[8..16]), FromBigEndian(s[16..24]), FromBigEndian(s[24..32]),
           FromBigEndian(s[32..36]), FromBigEndian(s[36..37]))
  }

  lemma HeaderReadsBack(h: Header, rest: Bytes)
    requires ValidHeader(h)
    ensures DecodeHeader(EncodeHeader(h) + rest) == h
  {
    Widths();
    assert Pow256(1) == 256;
    FromBigEndianOf(h.time, 8);
    FromBigEndianOf(h.thread, 8);
    FromBigEndianOf(h.file, 8);
    FromBigEndianOf(h.func, 8);
    FromBigEndianOf(h.line, 4);
    FromBigEndianOf(h.level, 1);
    Fields(BigEndian(h.time, 8), BigEndian(h.thread, 8), BigEndian(h.file, 8), BigEndian(h.func, 8),
           BigEndian(h.line, 4), BigEndian(h.level, 1), rest);
  }

  lemma Fields(a: Bytes, b: Bytes, c: Bytes, d: Bytes, e: Bytes, f: Bytes, rest: Bytes)
    requires |a| == |b| == |c| == |d| == 8 && |e| == 4 && |f| == 1
    ensures var s := a + b + c + d + e + f + rest;
      s[..8] == a && s[8..16] == b && s[16..24] == c && s[24..32] == d && s[32..36] == e && s[36..37] == f
  {
  }

  // ----- the code -----

  const STACK_SIZE := 256
  const FIRST_HEAP_SIZE := 512

  function Max(a: nat, b: nat): nat { if a < b then b else a }

  class LogLine {
    const stack: array<Byte>
    var heap: array?<Byte>
    var used: nat
    var size: nat

    ghost predicate Ready()
      reads this
    {
      && stack.Length == STACK_SIZE
      && used <= size
      && (if heap == null then size == STACK_SIZE else size == heap.Length)
    }

    /** The buffer in use. */
    function Memory(): array<Byte>
      reads this
    {
      if heap == null then stack else heap
    }

    ghost function Contents(): (s: Bytes)
      requires Ready()
      reads this, stack, heap
      ensures |s| == used
    {
      Memory()[..used]
    }

    constructor (h: Header)
      ensures Ready() && Contents() == EncodeHeader(h) && fresh(stack) && heap == null
    {
      stack := new Byte[STACK_SIZE](_ => 0);
      heap := null;
      used, size := 0, STACK_SIZE;
      new;
      EncodeRaw(BigEndian(h.time, 8));
      EncodeRaw(BigEndian(h.thread, 8));
      EncodeRaw(BigEndian(h.file, 8));
      EncodeRaw(BigEndian(h.func, 8));
      EncodeRaw(BigEndian(h.line, 4));
      EncodeRaw(BigEndian(h.level, 1));
      assert [] + BigEndian(h.time, 8) == BigEndian(h.time, 8);
    }

    /** encode without a tag: the caller has made room. */
    method EncodeRaw(bytes: Bytes)
      requires Ready() && used + |bytes| <= size
      modifies `used, Memory()
      ensures Ready() && heap == old(heap) && size == old(size)
      ensures Contents() == old(Contents()) + bytes
    {
      var memory := Memory();
      CopyIn(bytes, memory, used);
      assert memory[..used + |bytes|] == memory[..used] + memory[used..used + |bytes|];
      used := used + |bytes|;
    }

    /** From the stack to at least 512 bytes on the heap, then at least twice as much each time. */
    method ResizeIfNeed(need: nat)
      requires Ready()
      modifies `heap, `size
      ensures Ready() && Contents() == old(Contents()) && used + need <= size
      ensures Memory() == old(Memory()) || fresh(Memory())
      ensures size == if used + need <= old(size) then old(size)
                      else Max(if old(heap) == null then FIRST_HEAP_SIZE else 2 * old(size), used + need)
    {
      var required := used + need;
      if required <= size { return; }
      if heap != null {
        size := Max(2 * size, required);
      } else {
        size := Max(FIRST_HEAP_SIZE, required);
      }
      var bigger := new Byte[size](_ => 0);
      CopyIn(Memory()[..used], bigger, 0);
      assert bigger[..used] == bigger[0..used];
      heap := bigger;
    }

    method EncodeTagged(tag: Byte, bytes: Bytes)
      requires Ready()
      modifies this, Memory()
      ensures Ready() && Contents() == old(Contents()) + [tag] + bytes
      ensures Memory() == old(Memory()) || fresh(Memory())
    {
      ResizeIfNeed(|bytes| + 1);
      EncodeRaw([tag]);
      EncodeRaw(bytes);
    }

    /** encode_c_str copies the terminating NUL as well. */
    method EncodeCStr(str: Bytes)
      requires Ready()
      modifies this, Memory()
      ensures Ready() && Contents() == old(Contents()) + Encode(Text(str))
      ensures Memory() == old(Memory()) || fresh(Memory())
    {
      if |str| == 0 {
        assert Contents() + [] == Contents();
        return;
      }
      ResizeIfNeed(1 + |str| + 1);
      EncodeRaw([7]);
      EncodeRaw(str + [0]);
      assert old(Contents()) + [7] + (str + [0]) == old(Contents()) + ([7] + (str + [0]));
    }

    /** operator<<. */
    method Append(a: Arg)
      requires Ready() && Valid(a)
      modifies this, Memory()
      ensures Ready() && Contents() == old(Contents()) + Encode(a)
      ensures Memory() == old(Memory()) || fresh(Memory())
    {
      if a.Text? {
        EncodeCStr(a.text);
      } else {
        EncodeTagged(Tag(a), Payload(a));
        assert old(Contents()) + [Tag(a)] + Payload(a) == old(Contents()) + ([Tag(a)] + Payload(a));
      }
    }

    /** A whole statement, through any number of growths. */
    method AppendAll(args: seq<Arg>)
      requires Ready() && AllValid(args)
      modifies this, Memory()
      ensures Ready() && Contents() == old(Contents()) + EncodeAll(args)
    {
      hide Encode, EncodeAll, Valid;
      var i := 0;
      assert args[0..] == args;
      while i < |args|
        invariant 0 <= i <= |args| && Ready()
        invariant Memory() == old(Memory()) || fresh(Memory())
        invariant Contents() + EncodeAll(args[i..]) == old(Contents()) + EncodeAll(args)
      {
        OneMore(Contents(), args, i);
        Append(args[i]);
        i := i + 1;
      }
      NoMore(Contents(), args);
    }

    /** stringify, as the header and the arguments that it prints. */
    method Stringify() returns (h: Header, v: Visit)
      requires Ready() && used >= HEADER_SIZE
      ensures h == DecodeHeader(Contents()) && v == Decode(Contents()[HEADER_SIZE..])
    {
      var s := Memory()[..used];
      h := DecodeHeader(s);
      v := Walk(s, HEADER_SIZE);
    }
  }

  /** A log statement from its arguments to what is put out for them: the header and every argument,
      exactly when no string holds a NUL. */
  method Record(h: Header, args: seq<Arg>) returns (shown: Header, v: Visit)
    requires ValidHeader(h) && AllValid(args)
    ensures shown == h
    ensures v == Visit(Shown(args), true) <==> forall i :: 0 <= i < |args| ==> NulFree(args[i])
  {
    hide EncodeHeader, DecodeHeader, Decode, EncodeAll, NulFree, Valid, ValidHeader;
    var line := new LogLine(h);
    line.AppendAll(args);
    HeaderReadsBack(h, EncodeAll(args));
    VisitsArgumentsIff(args);
    assert (EncodeHeader(h) + EncodeAll(args))[HEADER_SIZE..] == EncodeAll(args);
    shown, v := line.Stringify();
  }

  lemma OneMore(before: Bytes, args: seq<Arg>, i: nat)
    requires AllValid(args) && i < |args|
    ensures before + EncodeAll(args[i..]) == before + Encode(args[i]) + EncodeAll(args[i + 1..])
  {
    hide Encode;
    assert args[i..][0] == args[i] && args[i..][1..] == args[i + 1..];
  }

  lemma NoMore(before: Bytes, args: seq<Arg>)
    ensures before + EncodeAll(args[|args|..]) == before
  {
  }

  /** The loop of stringify over the used bytes from begin on. */
  method Walk(s: Bytes, begin: nat) returns (v: Visit)
    requires begin <= |s|
    ensures v == Decode(s[begin..])
  {
    hide Decode, Fixed, Prepend;
    var p, args := begin, [];
    PrependNothing(Decode(s[begin..]));
    while p != |s|
      invariant begin <= p <= |s|
      invariant Prepend(args, Decode(s[p..])) == Decode(s[begin..])
      decreases |s| - p
    {
      var turn := ReadOne(s, p);
      WalkStep(args, s, p);
      match turn {
        case Shows(a, n) => args, p := args + [a], p + n;
        case Skips => p := p + 1;
        case Overruns(shown) => return Visit(args + shown, false);
      }
    }
    DecodeNothing(args, s);
    return Visit(args, true);
  }

  /** The switch of the loop and the decode that it selects. */
  method ReadOne(s: Bytes, p: nat) returns (t: Turn)
    requires p < |s|
    ensures t == NextTurn(s[p..])
  {
    hide Fixed;
    var tag, at := s[p], p + 1;
    var n := Size(tag);
    if n > 0 {
      if |s| - at < n { return Overruns([]); }
      assert s[p..][1..1 + n] == s[at..at + n];
      return Shows(Fixed(tag, s[at..at + n]), 1 + n);
    } else if tag == 7 {
      var q := at;
      while q < |s| && s[q] != 0
        invariant at <= q <= |s|
        invariant forall i :: at <= i < q ==> !IsNul(s, i)
      {
        q := q + 1;
      }
      NulInRest(s, p, q);
      assert s[p..][1..q - p] == s[at..q];
      assert q == |s| ==> s[p..][1..] == s[at..q];
      return if q == |s| then Overruns([Text(s[at..q])]) else Shows(Text(s[at..q]), q - p + 1);
    } else {
      return Skips;
    }
  }

  function Prepend(args: seq<Arg>, v: Visit): Visit { v.(args := args + v.args) }

  lemma PrependNothing(v: Visit)
    ensures Prepend([], v) == v
  {
    assert [] + v.args == v.args;
  }

  lemma DecodeNothing(args: seq<Arg>, s: Bytes)
    ensures Prepend(args, Decode(s[|s|..])) == Visit(args, true)
  {
  }

  /** One turn of the loop at p, after args. */
  lemma WalkStep(args: seq<Arg>, s: Bytes, p: nat)
    requires p < |s|
    ensures var all := Prepend(args, Decode(s[p..]));
      match NextTurn(s[p..])
      case Shows(a, n) => p + n <= |s| && all == Prepend(args + [a], Decode(s[p + n..]))
      case Skips => all == Prepend(args, Decode(s[p + 1..]))
      case Overruns(shown) => all == Visit(args + shown, false)
  {
    hide NextTurn;
    var rest := s[p..];
    match NextTurn(rest)
    case Shows(a, n) =>
      assert rest[n..] == s[p + n..];
      assert args + ([a] + Decode(rest[n..]).args) == args + [a] + Decode(rest[n..]).args;
    case Skips => assert rest[1..] == s[p + 1..];
    case Overruns(_) =>
  }

  lemma NulInRest(s: Bytes, p: nat, q: nat)
    requires p < q <= |s| && (q < |s| ==> IsNul(s, q)) && forall i :: p < i < q ==> !IsNul(s, i)
    ensures NulAt(s[p..], 1) == q - p
  {
    forall i | 1 <= i < q - p
      ensures !IsNul(s[p..], i)
    {
      assert !IsNul(s, p + i);
    }
    NulAtIs(s[p..], 1, q - p);
  }
}
