/** The growable, compacting byte buffer of a connection (NetServer/Buffer.h, NetServer/Buffer.cpp).
    A caller sees only Contents(), the readable bytes; the asserts of the source are preconditions
    where they constrain the caller and assertions where the class itself must meet them. */
module Buffers {
  import opened Octets

  const CHEAP_PREPEND := 8
  const INITIAL_SIZE := 1024
  const EXTRA_SIZE := 65536

  // ----- the end of a line -----

  predicate IsCrlf(s: Bytes, i: int) { 0 <= i < |s| - 1 && s[i] == CR && s[i + 1] == LF }

  /** Where the first CRLF at or after p starts; |s| when there is none, as std::search has it. */
  function FirstCrlf(s: Bytes, p: nat): (r: nat)
    requires p <= |s|
    ensures p <= r <= |s|
    ensures r < |s| ==> IsCrlf(s, r)
    ensures forall i :: p <= i < r ==> !IsCrlf(s, i)
    decreases |s| - p
  {
    if p == |s| || IsCrlf(s, p) then p else FirstCrlf(s, p + 1)
  }

  /** Its contract determines FirstCrlf. */
  lemma FirstCrlfIs(s: Bytes, p: nat, r: nat)
    requires p <= r <= |s| && (r < |s| ==> IsCrlf(s, r))
    requires forall i :: p <= i < r ==> !IsCrlf(s, i)
    ensures FirstCrlf(s, p) == r
  {
    var q := FirstCrlf(s, p);
    assert q < r ==> !IsCrlf(s, q);
  }

  /** Bytes that arrive later cannot move a line end that was found. */
  lemma FirstCrlfStays(s: Bytes, more: Bytes)
    requires FirstCrlf(s, 0) < |s|
    ensures FirstCrlf(s + more, 0) == FirstCrlf(s, 0)
  {
    var r := FirstCrlf(s, 0);
    forall i | 0 <= i < r
      ensures !IsCrlf(s + more, i)
    {
      assert !IsCrlf(s, i);
    }
    FirstCrlfIs(s + more, 0, r);
  }

  // ----- integers in network byte order -----

  function Pow256(n: nat): int { if n == 0 then 1 else 256 * Pow256(n - 1) }

  /** The low n bytes of u, most significant first. */
  function BigEndian(u: nat, n: nat): (r: Bytes)
    ensures |r| == n
  {
    if n == 0 then [] else BigEndian(u / 256, n - 1) + [u % 256]
  }

  function FromBigEndian(s: Bytes): nat {
    if s == [] then 0 else FromBigEndian(s[..|s| - 1]) * 256 + s[|s| - 1]
  }

  lemma {:induction false} FromBigEndianOf(u: nat, n: nat)
    requires u < Pow256(n)
    ensures FromBigEndian(BigEndian(u, n)) == u
  {
    if n > 0 {
      FromBigEndianOf(u / 256, n - 1);
      assert BigEndian(u, n)[..n - 1] == BigEndian(u / 256, n - 1);
    }
  }

  lemma {:induction false} Pow256Positive(n: nat)
    ensures Pow256(n) > 0
  {
    if n > 0 { Pow256Positive(n - 1); }
  }

  /** Byte i from the right has the place of 256^i. */
  lemma {:induction false} BigEndianByte(u: nat, n: nat, i: nat)
    requires i < n
    ensures Pow256(i) > 0 && BigEndian(u, n)[n - 1 - i] == u / Pow256(i) % 256
  {
    Pow256Positive(i);
    if i > 0 {
      BigEndianByte(u / 256, n - 1, i - 1);
      DividedTwice(u, 256, Pow256(i - 1));
    }
  }

  /** The numbers that a signed integer of n bytes holds. */
  predicate Fits(x: int, n: nat) { -Pow256(n) <= 2 * x < Pow256(n) }

  /** An intN_t as it is stored after htobeN: two's complement, most significant byte first. */
  function Encoded(x: int, n: nat): (r: Bytes)
    requires Fits(x, n)
    ensures |r| == n
  {
    BigEndian(if x < 0 then x + Pow256(n) else x, n)
  }

  lemma {:induction false} Complement(y: nat, n: nat, k: nat)
    requires y < Pow256(n) && k < n
    ensures BigEndian(Pow256(n) - 1 - y, n)[k] == 255 - BigEndian(y, n)[k]
  {
    var u := Pow256(n) - 1 - y;
    assert u / 256 == Pow256(n - 1) - 1 - y / 256 && u % 256 == 255 - y % 256;
    if k < n - 1 { Complement(y / 256, n - 1, k); }
  }

  /** Two's complement in network byte order: byte i from the right of a number that is not negative has the
      place of 256^i, and a negative number has the complement of every byte of -x - 1. */
  lemma EncodedByte(x: int, n: nat, i: nat)
    requires Fits(x, n) && i < n
    ensures Pow256(i) > 0
    ensures Encoded(x, n)[n - 1 - i]
         == if x >= 0 then x / Pow256(i) % 256 else 255 - (-x - 1) / Pow256(i) % 256
  {
    var y: nat := if x >= 0 then x else -x - 1;
    BigEndianByte(y, n, i);
    if x < 0 { Complement(y, n, n - 1 - i); }
  }

  function Decoded(s: Bytes): int {
    var u := FromBigEndian(s);
    if 2 * u < Pow256(|s|) then u else u - Pow256(|s|)
  }

  /** Network byte order loses nothing at any width. */
  lemma DecodedOfEncoded(x: int, n: nat)
    requires Fits(x, n)
    ensures Decoded(Encoded(x, n)) == x
  {
    FromBigEndianOf(if x < 0 then x + Pow256(n) else x, n);
  }

  // ----- copying -----

  /** std::copy towards the front of the same array; the ranges may overlap. */
  method CopyDown(a: array<Byte>, from: nat, to: nat, n: nat)
    requires to < from && from + n <= a.Length
    modifies a
    ensures a[to..to + n] == old(a[from..from + n])
    ensures a[..to] == old(a[..to])
  {
    ghost var was := a[..];
    var i := 0;
    while i < n
      invariant 0 <= i <= n
      invariant a[to..to + i] == was[from..from + i]
      invariant a[from + i..] == was[from + i..]
      invariant a[..to] == was[..to]
    {
      assert a[from + i..][0] == was[from + i..][0];
      a[to + i] := a[from + i];
      i := i + 1;
    }
  }

  lemma Rejoin(was: Bytes, data: Bytes, n: nat)
    requires n <= |data|
    ensures was + data[..n] + data[n..] == was + data && data[..|data|] == data
  {
  }

  /** std::copy of foreign bytes into an array. */
  method CopyIn(data: Bytes, a: array<Byte>, at: nat)
    requires at + |data| <= a.Length
    modifies a
    ensures a[at..at + |data|] == data
    ensures a[..at] == old(a[..at]) && a[at + |data|..] == old(a[at + |data|..])
  {
    var i := 0;
    while i < |data|
      invariant 0 <= i <= |data|
      invariant forall k :: 0 <= k < i ==> a[at + k] == data[k]
      invariant forall k :: 0 <= k < at || at + i <= k < a.Length ==> a[k] == old(a[k])
    {
      a[at + i] := data[i];
      i := i + 1;
    }
  }

  // ----- the buffer -----

  class Buffer {
    var buffer: array<Byte>
    var readerIndex: nat
    var writerIndex: nat

    ghost predicate Valid()
      reads this
    {
      CHEAP_PREPEND <= buffer.Length && readerIndex <= writerIndex <= buffer.Length
    }

    ghost function Contents(): (s: Bytes)
      requires Valid()
      reads this, buffer
      ensures |s| == writerIndex - readerIndex
    {
      buffer[readerIndex..writerIndex]
    }

    constructor (initialSize: nat := INITIAL_SIZE)
      ensures Valid() && fresh(buffer) && Contents() == [] && buffer.Length == CHEAP_PREPEND + initialSize
      ensures PrependableBytes() == CHEAP_PREPEND && WritableBytes() == initialSize
    {
      buffer := new Byte[CHEAP_PREPEND + initialSize](_ => 0);
      readerIndex := CHEAP_PREPEND;
      writerIndex := CHEAP_PREPEND;
    }

    function ReadableBytes(): (n: nat)
      requires Valid()
      reads this, buffer
      ensures n == |Contents()|
    {
      writerIndex - readerIndex
    }

    function WritableBytes(): nat
      requires Valid()
      reads this
    {
      buffer.Length - writerIndex
    }

    function PrependableBytes(): nat
      reads this
    {
      readerIndex
    }

    method Swap(rhs: Buffer)
      requires Valid() && rhs.Valid() && this != rhs
      modifies this, rhs
      ensures Valid() && rhs.Valid() && buffer == old(rhs.buffer) && rhs.buffer == old(buffer)
      ensures Contents() == old(rhs.Contents()) && rhs.Contents() == old(Contents())
    {
      var b, r, w := buffer, readerIndex, writerIndex;
      buffer, readerIndex, writerIndex := rhs.buffer, rhs.readerIndex, rhs.writerIndex;
      rhs.buffer, rhs.readerIndex, rhs.writerIndex := b, r, w;
    }

    /** findCRLF: the offset of the first line end from peek(). */
    method FindCrlf() returns (found: bool, offset: nat)
      requires Valid()
      ensures offset == FirstCrlf(Contents(), 0)
      ensures found == (offset < |Contents()|)
    {
      offset := 0;
      var n := ReadableBytes();
      while offset < n &&
        !(offset + 1 < n && buffer[readerIndex + offset] == CR && buffer[readerIndex + offset + 1] == LF)
        invariant offset <= n
        invariant forall i :: 0 <= i < offset ==> !IsCrlf(Contents(), i)
      {
        assert Contents()[offset] == buffer[readerIndex + offset];
        offset := offset + 1;
      }
      assert offset < n ==> Contents()[offset] == CR && Contents()[offset + 1] == LF;
      FirstCrlfIs(Contents(), 0, offset);
      found := offset < n;
    }

    /** std::string(peek(), len). */
    method Peek(len: nat) returns (s: Bytes)
      requires Valid() && len <= ReadableBytes()
      ensures s == Contents()[..len]
    {
      s := buffer[readerIndex..readerIndex + len];
    }

    method RetrieveAll()
      requires Valid()
      modifies this
      ensures Valid() && buffer == old(buffer) && Contents() == [] && PrependableBytes() == CHEAP_PREPEND
    {
      readerIndex := CHEAP_PREPEND;
      writerIndex := CHEAP_PREPEND;
    }

    method Retrieve(len: nat)
      requires Valid() && len <= ReadableBytes()
      modifies this
      ensures Valid() && buffer == old(buffer) && Contents() == old(Contents())[len..]
      ensures Contents() == [] ==> PrependableBytes() == CHEAP_PREPEND
    {
      if len < ReadableBytes() {
        readerIndex := readerIndex + len;
      } else {
        RetrieveAll();
      }
    }

    method RetrieveAsString(len: nat) returns (s: Bytes)
      requires Valid() && len <= ReadableBytes()
      modifies this
      ensures Valid() && buffer == old(buffer)
      ensures s == old(Contents())[..len] && Contents() == old(Contents())[len..]
    {
      s := Peek(len);
      Retrieve(len);
    }

    method RetrieveAllAsString() returns (s: Bytes)
      requires Valid()
      modifies this
      ensures Valid() && buffer == old(buffer) && s == old(Contents()) && Contents() == []
    {
      s := RetrieveAsString(ReadableBytes());
    }

    /** Make room for len bytes: by a larger array, or by moving the contents to the front. */
    method MakeSpace(len: nat)
      requires Valid() && WritableBytes() < len
      modifies this, buffer
      ensures Valid() && (buffer == old(buffer) || fresh(buffer))
      ensures Contents() == old(Contents()) && len <= WritableBytes()
      ensures if old(WritableBytes() + PrependableBytes()) < len + CHEAP_PREPEND
              then fresh(buffer) && WritableBytes() == len && PrependableBytes() == old(PrependableBytes())
              else buffer == old(buffer) && PrependableBytes() == CHEAP_PREPEND
    {
      if WritableBytes() + PrependableBytes() < len + CHEAP_PREPEND {
        var bigger := new Byte[writerIndex + len](_ => 0);
        CopyIn(buffer[..], bigger, 0);
        forall k | readerIndex <= k < writerIndex
          ensures bigger[k] == buffer[k]
        {
          assert bigger[0..buffer.Length][k] == buffer[..][k];
        }
        assert bigger[readerIndex..writerIndex] == buffer[readerIndex..writerIndex];
        buffer := bigger;
      } else {
        assert CHEAP_PREPEND < readerIndex;
        var readable := ReadableBytes();
        CopyDown(buffer, readerIndex, CHEAP_PREPEND, readable);
        readerIndex := CHEAP_PREPEND;
        writerIndex := readerIndex + readable;
        assert readable == ReadableBytes();
      }
    }

    method EnsureWritableBytes(len: nat)
      requires Valid()
      modifies this, buffer
      ensures Valid() && (buffer == old(buffer) || fresh(buffer))
      ensures Contents() == old(Contents()) && len <= WritableBytes()
    {
      if WritableBytes() < len {
        MakeSpace(len);
      }
      assert WritableBytes() >= len;
    }

    method Append(data: Bytes)
      requires Valid()
      modifies this, buffer
      ensures Valid() && (buffer == old(buffer) || fresh(buffer))
      ensures Contents() == old(Contents()) + data
    {
      EnsureWritableBytes(|data|);
      ghost var was := Contents();
      CopyIn(data, buffer, writerIndex);
      assert buffer[readerIndex..writerIndex] == buffer[..writerIndex][readerIndex..] == was;
      HasWritten(|data|);
    }

    method HasWritten(len: nat)
      requires Valid() && len <= WritableBytes()
      modifies `writerIndex
      ensures Valid() && writerIndex == old(writerIndex) + len
      ensures Contents() == old(Contents()) + buffer[old(writerIndex)..writerIndex]
    {
      writerIndex := writerIndex + len;
    }

    method Prepend(data: Bytes)
      requires Valid() && |data| <= PrependableBytes()
      modifies this, buffer
      ensures Valid() && buffer == old(buffer) && Contents() == data + old(Contents())
    {
      ghost var was := Contents();
      readerIndex := readerIndex - |data|;
      CopyIn(data, buffer, readerIndex);
      ghost var front := readerIndex + |data|;
      assert buffer[front..writerIndex] == buffer[front..][..writerIndex - front] == was;
      assert buffer[readerIndex..writerIndex] == buffer[readerIndex..front] + buffer[front..writerIndex];
    }

    /** readFd after a successful readv that delivered data: the first bytes land in the free space,
        the rest in the stack buffer, which is offered only when the free space is smaller. */
    method ReadFd(data: Bytes) returns (n: nat)
      requires Valid()
      requires |data| <= WritableBytes() + (if WritableBytes() < EXTRA_SIZE then EXTRA_SIZE else 0)
      modifies this, buffer
      ensures Valid() && (buffer == old(buffer) || fresh(buffer))
      ensures n == |data| && Contents() == old(Contents()) + data
    {
      var writable := WritableBytes();
      n := |data|;
      var inPlace := if n <= writable then n else writable;
      ghost var was := Contents();
      CopyIn(data[..inPlace], buffer, writerIndex);
      assert buffer[readerIndex..writerIndex] == buffer[..writerIndex][readerIndex..] == was;
      Rejoin(was, data, inPlace);
      if n <= writable {
        writerIndex := writerIndex + n;
      } else {
        writerIndex := buffer.Length;
        assert Contents() == was + data[..writable];
        Append(data[writable..]);
      }
    }

    // ----- integers -----

    method AppendInt(x: int, width: nat)
      requires Valid() && Fits(x, width)
      modifies this, buffer
      ensures Valid() && (buffer == old(buffer) || fresh(buffer))
      ensures Contents() == old(Contents()) + Encoded(x, width)
    {
      Append(Encoded(x, width));
    }

    method PrependInt(x: int, width: nat)
      requires Valid() && Fits(x, width) && width <= PrependableBytes()
      modifies this, buffer
      ensures Valid() && buffer == old(buffer) && Contents() == Encoded(x, width) + old(Contents())
    {
      Prepend(Encoded(x, width));
    }

    method PeekInt(width: nat) returns (x: int)
      requires Valid() && width <= ReadableBytes()
      ensures x == Decoded(Contents()[..width])
      ensures forall y, rest :: Fits(y, width) && Contents() == Encoded(y, width) + rest ==> x == y
    {
      var s := Peek(width);
      x := Decoded(s);
      forall y, rest | Fits(y, width) && Contents() == Encoded(y, width) + rest
        ensures x == y
      {
        assert Contents()[..width] == Encoded(y, width);
        DecodedOfEncoded(y, width);
      }
    }

    /** An integer at the front comes out as it went in, whether it was appended or prepended. */
    method ReadInt(width: nat) returns (x: int)
      requires Valid() && width <= ReadableBytes()
      modifies this
      ensures Valid() && buffer == old(buffer) && Contents() == old(Contents())[width..]
      ensures x == Decoded(old(Contents())[..width])
      ensures forall y, rest :: Fits(y, width) && old(Contents()) == Encoded(y, width) + rest ==> x == y
    {
      x := PeekInt(width);
      Retrieve(width);
    }
  }
}
