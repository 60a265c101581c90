/** JSON values as the tree that a json::Value denotes (JsonServer/Value.h). An object is kept the
    way std::map keeps it: its members in strictly ascending order of their keys. */
module JsonValue {
  import opened Octets

  datatype Member = Member(key: Bytes, value: Value)

  datatype Value =
    | Null
    | Bool(b: bool)
    | Int32(i32: int)
    | Int64(i64: int)
    | Double(text: Bytes)      // the literal that strtod was given; its rounding is foreign code
    | Str(str: Bytes)
    | Arr(items: seq<Value>)
    | Obj(members: seq<Member>)

  const INT32_MIN := -0x8000_0000
  const INT32_MAX := 0x7FFF_FFFF
  const INT64_MIN := -0x8000_0000_0000_0000
  const INT64_MAX := 0x7FFF_FFFF_FFFF_FFFF

  // ----- key order -----

  /** operator< of Value: unsigned lexicographic comparison of the key strings. */
  predicate Less(a: Bytes, b: Bytes) {
    b != [] && (a == [] || a[0] < b[0] || (a[0] == b[0] && Less(a[1..], b[1..])))
  }

  lemma {:induction false} LessIrreflexive(a: Bytes)
    ensures !Less(a, a)
  {
    if a != [] { LessIrreflexive(a[1..]); }
  }

  /** The order is lexicographic: at the first place where the keys part, a ends or has the smaller byte. */
  lemma {:induction false} LessIff(a: Bytes, b: Bytes)
    ensures Less(a, b) <==> exists i :: PartsAt(a, b, i) && (i == |a| || a[i] < b[i])
  {
    if a == [] || b == [] || a[0] != b[0] {
      assert b != [] ==> PartsAt(a, b, 0);
      assert forall i :: PartsAt(a, b, i) ==> i == 0;
    } else {
      var c, d := a[1..], b[1..];
      LessIff(c, d);
      forall i: int
        ensures PartsAt(a, b, i + 1) <==> PartsAt(c, d, i)
      {
        if 0 <= i <= |c| && i < |d| { PartsLater(a, b, i); }
      }
      assert !PartsAt(a, b, 0);
      assert forall i :: PartsAt(a, b, i) ==> PartsAt(c, d, i - 1);
    }
  }

  /** The keys agree up to i, where a ends or they differ, and b does not end. */
  predicate PartsAt(a: Bytes, b: Bytes, i: int) {
    0 <= i <= |a| && i < |b| && a[..i] == b[..i] && (i < |a| ==> a[i] != b[i])
  }

  lemma PartsLater(a: Bytes, b: Bytes, i: nat)
    requires a != [] && b != [] && a[0] == b[0] && i + 1 <= |a| && i + 1 < |b|
    ensures a[..i + 1] == b[..i + 1] <==> a[1..][..i] == b[1..][..i]
  {
    assert a[..i + 1] == [a[0]] + a[1..][..i] && b[..i + 1] == [b[0]] + b[1..][..i];
    assert a[..i + 1][1..] == a[1..][..i] && b[..i + 1][1..] == b[1..][..i];
  }

  lemma {:induction false} LessTransitive(a: Bytes, b: Bytes, c: Bytes)
    requires Less(a, b) && Less(b, c)
    ensures Less(a, c)
  {
    if a != [] && a[0] == b[0] == c[0] { LessTransitive(a[1..], b[1..], c[1..]); }
  }

  lemma {:induction false} LessTotal(a: Bytes, b: Bytes)
    ensures a == b || Less(a, b) || Less(b, a)
  {
    if a != [] && b != [] && a[0] == b[0] {
      LessTotal(a[1..], b[1..]);
      if a[1..] == b[1..] { assert a == [a[0]] + a[1..] == b; }
    }
  }

  /** A proper prefix of a key sorts before it. */
  lemma {:induction false} PrefixLess(a: Bytes, b: Bytes)
    requires |a| < |b| && a == b[..|a|]
    ensures Less(a, b)
  {
    if a != [] {
      assert a[1..] == b[1..][..|a| - 1];
      PrefixLess(a[1..], b[1..]);
    }
  }

  // ----- objects -----

  predicate HasKey(ms: seq<Member>, k: Bytes) {
    exists i :: 0 <= i < |ms| && ms[i].key == k
  }

  predicate Ascending(ms: seq<Member>) {
    forall i, j :: 0 <= i < j < |ms| ==> Less(ms[i].key, ms[j].key)
  }

  /** std::map::emplace of a key that is not yet there. */
  function Insert(ms: seq<Member>, m: Member): (r: seq<Member>) {
    if ms == [] || Less(m.key, ms[0].key) then [m] + ms
    else [ms[0]] + Insert(ms[1..], m)
  }

  /** Emplacing keeps the members there were, adds the new one and nothing else. */
  lemma {:induction false} InsertKeeps(ms: seq<Member>, m: Member)
    ensures |Insert(ms, m)| == |ms| + 1
    ensures forall x :: x in Insert(ms, m) <==> x in ms || x == m
  {
    if ms != [] && !Less(m.key, ms[0].key) {
      InsertKeeps(ms[1..], m);
      assert ms == [ms[0]] + ms[1..];
    }
  }

  lemma {:induction false} InsertAscending(ms: seq<Member>, m: Member)
    requires Ascending(ms) && !HasKey(ms, m.key)
    ensures Ascending(Insert(ms, m))
  {
    if ms == [] {
    } else if Less(m.key, ms[0].key) {
      var r := [m] + ms;
      forall i, j | 0 <= i < j < |r|
        ensures Less(r[i].key, r[j].key)
      {
        if i == 0 && j > 1 { LessTransitive(m.key, ms[0].key, ms[j - 1].key); }
      }
    } else {
      var t := ms[1..];
      InsertAscending(t, m);
      InsertKeeps(t, m);
      LessTotal(m.key, ms[0].key);
      var r := [ms[0]] + Insert(t, m);
      forall i, j | 0 <= i < j < |r|
        ensures Less(r[i].key, r[j].key)
      {
        if i == 0 { assert r[j] in Insert(t, m); }
      }
    }
  }

  /** A key above all others goes to the end. */
  lemma {:induction false} InsertLast(ms: seq<Member>, m: Member)
    requires forall i :: 0 <= i < |ms| ==> Less(ms[i].key, m.key)
    ensures Insert(ms, m) == ms + [m]
  {
    if ms != [] {
      if Less(m.key, ms[0].key) {
        LessTransitive(m.key, ms[0].key, m.key);
        LessIrreflexive(m.key);
      }
      InsertLast(ms[1..], m);
    }
  }

  /** The values a C++ program can hold: integers of their width, objects sorted without duplicates. */
  predicate WellFormed(v: Value) {
    match v
    case Int32(i) => INT32_MIN <= i <= INT32_MAX
    case Int64(i) => INT64_MIN <= i <= INT64_MAX
    case Arr(items) => forall i :: 0 <= i < |items| ==> WellFormed(items[i])
    case Obj(ms) => Ascending(ms) && forall i :: 0 <= i < |ms| ==> WellFormed(ms[i].value)
    case _ => true
  }

  predicate DoubleFree(v: Value) {
    match v
    case Double(_) => false
    case Arr(items) => forall i :: 0 <= i < |items| ==> DoubleFree(items[i])
    case Obj(ms) => forall i :: 0 <= i < |ms| ==> DoubleFree(ms[i].value)
    case _ => true
  }

  /** A key that FastWriter::Key, which escapes nothing, can write and the reader can read. */
  predicate PlainKey(k: Bytes) {
    forall i :: 0 <= i < |k| ==> k[i] >= 0x20 && k[i] != QUOTE && k[i] != BACKSLASH
  }

  predicate PlainKeys(v: Value) {
    match v
    case Arr(items) => forall i :: 0 <= i < |items| ==> PlainKeys(items[i])
    case Obj(ms) => forall i :: 0 <= i < |ms| ==> PlainKey(ms[i].key) && PlainKeys(ms[i].value)
    case _ => true
  }
}
