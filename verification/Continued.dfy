/** The printed text of a value followed by a continuation k. Nesting everything to the right lets
    the reader's proofs follow the text from left to right without regrouping concatenations. */
module Continued {
  import opened Octets
  import opened JsonValue
  import opened Printer

  function CoreK(v: Value, l: Layout, depth: nat, k: Rest): Rest
    decreases v, 0
  {
    match v
    case Arr(items) =>
      var close := Then(Pad(l, depth), Then([RBRACKET], k));
      Then([LBRACKET], Then(Pad(l, depth + 1), ItemsK(items, true, l, depth + 1, close)))
    case Obj(ms) =>
      var close := Then(Pad(l, depth), Then([RBRACE], k));
      Then([LBRACE], Then(Pad(l, depth + 1), MembersK(ms, true, l, depth + 1, close)))
    case _ => Then(Core(v, l, depth), k)
  }

  function TextK(v: Value, l: Layout, depth: nat, k: Rest): Rest
    decreases v, 1
  {
    CoreK(v, l, depth, Then(Tail(v, l, depth), k))
  }

  function CommaK(first: bool, k: Rest): Rest {
    if first then k else Then([COMMA], k)
  }

  function ItemsK(items: seq<Value>, first: bool, l: Layout, depth: nat, k: Rest): Rest
    decreases items
  {
    if items == [] then k
    else CommaK(first, TextK(items[0], l, depth, ItemsK(items[1..], false, l, depth, k)))
  }

  function KeyK(key: Bytes, k: Rest): Rest {
    Then([QUOTE], Then(key, Then([QUOTE], Then([COLON], k))))
  }

  function MembersK(ms: seq<Member>, first: bool, l: Layout, depth: nat, k: Rest): Rest
    decreases ms
  {
    if ms == [] then k
    else
      var m := ms[0];
      Then(Pad(l, depth), CommaK(first, KeyK(m.key, TextK(m.value, l, depth, MembersK(ms[1..], false, l, depth, k)))))
  }

  lemma Brackets(open: Byte, a: Bytes, body: Bytes, b: Bytes, close: Byte, k: Rest)
    ensures Then([open] + a + body + b + [close], k) == Then([open], Then(a, Then(body, Then(b, Then([close], k)))))
  {
    hide Then;
    ThenSplits([open] + a + body + b, [close], k);
    ThenSplits([open] + a + body, b, Then([close], k));
    ThenSplits([open] + a, body, Then(b, Then([close], k)));
    ThenSplits([open], a, Then(body, Then(b, Then([close], k))));
  }

  lemma {:induction false} CoreContinued(v: Value, l: Layout, depth: nat, k: Rest)
    ensures CoreK(v, l, depth, k) == Then(Core(v, l, depth), k)
    decreases v, 0
  {
    hide Then, Pad;
    match v
    case Arr(items) =>
      var body := ItemsText(items, true, l, depth + 1);
      ItemsContinued(items, true, l, depth + 1, Then(Pad(l, depth), Then([RBRACKET], k)));
      Brackets(LBRACKET, Pad(l, depth + 1), body, Pad(l, depth), RBRACKET, k);
    case Obj(ms) =>
      var body := MembersText(ms, true, l, depth + 1);
      MembersContinued(ms, true, l, depth + 1, Then(Pad(l, depth), Then([RBRACE], k)));
      Brackets(LBRACE, Pad(l, depth + 1), body, Pad(l, depth), RBRACE, k);
    case _ =>
  }

  lemma {:induction false} TextContinued(v: Value, l: Layout, depth: nat, k: Rest)
    ensures TextK(v, l, depth, k) == Then(Text(v, l, depth), k)
    decreases v, 1
  {
    hide Then, CoreK, Core;
    CoreContinued(v, l, depth, Then(Tail(v, l, depth), k));
    ThenSplits(Core(v, l, depth), Tail(v, l, depth), k);
  }

  lemma CommaContinued(first: bool, text: Bytes, more: Bytes, k: Rest)
    ensures CommaK(first, Then(text, Then(more, k))) == Then(Comma(first) + text + more, k)
  {
    ThenSplits(Comma(first) + text, more, k);
    ThenSplits(Comma(first), text, Then(more, k));
    ThenNothing(Then(text, Then(more, k)));
  }

  lemma {:induction false} ItemsContinued(items: seq<Value>, first: bool, l: Layout, depth: nat, k: Rest)
    ensures ItemsK(items, first, l, depth, k) == Then(ItemsText(items, first, l, depth), k)
    decreases items
  {
    hide Then, TextK, Text, CommaK, Comma;
    if items == [] {
      ThenNothing(k);
    } else {
      var more := ItemsText(items[1..], false, l, depth);
      ItemsContinued(items[1..], false, l, depth, k);
      TextContinued(items[0], l, depth, Then(more, k));
      CommaContinued(first, Text(items[0], l, depth), more, k);
    }
  }

  lemma KeyContinued(key: Bytes, text: Bytes, k: Rest)
    ensures KeyK(key, Then(text, k)) == Then(Quoted(key) + [COLON] + text, k)
  {
    hide Then;
    ThenSplits(Quoted(key) + [COLON], text, k);
    ThenSplits(Quoted(key), [COLON], Then(text, k));
    ThenSplits([QUOTE] + key, [QUOTE], Then([COLON], Then(text, k)));
    ThenSplits([QUOTE], key, Then([QUOTE], Then([COLON], Then(text, k))));
  }

  lemma {:induction false} MembersContinued(ms: seq<Member>, first: bool, l: Layout, depth: nat, k: Rest)
    ensures MembersK(ms, first, l, depth, k) == Then(MembersText(ms, first, l, depth), k)
    decreases ms
  {
    hide Then, TextK, Text, CommaK, Comma, KeyK, Pad, Quoted;
    if ms == [] {
      ThenNothing(k);
    } else {
      var m, more := ms[0], MembersText(ms[1..], false, l, depth);
      var value := Text(m.value, l, depth);
      MembersContinued(ms[1..], false, l, depth, k);
      TextContinued(m.value, l, depth, Then(more, k));
      KeyContinued(m.key, value, Then(more, k));
      CommaContinued(first, MemberText(m, l, depth), more, k);
      ThenSplits(Pad(l, depth), Comma(first) + MemberText(m, l, depth) + more, k);
    }
  }
}
