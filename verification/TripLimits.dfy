/** Exactly which texts survive the trip through a writer and the reader (JsonServer/Reader.h,
    JsonServer/FastWriter.h): what a reader returns is never heavier than what it has consumed. */
module TripLimits {
  import opened Octets
  import opened JsonValue
  import opened ReaderSpec
  import opened Printer
  import opened Weights
  import ReaderLimits
  import RoundTrip

  /** A value without doubles, whatever its shape, comes back from the text of either writer exactly
      when all its keys are plain. */
  lemma SurvivesIffPlainKeys(v: Value, l: Layout, before: Bytes, after: Bytes, held: Value)
    requires WellFormed(v) && DoubleFree(v) && WsLayout(l) && AllWs(before) && AllWs(after)
    ensures var r := Parse(before + Core(v, l, 0) + after, held);
      (r.err == PARSE_OK && r.value == v) <==> PlainKeys(v)
  {
    hide WellFormed, DoubleFree, PlainKeys, Core, ParseValue, WsLayout;
    if PlainKeys(v) {
      RoundTrip.DocumentReadsBack(v, l, before, after, held);
    } else {
      var s := before + Core(v, l, 0) + after;
      if Parse(s, held).err == PARSE_OK && Parse(s, held).value == v {
        DocumentWeighs(v, l, before, after);
        ReturnPays(s, held);
        NullIsPlain();
        assert false;
      }
    }
  }

  /** Any number of items with one byte after each but the last: the array of all of them is read exactly
      when none of these bytes is whitespace or the closing bracket. With whitespace the text weighs too
      little for all of them. */
  lemma SeparatorAcceptedIff(items: seq<Value>, seps: Bytes, held: Value)
    requires |items| == |seps| + 1 && RoundTrip.ReadableItems(items)
    ensures var r := Parse(ReaderLimits.Separated(items, seps), held);
      (r.err == PARSE_OK && r.value == Arr(items)) <==> ReaderLimits.Solid(seps) && RBRACKET !in seps
  {
    hide ReaderLimits.Separated, RoundTrip.ReadableItems, W, Weight, ParseValue, PlainKeys, ReaderLimits.Solid;
    if ReaderLimits.Solid(seps) {
      ReaderLimits.AnySeparatorIsAccepted(items, seps, held);
    } else {
      var s := ReaderLimits.Separated(items, seps);
      SeparatedWeighs(items, seps);
      if Parse(s, held).err == PARSE_OK { ReturnPays(s, held); }
    }
  }

  lemma SeparatedWeighs(items: seq<Value>, seps: Bytes)
    requires |items| == |seps| + 1 && !ReaderLimits.Solid(seps)
    ensures Weight(ReaderLimits.Separated(items, seps)) < W(Arr(items))
  {
    hide Weight, ReaderLimits.Joined;
    var t := ReaderLimits.Joined(items, seps);
    JoinedWeighs(items, seps);
    WeightAppend([LBRACKET] + t, [RBRACKET]);
    WeightAppend([LBRACKET], t);
    WeightOne(LBRACKET);
    WeightOne(RBRACKET);
    var i :| 0 <= i < |seps| && IsWs(seps[i]);
    SomeWs(seps, i);
  }

  /** Each separator stands for the comma that the weight of the items counts. */
  lemma {:induction false} JoinedWeighs(items: seq<Value>, seps: Bytes)
    requires |items| == |seps| + 1
    ensures Weight(ReaderLimits.Joined(items, seps)) + |seps| + 1 == ItemsWeight(items) + Weight(seps)
    decreases |items|
  {
    hide Weight, Core, W;
    var core := Core(items[0], Compact, 0);
    CoreWeighs(items[0], Compact, 0);
    if seps == [] {
      assert core + [] == core && items[1..] == [];
      assert Weight([]) == 0 by { NothingWeighs(); }
    } else {
      var rest := ReaderLimits.Joined(items[1..], seps[1..]);
      JoinedWeighs(items[1..], seps[1..]);
      WeightAppend(core, [seps[0]] + rest);
      WeightAppend([seps[0]], rest);
      WeightAppend([seps[0]], seps[1..]);
      assert [seps[0]] + seps[1..] == seps;
    }
  }

  lemma SomeWs(t: Bytes, i: nat)
    requires i < |t| && IsWs(t[i])
    ensures Weight(t) < |t|
  {
    WeighSplits(t, 0, i, |t|);
    WeighSplits(t, i, i + 1, |t|);
    WeightAtMost(t, 0, i);
    WeightAtMost(t, i + 1, |t|);
    WsWeighsNothing(t, i, i + 1);
  }

  lemma NullIsPlain()
    ensures PlainKeys(Null)
  {
  }

  lemma DocumentWeighs(v: Value, l: Layout, before: Bytes, after: Bytes)
    requires WsLayout(l) && AllWs(before) && AllWs(after)
    ensures Weight(before + Core(v, l, 0) + after) == W(v)
  {
    hide Core, W;
    CoreWeighs(v, l, 0);
    WeightAppend(before + Core(v, l, 0), after);
    WeightAppend(before, Core(v, l, 0));
    WsWeighsNothing(before, 0, |before|);
    WsWeighsNothing(after, 0, |after|);
  }

  /** A document that was read pays for its value, or is null. */
  lemma ReturnPays(s: Bytes, held: Value)
    requires Parse(s, held).err == PARSE_OK
    ensures Pays(Weight(s), Parse(s, held).value) || Parse(s, held).value == Null
  {
    hide ParseValue, W, PlainKeys, Weigh, SkipWs;
    var p := SkipWs(s, 0);
    var e := ParseValue(s, p);
    ValuePays(s, p);
    WeighSplits(s, 0, p, |s|);
    WeighSplits(s, p, e.pos, |s|);
    AfterIsWs(s, e.pos);
    AfterIsWs(s, 0);
    if SkipWs(s, e.pos) == |s| { WsWeighsNothing(s, e.pos, |s|); }
    WsWeighsNothing(s, 0, p);
  }

  lemma AfterIsWs(s: Bytes, p: nat)
    requires p <= |s|
    ensures forall i :: p <= i < SkipWs(s, p) ==> IsWs(s[i])
  {
  }
}
