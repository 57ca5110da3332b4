/** `mapLimit` and `filterLimit`: what their callbacks receive once the
    bounded scheduler has delivered a result. */
module Limited {
  import opened Values
  import Parallel
  import opened Scheduler

  /** `mapLimit`'s callback: `callback(null, data)` once every item has
      succeeded. Its rejection handler throws instead of calling back, so a
      failure delivers no result at all. */
  function MapLimitCallback(c: Config, s: State): (r: Option<seq<Value>>)
    ensures r.Some? <==> Settled(c, s).Some? && Settled(c, s).value.Ok?
    ensures r.Some? ==> Settled(c, s) == Some(Ok(r.value))
  {
    match Settled(c, s)
    case Some(Ok(data)) => Some(data)
    case _ => None
  }

  /** Over any interleaving, `mapLimit` hands over only the unlimited `map`'s
      result, index-aligned with the items, and does so by the end of the
      run exactly when every item succeeds. */
  lemma MapLimitAgreesWithMap(c: Config, steps: seq<Step>)
    requires c.limit >= 1
    requires Exec(c, Start(), steps).Some?
    ensures var s := Exec(c, Start(), steps).value;
      && (MapLimitCallback(c, s).Some? ==> Parallel.Map(c.items, c.op) == Ok(MapLimitCallback(c, s).value))
      && (MapLimitCallback(c, s).Some? ==>
            |MapLimitCallback(c, s).value| == |c.items|
            && forall i :: 0 <= i < |c.items| ==> MapLimitCallback(c, s).value[i] == c.op(c.items[i]).value)
      && (Terminal(c, s) ==> (MapLimitCallback(c, s).Some? <==> forall i :: 0 <= i < |c.items| ==> c.op(c.items[i]).Ok?))
  {
    RunDeliversMap(c, steps);
  }

  /** What one item's promise resolves with in `filterLimit` as written:
      the item itself when its verdict is truthy, `null` otherwise. */
  function FilterSlot(op: Value -> Outcome<Value>): (slot: Value -> Outcome<Value>)
    ensures forall item :: slot(item).Ok? <==> op(item).Ok?
    ensures forall item :: slot(item).Ok? ==>
      slot(item).value == (if Truthy(op(item).value) then item else Null)
  {
    item => match op(item) case Err => Err case Ok(verdict) => Ok(if Truthy(verdict) then item else Null)
  }

  /** The scheduler run `filterLimit` performs for verdict operation `c.op`. */
  function SlotConfig(c: Config): Config {
    c.(op := FilterSlot(c.op))
  }

  /** `filterLimit`'s callback as written, for a state of the run of
      `SlotConfig(c)`: the resolved slots are compacted with
      `data.filter(item => item)`, which drops every falsy entry. */
  function FilterLimitAsWritten(c: Config, s: State): (r: Option<Outcome<seq<Value>>>)
    ensures r.Some? <==> Settled(SlotConfig(c), s).Some?
    ensures r == Some(Err) <==> exists i :: i in s.done && s.done[i].Err?
    ensures r.Some? && r.value.Ok? ==> |r.value.value| <= |c.items|
    ensures r.Some? && r.value.Ok? ==> forall k :: 0 <= k < |r.value.value| ==> Truthy(r.value.value[k])
  {
    match Settled(SlotConfig(c), s)
    case None => None
    case Some(Err) => Some(Err)
    case Some(Ok(data)) =>
      Parallel.SelectTruthyIsTruthy(data);
      Some(Ok(Parallel.Select(data, TruthyMask(data))))
  }

  /** Whether each item's verdict is truthy and the item itself is truthy. */
  function KeptAsWritten(c: Config): (m: seq<bool>)
    requires forall i :: 0 <= i < |c.items| ==> c.op(c.items[i]).Ok?
    ensures |m| == |c.items|
  {
    seq(|c.items|, i requires 0 <= i < |c.items| => Truthy(c.op(c.items[i]).value) && Truthy(c.items[i]))
  }

  /** As written, `filterLimit` keeps item i exactly when its verdict is
      truthy AND the item itself is truthy, in the items' order; any failing
      verdict fails the whole call. */
  lemma FilterLimitAsWrittenKeeps(c: Config, steps: seq<Step>)
    requires c.limit >= 1
    requires Exec(SlotConfig(c), Start(), steps).Some?
    requires Terminal(SlotConfig(c), Exec(SlotConfig(c), Start(), steps).value)
    ensures var r := FilterLimitAsWritten(c, Exec(SlotConfig(c), Start(), steps).value);
      && r.Some?
      && (r.value.Ok? <==> forall i :: 0 <= i < |c.items| ==> c.op(c.items[i]).Ok?)
      && (r.value.Ok? ==> r.value.value == Parallel.Select(c.items, KeptAsWritten(c)))
  {
    var sc := SlotConfig(c);
    RunDeliversMap(sc, steps);
    var m := Parallel.Map(c.items, sc.op);
    if m.Ok? {
      var data := m.value;
      assert forall i :: 0 <= i < |c.items| ==> c.op(c.items[i]).Ok?;
      var keep := KeptAsWritten(c);
      forall i | 0 <= i < |c.items|
        ensures TruthyMask(data)[i] == keep[i]
        ensures TruthyMask(data)[i] ==> data[i] == c.items[i]
      {
        assert data[i] == (if Truthy(c.op(c.items[i]).value) then c.items[i] else Null);
      }
      Parallel.SelectCongruent(data, TruthyMask(data), c.items, keep);
    }
  }

  /** `filterLimit` with each promise resolving with the verdict and the
      items picked by position, as `filter` does; for a state of the run of
      `c` itself. */
  function FilterLimit(c: Config, s: State): (r: Option<Outcome<seq<Value>>>)
    ensures r.Some? <==> Settled(c, s).Some?
    ensures r == Some(Err) <==> exists i :: i in s.done && s.done[i].Err?
    ensures r.Some? && r.value.Ok? ==> |r.value.value| <= |c.items|
    ensures r.Some? && r.value.Ok? ==> forall i :: 0 <= i < |c.items| ==> i in s.done && s.done[i].Ok?
  {
    match Settled(c, s)
    case None => None
    case Some(Err) => Some(Err)
    case Some(Ok(verdicts)) => Some(Ok(Parallel.Select(c.items, TruthyMask(verdicts))))
  }

  /** Over any interleaving, the corrected `filterLimit` delivers only the
      unlimited `filter`'s result, and delivers it by the end of the run. */
  lemma FilterLimitAgreesWithFilter(c: Config, steps: seq<Step>)
    requires c.limit >= 1
    requires Exec(c, Start(), steps).Some?
    ensures var s := Exec(c, Start(), steps).value;
      && (FilterLimit(c, s).Some? ==> FilterLimit(c, s) == Some(Parallel.Filter(Arr(c.items), c.op)))
      && (Terminal(c, s) ==> FilterLimit(c, s) == Some(Parallel.Filter(Arr(c.items), c.op)))
  {
    RunDeliversMap(c, steps);
  }

  /** The as-written and the corrected projections agree on a successful run
      exactly when no item with a truthy verdict is itself falsy. */
  lemma AsWrittenAgreesIffKeptItemsTruthy(c: Config)
    requires forall i :: 0 <= i < |c.items| ==> c.op(c.items[i]).Ok?
    ensures Parallel.Select(c.items, KeptAsWritten(c)) == Parallel.Filter(Arr(c.items), c.op).value
        <==> forall i :: 0 <= i < |c.items| && Truthy(c.op(c.items[i]).value) ==> Truthy(c.items[i])
  {
    var verdicts := Parallel.Map(c.items, c.op).value;
    var mask := TruthyMask(verdicts);
    var kept := KeptAsWritten(c);
    assert Parallel.Filter(Arr(c.items), c.op).value == Parallel.Select(c.items, mask);
    if forall i :: 0 <= i < |c.items| && Truthy(c.op(c.items[i]).value) ==> Truthy(c.items[i]) {
      Parallel.SelectCongruent(c.items, kept, c.items, mask);
    } else {
      var j :| 0 <= j < |c.items| && Truthy(c.op(c.items[j]).value) && !Truthy(c.items[j]);
      Parallel.CountTrueStrict(kept, mask, j);
    }
  }

  /** A verdict operation that accepts everything. */
  function AcceptAll(item: Value): Outcome<Value> { Ok(Bool(true)) }

  /** `filterLimit([0], 1, accept all)` as written delivers `[]`, while
      `filter([0], accept all)` delivers `[0]`. */
  lemma FilterLimitDropsFalsyItem()
    ensures var c := Config([Num(0)], AcceptAll, 1);
      && Exec(SlotConfig(c), Start(), [Launch, Complete(0)]).Some?
      && FilterLimitAsWritten(c, Exec(SlotConfig(c), Start(), [Launch, Complete(0)]).value) == Some(Ok([]))
      && Parallel.Filter(Arr(c.items), c.op) == Ok([Num(0)])
  {
    var c := Config([Num(0)], AcceptAll, 1);
    var sc := SlotConfig(c);
    var s1 := Next(sc, Start(), Launch);
    assert [Launch, Complete(0)][1..] == [Complete(0)];
    var s2 := Next(sc, s1, Complete(0));
    assert Exec(sc, s1, [Complete(0)]) == Exec(sc, s2, []);
    assert Terminal(sc, s2);
    FilterLimitAsWrittenKeeps(c, [Launch, Complete(0)]);
    assert KeptAsWritten(c) == [false];
    assert Parallel.Map(c.items, c.op).value == [Bool(true)];
    assert TruthyMask([Bool(true)]) == [true];
    assert [Num(0)][1..] == [] && [true][1..] == [];
    assert Parallel.Select([Num(0)], [true]) == [Num(0)];
  }

  /** The increment operation of the concrete scenario. */
  function Increment(v: Value): Outcome<Value> {
    if v.Num? then Ok(Num(v.n + 1)) else Err
  }

  /** `mapLimit([1, 2, 3, 4, 5], 2, increment)`: at no point are three
      increments in flight, and a finished run hands over `[2, 3, 4, 5, 6]`. */
  lemma MapLimitExample(steps: seq<Step>)
    requires Exec(Config([Num(1), Num(2), Num(3), Num(4), Num(5)], Increment, 2), Start(), steps).Some?
    ensures var c := Config([Num(1), Num(2), Num(3), Num(4), Num(5)], Increment, 2);
      var s := Exec(c, Start(), steps).value;
      && |s.running| <= 2
      && (Terminal(c, s) ==> MapLimitCallback(c, s) == Some([Num(2), Num(3), Num(4), Num(5), Num(6)]))
  {
    var c := Config([Num(1), Num(2), Num(3), Num(4), Num(5)], Increment, 2);
    CountWithinLimit(c, steps);
    MapLimitAgreesWithMap(c, steps);
    var m := Parallel.Map(c.items, Increment);
    assert forall i :: 0 <= i < 5 ==> Increment(c.items[i]).Ok?;
    assert m.value == [m.value[0], m.value[1], m.value[2], m.value[3], m.value[4]];
  }
}
