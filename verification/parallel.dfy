/** The unlimited combinators `map` and `filter`: every item's operation is
    launched at once and `Promise.all` aggregates the per-item outcomes. */
module Parallel {
  import opened Values

  /** The outcome each item's operation reports, index-aligned with `items`. */
  function Outcomes(items: seq<Value>, op: Value -> Outcome<Value>): (outs: seq<Outcome<Value>>)
    ensures |outs| == |items|
    ensures forall i :: 0 <= i < |items| ==> outs[i] == op(items[i])
  {
    seq(|items|, i requires 0 <= i < |items| => op(items[i]))
  }

  /** `Promise.all`: succeeds with every value, in input order, when every
      outcome succeeded; any failure makes the whole aggregate a failure. */
  function All<T>(outs: seq<Outcome<T>>): (r: Outcome<seq<T>>)
    ensures r.Ok? <==> forall i :: 0 <= i < |outs| ==> outs[i].Ok?
    ensures r.Ok? ==> |r.value| == |outs|
    ensures r.Ok? ==> forall i :: 0 <= i < |outs| ==> r.value[i] == outs[i].value
  {
    if |outs| == 0 then Ok([])
    else
      match All(outs[1..])
      case Err => Err
      case Ok(rest) => if outs[0].Err? then Err else Ok([outs[0].value] + rest)
  }

  /** `map(items, operation, callback)`: position i of the result is item i's
      value; one failing item fails the whole map and no result is given. */
  function Map(items: seq<Value>, op: Value -> Outcome<Value>): (r: Outcome<seq<Value>>)
    ensures r.Ok? <==> forall i :: 0 <= i < |items| ==> op(items[i]).Ok?
    ensures r.Ok? ==> |r.value| == |items|
    ensures r.Ok? ==> forall i :: 0 <= i < |items| ==> r.value[i] == op(items[i]).value
    ensures |items| == 0 ==> r == Ok([])
  {
    All(Outcomes(items, op))
  }

  /** How many positions are kept. */
  function CountTrue(keep: seq<bool>): (k: nat)
    ensures k <= |keep|
  {
    if |keep| == 0 then 0 else (if keep[0] then 1 else 0) + CountTrue(keep[1..])
  }

  /** The elements of `xs` at the positions where `keep` holds, in order:
      `xs.filter((x, i) => keep[i])`. */
  function Select<T>(xs: seq<T>, keep: seq<bool>): (r: seq<T>)
    requires |xs| == |keep|
    ensures |r| == CountTrue(keep)
  {
    if |xs| == 0 then []
    else (if keep[0] then [xs[0]] else []) + Select(xs[1..], keep[1..])
  }

  /** `idx` lists, strictly increasing, exactly the kept positions of `xs`,
      and `r` holds the elements at those positions. */
  ghost predicate IndexedBy<T>(r: seq<T>, xs: seq<T>, keep: seq<bool>, idx: seq<nat>)
    requires |xs| == |keep|
  {
    && |idx| == |r|
    && (forall k :: 0 <= k < |idx| ==> idx[k] < |xs| && keep[idx[k]] && r[k] == xs[idx[k]])
    && (forall a, b :: 0 <= a < b < |idx| ==> idx[a] < idx[b])
    && (forall i :: 0 <= i < |xs| && keep[i] ==> i in idx)
  }

  /** `Select` picks exactly the kept positions, strictly increasing: its
      result is the ordered subsequence of the kept items. */
  lemma {:induction false} SelectIndices<T>(xs: seq<T>, keep: seq<bool>) returns (idx: seq<nat>)
    requires |xs| == |keep|
    ensures IndexedBy(Select(xs, keep), xs, keep, idx)
  {
    if |xs| == 0 {
      idx := [];
    } else {
      var tail := SelectIndices(xs[1..], keep[1..]);
      idx := ConsIndices(xs[0], keep[0], Select(xs[1..], keep[1..]), xs[1..], keep[1..], tail);
      assert [xs[0]] + xs[1..] == xs;
      assert [keep[0]] + keep[1..] == keep;
    }
  }

  /** Prepending one position to a selection shifts its index list. */
  lemma ConsIndices<T>(x: T, k: bool, rest: seq<T>, xs: seq<T>, keep: seq<bool>, tail: seq<nat>)
      returns (idx: seq<nat>)
    requires |xs| == |keep|
    requires IndexedBy(rest, xs, keep, tail)
    ensures IndexedBy((if k then [x] else []) + rest, [x] + xs, [k] + keep, idx)
  {
    var shifted := Shift(tail);
    var xs', keep' := [x] + xs, [k] + keep;
    if k {
      idx := [0] + shifted;
      assert IndexedBy([x] + rest, xs', keep', idx) by {
        ShiftIndexed(x, k, rest, xs, keep, tail);
        PrependZero(x, rest, xs', keep', shifted);
      }
    } else {
      idx := shifted;
      assert IndexedBy(rest, xs', keep', idx) by {
        ShiftIndexed(x, k, rest, xs, keep, tail);
        SkipHead(rest, xs', keep', shifted);
      }
      assert (if k then [x] else []) + rest == rest;
    }
  }

  /** The shifted index list selects `rest` out of `[x] + xs`, and names
      every kept position after the first. */
  lemma ShiftIndexed<T>(x: T, k: bool, rest: seq<T>, xs: seq<T>, keep: seq<bool>, tail: seq<nat>)
    requires |xs| == |keep|
    requires IndexedBy(rest, xs, keep, tail)
    ensures var shifted := Shift(tail);
      && |shifted| == |rest|
      && (forall j :: 0 <= j < |shifted| ==> 1 <= shifted[j] < |xs| + 1 && ([k] + keep)[shifted[j]] && rest[j] == ([x] + xs)[shifted[j]])
      && (forall a, b :: 0 <= a < b < |shifted| ==> shifted[a] < shifted[b])
      && (forall i :: 1 <= i < |xs| + 1 && ([k] + keep)[i] ==> i in shifted)
  {
    var shifted := Shift(tail);
    var xs', keep' := [x] + xs, [k] + keep;
    forall j | 0 <= j < |shifted|
      ensures 1 <= shifted[j] < |xs| + 1 && keep'[shifted[j]] && rest[j] == xs'[shifted[j]]
    {
      assert shifted[j] == tail[j] + 1;
      assert keep'[tail[j] + 1] == keep[tail[j]];
      assert xs'[tail[j] + 1] == xs[tail[j]];
    }
    ShiftCovers(k, keep, tail);
  }

  lemma ShiftCovers(k: bool, keep: seq<bool>, tail: seq<nat>)
    requires forall i :: 0 <= i < |keep| && keep[i] ==> i in tail
    ensures forall i :: 1 <= i < |keep| + 1 && ([k] + keep)[i] ==> i in Shift(tail)
  {
  }

  /** A dropped head leaves the shifted index list as it is. */
  lemma SkipHead<T>(rest: seq<T>, xs: seq<T>, keep: seq<bool>, shifted: seq<nat>)
    requires |xs| == |keep| && |xs| > 0 && !keep[0]
    requires |shifted| == |rest|
    requires forall j :: 0 <= j < |shifted| ==> 1 <= shifted[j] < |xs| && keep[shifted[j]] && rest[j] == xs[shifted[j]]
    requires forall a, b :: 0 <= a < b < |shifted| ==> shifted[a] < shifted[b]
    requires forall i :: 1 <= i < |xs| && keep[i] ==> i in shifted
    ensures IndexedBy(rest, xs, keep, shifted)
  {
  }

  /** A kept head adds position 0 in front of the shifted index list. */
  lemma PrependZero<T>(x: T, rest: seq<T>, xs: seq<T>, keep: seq<bool>, shifted: seq<nat>)
    requires |xs| == |keep| && |xs| > 0 && xs[0] == x && keep[0]
    requires |shifted| == |rest|
    requires forall j :: 0 <= j < |shifted| ==> 1 <= shifted[j] < |xs| && keep[shifted[j]] && rest[j] == xs[shifted[j]]
    requires forall a, b :: 0 <= a < b < |shifted| ==> shifted[a] < shifted[b]
    requires forall i :: 1 <= i < |xs| && keep[i] ==> i in shifted
    ensures IndexedBy([x] + rest, xs, keep, [0] + shifted)
  {
  }

  /** Every position moved one to the right, as when a head is prepended. */
  function Shift(idx: seq<nat>): (r: seq<nat>)
    ensures |r| == |idx|
    ensures forall k :: 0 <= k < |idx| ==> r[k] == idx[k] + 1
  {
    if |idx| == 0 then [] else [idx[0] + 1] + Shift(idx[1..])
  }

  /** Compacting a sequence by its own truthiness, as `data.filter(item =>
      item)` does, leaves only truthy values. */
  lemma SelectTruthyIsTruthy(data: seq<Value>)
    ensures forall k :: 0 <= k < |Select(data, TruthyMask(data))| ==> Truthy(Select(data, TruthyMask(data))[k])
  {
    var idx := SelectIndices(data, TruthyMask(data));
  }

  /** Two selections agree when they keep the same positions and agree on
      the elements they keep. */
  lemma {:induction false} SelectCongruent<T>(a: seq<T>, ka: seq<bool>, b: seq<T>, kb: seq<bool>)
    requires |a| == |ka| == |b| == |kb|
    requires forall i :: 0 <= i < |a| ==> ka[i] == kb[i]
    requires forall i :: 0 <= i < |a| && ka[i] ==> a[i] == b[i]
    ensures Select(a, ka) == Select(b, kb)
  {
    if |a| > 0 {
      SelectCongruent(a[1..], ka[1..], b[1..], kb[1..]);
    }
  }

  /** Keeping strictly fewer positions keeps strictly fewer elements. */
  lemma {:induction false} CountTrueStrict(small: seq<bool>, big: seq<bool>, j: nat)
    requires |small| == |big|
    requires forall i :: 0 <= i < |small| && small[i] ==> big[i]
    requires j < |small| && big[j] && !small[j]
    ensures CountTrue(small) < CountTrue(big)
  {
    if j == 0 {
      CountTrueMono(small[1..], big[1..]);
    } else {
      CountTrueStrict(small[1..], big[1..], j - 1);
    }
  }

  lemma {:induction false} CountTrueMono(small: seq<bool>, big: seq<bool>)
    requires |small| == |big|
    requires forall i :: 0 <= i < |small| && small[i] ==> big[i]
    ensures CountTrue(small) <= CountTrue(big)
  {
    if |small| > 0 {
      CountTrueMono(small[1..], big[1..]);
    }
  }

  /** `filter(items, operation, callback)`: a non-array input fails before
      any operation runs; otherwise the verdicts are aggregated like `map`
      and the items whose verdict is truthy are kept. */
  function Filter(items: Value, op: Value -> Outcome<Value>): (r: Outcome<seq<Value>>)
    ensures !items.Arr? ==> r == Err
    ensures items.Arr? ==> (r.Ok? <==> forall i :: 0 <= i < |items.elems| ==> op(items.elems[i]).Ok?)
    ensures r.Ok? ==> items.Arr? && |r.value| <= |items.elems|
  {
    if !items.Arr? then Err
    else
      match Map(items.elems, op)
      case Err => Err
      case Ok(verdicts) => Ok(Select(items.elems, TruthyMask(verdicts)))
  }

  /** A successful filter is exactly the ordered subsequence of the items
      whose verdict is truthy: `idx` lists their positions. */
  lemma FilterKeepsTruthyInOrder(items: seq<Value>, op: Value -> Outcome<Value>) returns (idx: seq<nat>)
    requires Filter(Arr(items), op).Ok?
    ensures var kept := Filter(Arr(items), op).value;
      && |idx| == |kept|
      && (forall k :: 0 <= k < |idx| ==> idx[k] < |items| && kept[k] == items[idx[k]])
      && (forall a, b :: 0 <= a < b < |idx| ==> idx[a] < idx[b])
      && (forall i :: 0 <= i < |items| ==> (i in idx <==> Truthy(op(items[i]).value)))
  {
    var verdicts := Map(items, op).value;
    var mask := TruthyMask(verdicts);
    idx := SelectIndices(items, mask);
    forall i | 0 <= i < |items| && i in idx
      ensures Truthy(op(items[i]).value)
    {
      var k :| 0 <= k < |idx| && idx[k] == i;
    }
  }

  /** The unlimited map over `[1, 2, 3]` with an add-two operation. */
  lemma MapExample()
    ensures Map([Num(1), Num(2), Num(3)], AddTwo) == Ok([Num(3), Num(4), Num(5)])
    ensures Map([Num(3), Null, Num(5)], AddTwo) == Err
    ensures Map([], AddTwo) == Ok([])
  {
    var items := [Num(1), Num(2), Num(3)];
    assert AddTwo(items[0]).Ok? && AddTwo(items[1]).Ok? && AddTwo(items[2]).Ok?;
    var r := Map(items, AddTwo);
    assert r.Ok?;
    assert r.value == [r.value[0], r.value[1], r.value[2]];
    assert AddTwo([Num(3), Null, Num(5)][1]) == Err;
  }

  /** The filter over `[1, 15, 30]` with a greater-than-ten verdict. */
  lemma FilterExample()
    ensures Filter(Arr([Num(1), Num(15), Num(30)]), GreaterThanTen) == Ok([Num(15), Num(30)])
    ensures Filter(Num(55), GreaterThanTen) == Err
    ensures Filter(Arr([]), GreaterThanTen) == Ok([])
  {
    var items := [Num(1), Num(15), Num(30)];
    var verdicts := Map(items, GreaterThanTen).value;
    assert verdicts == [Bool(false), Bool(true), Bool(true)];
    assert TruthyMask(verdicts) == [false, true, true];
    assert Select(items, [false, true, true]) == [Num(15), Num(30)] by {
      assert items[1..] == [Num(15), Num(30)];
      assert items[1..][1..] == [Num(30)];
    }
  }

  /** Operations used by the examples: numeric items only, as in the tests. */
  function AddTwo(v: Value): Outcome<Value> {
    if v.Num? then Ok(Num(v.n + 2)) else Err
  }

  function GreaterThanTen(v: Value): Outcome<Value> {
    if v.Num? then Ok(Bool(v.n > 10)) else Err
  }
}
