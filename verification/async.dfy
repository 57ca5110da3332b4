/** `makeAsync(func)`: turns a synchronous transform into a callback-style
    operation that refuses falsy input. */
module Async {
  import opened Values
  import Parallel

  /** One call of the wrapped operation on `data`. */
  function Call(f: Value -> Value, data: Value): (r: Outcome<Value>)
    ensures r.Ok? <==> Truthy(data)
    ensures r.Ok? ==> r.value == f(data)
  {
    if Truthy(data) then Ok(f(data)) else Err
  }

  /** The operation `makeAsync(f)` returns: truthy input succeeds with
      `f(data)`, falsy input fails whatever `f` is, since `f` is not called. */
  function MakeAsync(f: Value -> Value): (g: Value -> Outcome<Value>)
    ensures forall data :: g(data).Ok? <==> Truthy(data)
    ensures forall data :: g(data).Ok? ==> g(data).value == f(data)
    ensures forall data :: !Truthy(data) ==> g(data) == Err
  {
    data => Call(f, data)
  }

  /** Mapping a made-async transform succeeds exactly when every item is
      truthy, and then yields the transform of each item in order. */
  lemma MapMadeAsync(items: seq<Value>, f: Value -> Value)
    ensures Parallel.Map(items, MakeAsync(f)).Ok? <==> forall i :: 0 <= i < |items| ==> Truthy(items[i])
    ensures Parallel.Map(items, MakeAsync(f)).Ok? ==>
      Parallel.Map(items, MakeAsync(f)).value == seq(|items|, i requires 0 <= i < |items| => f(items[i]))
  {
  }

  /** Squaring every element of an array, as in the tests. */
  function SquareAll(v: Value): Value {
    match v
    case Arr(xs) => Arr(seq(|xs|, i requires 0 <= i < |xs| => if xs[i].Num? then Num(xs[i].n * xs[i].n) else Undefined))
    case _ => Undefined
  }

  /** `makeAsync(square all)` on `[2, 10, 30]` and on `null`. */
  lemma MakeAsyncExample()
    ensures MakeAsync(SquareAll)(Arr([Num(2), Num(10), Num(30)])) == Ok(Arr([Num(4), Num(100), Num(900)]))
    ensures MakeAsync(SquareAll)(Null) == Err
  {
    var out := SquareAll(Arr([Num(2), Num(10), Num(30)]));
    assert out.elems == [Num(4), Num(100), Num(900)];
  }
}
