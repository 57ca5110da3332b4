/** `serial(operations, callback)`: a left fold over the operations, seeded
    with 0, in which each operation's result becomes the next one's input. */
module Serial {
  import opened Values

  /** An element of the operations array. The first operation is called
      with no input (`operation(cb)`), every later one with the running
      total (`operation(total, cb)`), hence the optional argument. */
  datatype Operation = NotFunction | Fn(call: Option<Value> -> Outcome<Value>)

  /** How the chain ends: with the last operation's result, at the first
      element that is not a function, or at the first operation that
      reports an error. `at` is that element's index. */
  datatype Chain = Finished(total: Value) | NotAFunctionAt(at: nat) | FailedAt(at: nat)

  /** The arguments the completion callback receives: `callback(error, result)`. */
  datatype Report = Report(error: Value, result: Value)

  /** The value `Promise.reduce` starts from. */
  function Seed(): Value { Num(0) }

  /** What operation `i` is called with, given the total so far. */
  function Input(i: nat, total: Value): Option<Value> {
    if i == 0 then None else Some(total)
  }

  /** One reducer step: run element `i` on the total so far. A non-function
      stops the chain without being called; a function's failure stops it
      at `i`; its success becomes the new total. */
  function Step(op: Operation, i: nat, total: Value): (r: Chain)
    ensures r.NotAFunctionAt? <==> op.NotFunction?
    ensures r.Finished? <==> op.Fn? && op.call(Input(i, total)).Ok?
    ensures r.Finished? ==> r.total == op.call(Input(i, total)).value
    ensures !r.Finished? ==> r.at == i
  {
    match op
    case NotFunction => NotAFunctionAt(i)
    case Fn(call) =>
      match call(Input(i, total))
      case Ok(v) => Finished(v)
      case Err => FailedAt(i)
  }

  /** The chain over `ops`, as a fold over its prefixes. */
  function Run(ops: seq<Operation>): (r: Chain)
    ensures |ops| == 0 ==> r == Finished(Seed())
    ensures r.Finished? ==> forall i :: 0 <= i < |ops| ==> ops[i].Fn?
    ensures r.NotAFunctionAt? ==> r.at < |ops| && ops[r.at].NotFunction?
    ensures r.FailedAt? ==> r.at < |ops| && ops[r.at].Fn?
    ensures !r.Finished? ==> forall i :: 0 <= i < r.at ==> ops[i].Fn?
    decreases |ops|
  {
    if |ops| == 0 then Finished(Seed())
    else
      var last := |ops| - 1;
      match Run(ops[..last])
      case Finished(total) => Step(ops[last], last, total)
      case stopped => stopped
  }

  /** The stopping point is the first failure: everything before it
      finished, and the element there is what failed on that total. */
  lemma {:induction false} StopsAtFirstFailure(ops: seq<Operation>)
    requires !Run(ops).Finished?
    ensures var at := Run(ops).at;
      && Run(ops[..at]).Finished?
      && Step(ops[at], at, Run(ops[..at]).total) == Run(ops)
    decreases |ops|
  {
    var last := |ops| - 1;
    assert ops[..last][..|ops[..last]|] == ops[..last];
    if !Run(ops[..last]).Finished? {
      StopsAtFirstFailure(ops[..last]);
      var at := Run(ops).at;
      assert ops[..last][..at] == ops[..at];
    }
  }

  /** Once the chain has stopped, appending operations leaves its outcome,
      and so the first report, unchanged. After a failing operation the
      chain is rejected and no later operation runs; after a non-function
      the reducer goes on calling later operations on an `undefined` total,
      which this fold does not follow. */
  lemma {:induction false} NoOperationRunsAfterFailure(ops: seq<Operation>, more: seq<Operation>)
    requires !Run(ops).Finished?
    ensures Run(ops + more) == Run(ops)
    decreases |more|
  {
    if |more| > 0 {
      var shorter := ops + more[..|more| - 1];
      assert (ops + more)[..|ops + more| - 1] == shorter;
      assert shorter == ops + more[..|more| - 1];
      NoOperationRunsAfterFailure(ops, more[..|more| - 1]);
    } else {
      assert ops + more == ops;
    }
  }

  /** In a finished chain every element is a function, operation 0 is
      called without input, and operation k > 0 is called with the result of
      operation k - 1; what it returns is the total after it. */
  lemma EachOperationGetsPreviousResult(ops: seq<Operation>, k: nat)
    requires Run(ops).Finished? && k < |ops|
    ensures Run(ops[..k]).Finished? && Run(ops[..k + 1]).Finished?
    ensures ops[k].Fn?
    ensures ops[k].call(if k == 0 then None else Some(Run(ops[..k]).total)) == Ok(Run(ops[..k + 1]).total)
  {
    var upTo := ops[..k + 1];
    PrefixOfFinished(ops, k + 1);
    assert upTo[..k] == ops[..k];
    assert Run(upTo) == Step(ops[k], k, Run(ops[..k]).total);
  }

  /** The reduce loop itself, index by index: a reference implementation
      that threads the running total, stops at the first failure and counts
      the operations it calls. */
  method Reduce(ops: seq<Operation>) returns (r: Chain, calls: nat)
    ensures r == Run(ops)
    ensures calls == CallsBeforeReport(ops)
  {
    var total := Seed();
    var i := 0;
    calls := 0;
    while i < |ops|
      invariant 0 <= i <= |ops|
      invariant Run(ops[..i]) == Finished(total)
      invariant calls == i
    {
      assert ops[..i + 1][..i] == ops[..i];
      match ops[i]
      case NotFunction =>
        r := NotAFunctionAt(i);
        NoOperationRunsAfterFailure(ops[..i + 1], ops[i + 1..]);
        assert ops[..i + 1] + ops[i + 1..] == ops;
        return;
      case Fn(call) =>
        var out := call(if i == 0 then None else Some(total));
        calls := calls + 1;
        if out.Err? {
          r := FailedAt(i);
          NoOperationRunsAfterFailure(ops[..i + 1], ops[i + 1..]);
          assert ops[..i + 1] + ops[i + 1..] == ops;
          return;
        }
        total := out.value;
      i := i + 1;
    }
    assert ops[..i] == ops;
    r := Finished(total);
  }

  /** How many operations have been called when the callback first fires:
      operation k is called exactly when it is a function and every
      operation before it succeeded. */
  function CallsBeforeReport(ops: seq<Operation>): (n: nat)
    ensures n <= |ops|
  {
    match Run(ops)
    case Finished(_) => |ops|
    case NotAFunctionAt(at) => at
    case FailedAt(at) => at + 1
  }

  /** A prefix of a finished chain is finished. */
  lemma PrefixOfFinished(ops: seq<Operation>, j: nat)
    requires Run(ops).Finished? && j <= |ops|
    ensures Run(ops[..j]).Finished?
  {
    if !Run(ops[..j]).Finished? {
      assert ops[..j] + ops[j..] == ops;
      NoOperationRunsAfterFailure(ops[..j], ops[j..]);
    }
  }

  /** Operation k is called (it is a function and the chain before it
      finished) exactly when k is below the number of calls made. */
  lemma CalledExactlyBeforeReport(ops: seq<Operation>, k: nat)
    requires k < |ops|
    ensures (Run(ops[..k]).Finished? && ops[k].Fn?) <==> k < CallsBeforeReport(ops)
  {
    if Run(ops).Finished? {
      PrefixOfFinished(ops, k);
    } else {
      var at := Run(ops).at;
      StopsAtFirstFailure(ops);
      if k < at {
        assert ops[..at][..k] == ops[..k];
        PrefixOfFinished(ops[..at], k);
      } else if k > at {
        var upTo := ops[..at + 1];
        assert upTo[..at] == ops[..at];
        assert Run(upTo) == Step(ops[at], at, Run(ops[..at]).total);
        assert upTo + ops[at + 1..k] == ops[..k];
        NoOperationRunsAfterFailure(upTo, ops[at + 1..k]);
      }
    }
  }

  /** The callback's arguments as written: the non-function check passes
      `new Error(...)`, but an operation's failure calls `reject()` with no
      reason, so the callback receives an `undefined` error. */
  function ReportAsWritten(c: Chain): (r: Report)
    ensures c.Finished? ==> r == Report(Null, c.total)
    ensures !c.Finished? ==> r.result == Undefined
    ensures c.NotAFunctionAt? ==> Truthy(r.error)
    ensures c.FailedAt? ==> !Truthy(r.error)
  {
    match c
    case Finished(total) => Report(Null, total)
    case NotAFunctionAt(_) => Report(Obj, Undefined)
    case FailedAt(_) => Report(Undefined, Undefined)
  }

  /** A failing operation, and one that succeeds with `undefined`. */
  function Failing(input: Option<Value>): Outcome<Value> { Err }
  function ReturnsUndefined(input: Option<Value>): Outcome<Value> { Ok(Undefined) }

  /** As written, a failing operation is reported with a falsy error: the
      caller's `if (err)` cannot tell it from one that returned `undefined`. */
  lemma FailureReportedWithoutError()
    ensures Run([Fn(Failing)]) == FailedAt(0)
    ensures !Truthy(ReportAsWritten(Run([Fn(Failing)])).error)
    ensures Truthy(ReportAsWritten(Run([Fn(Failing)])).error)
        == Truthy(ReportAsWritten(Run([Fn(ReturnsUndefined)])).error)
    ensures ReportAsWritten(Run([Fn(Failing)])).result
        == ReportAsWritten(Run([Fn(ReturnsUndefined)])).result
  {
  }

  /** The callback's arguments with the operation's failure passed on as an
      error object, as the non-function case already does. */
  function ReportOf(c: Chain): (r: Report)
    ensures Truthy(r.error) <==> !c.Finished?
    ensures c.Finished? ==> r.result == c.total
    ensures !c.Finished? ==> r.result == Undefined
  {
    match c
    case Finished(total) => Report(Null, total)
    case NotAFunctionAt(_) => Report(Obj, Undefined)
    case FailedAt(_) => Report(Obj, Undefined)
  }

  /** `serial(operations, callback)` with the failure passed on: what the
      callback first receives once the missing rejection reason is supplied.
      As written, a failing operation is reported by `ReportAsWritten`. */
  function Serial(ops: seq<Operation>): (r: Report)
    ensures Truthy(r.error) <==> !Run(ops).Finished?
    ensures Run(ops).Finished? ==> r.result == Run(ops).total
    ensures (exists i :: 0 <= i < |ops| && ops[i].NotFunction?) ==> Truthy(r.error)
    ensures |ops| == 0 ==> r == Report(Null, Num(0))
  {
    ReportOf(Run(ops))
  }

  /** A non-function element is always reported as an error. */
  lemma NotAFunctionIsReported(ops: seq<Operation>, i: nat)
    requires i < |ops| && ops[i].NotFunction?
    ensures Truthy(Serial(ops).error)
    ensures Serial(ops).result == Undefined
  {
  }

  /** The test's operations on arrays of numbers: with no input they start
      from `[1, 2, 5]`. */
  function MapNums(input: Option<Value>, f: int -> int): Outcome<Value> {
    match input
    case None => Ok(Arr([Num(f(1)), Num(f(2)), Num(f(5))]))
    case Some(Arr(xs)) =>
      (match EachNum(xs, f)
       case Ok(ys) => Ok(Arr(ys))
       case Err => Err)
    case Some(_) => Err
  }

  /** `f` applied to every element, all of which must be numbers. */
  function EachNum(xs: seq<Value>, f: int -> int): (r: Outcome<seq<Value>>)
    ensures r.Ok? <==> forall i :: 0 <= i < |xs| ==> xs[i].Num?
    ensures r.Ok? ==> |r.value| == |xs| && forall i :: 0 <= i < |xs| ==> r.value[i] == Num(f(xs[i].n))
  {
    if |xs| == 0 then Ok([])
    else if !xs[0].Num? then Err
    else
      match EachNum(xs[1..], f)
      case Ok(ys) => Ok([Num(f(xs[0].n))] + ys)
      case Err => Err
  }

  function Plus2(x: int): int { x + 2 }
  function Times2(x: int): int { x * 2 }
  function IncByTwo(input: Option<Value>): Outcome<Value> { MapNums(input, Plus2) }
  function MultiplyByTwo(input: Option<Value>): Outcome<Value> { MapNums(input, Times2) }

  /** `EachNum` over a three-element array of numbers. */
  lemma EachNum3(a: int, b: int, c: int, f: int -> int)
    ensures EachNum([Num(a), Num(b), Num(c)], f) == Ok([Num(f(a)), Num(f(b)), Num(f(c))])
  {
    var r := EachNum([Num(a), Num(b), Num(c)], f);
    assert r.value == [r.value[0], r.value[1], r.value[2]];
  }

  /** Appending one operation runs it on the total so far, if any. */
  lemma RunSnoc(ops: seq<Operation>, op: Operation)
    ensures Run(ops + [op]) == (if Run(ops).Finished? then Step(op, |ops|, Run(ops).total) else Run(ops))
  {
    assert (ops + [op])[..|ops|] == ops;
  }

  lemma IncStep(a: int, b: int, c: int)
    ensures IncByTwo(Some(Arr([Num(a), Num(b), Num(c)]))) == Ok(Arr([Num(a + 2), Num(b + 2), Num(c + 2)]))
  {
    EachNum3(a, b, c, Plus2);
  }

  lemma MultiplyStep(a: int, b: int, c: int)
    ensures MultiplyByTwo(Some(Arr([Num(a), Num(b), Num(c)]))) == Ok(Arr([Num(a * 2), Num(b * 2), Num(c * 2)]))
  {
    EachNum3(a, b, c, Times2);
  }

  /** The fixture chain, one operation at a time. */
  lemma FixtureRun()
    ensures Run([Fn(IncByTwo), Fn(MultiplyByTwo), Fn(IncByTwo), Fn(IncByTwo)])
         == Finished(Arr([Num(10), Num(12), Num(18)]))
  {
    var c3 := [Fn(IncByTwo), Fn(MultiplyByTwo), Fn(IncByTwo)];
    FixtureRun3();
    RunSnoc(c3, Fn(IncByTwo));
    IncStep(8, 10, 16);
    assert c3 + [Fn(IncByTwo)] == [Fn(IncByTwo), Fn(MultiplyByTwo), Fn(IncByTwo), Fn(IncByTwo)];
  }

  lemma FixtureRun3()
    ensures Run([Fn(IncByTwo), Fn(MultiplyByTwo), Fn(IncByTwo)]) == Finished(Arr([Num(8), Num(10), Num(16)]))
  {
    var c2 := [Fn(IncByTwo), Fn(MultiplyByTwo)];
    FixtureRun2();
    RunSnoc(c2, Fn(IncByTwo));
    IncStep(6, 8, 14);
    assert c2 + [Fn(IncByTwo)] == [Fn(IncByTwo), Fn(MultiplyByTwo), Fn(IncByTwo)];
  }

  lemma FixtureRun2()
    ensures Run([Fn(IncByTwo), Fn(MultiplyByTwo)]) == Finished(Arr([Num(6), Num(8), Num(14)]))
  {
    var c1 := [Fn(IncByTwo)];
    RunSnoc([], Fn(IncByTwo));
    assert [] + c1 == c1;
    RunSnoc(c1, Fn(MultiplyByTwo));
    MultiplyStep(3, 4, 7);
    assert c1 + [Fn(MultiplyByTwo)] == [Fn(IncByTwo), Fn(MultiplyByTwo)];
  }

  /** `[incByTwo, multiplyByTwo, incByTwo, incByTwo]` over `[1, 2, 5]`
      gives `[10, 12, 18]`; an empty chain gives 0; a string is rejected. */
  lemma SerialExample()
    ensures Serial([Fn(IncByTwo), Fn(MultiplyByTwo), Fn(IncByTwo), Fn(IncByTwo)])
         == Report(Null, Arr([Num(10), Num(12), Num(18)]))
    ensures Serial([]) == Report(Null, Num(0))
    ensures Truthy(Serial([NotFunction]).error)
  {
    FixtureRun();
    assert [NotFunction][..0] == [];
  }
}
