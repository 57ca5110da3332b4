/** The bounded scheduler behind `mapLimit` and `filterLimit`.

    `items.map(launchOperation)` runs synchronously, item by item: an item
    starts at once (the counter is incremented and its operation called)
    unless the counter equals `limit`, in which case it is deferred to a
    `setInterval` poll that starts it once the counter is below `limit`.
    Every completion, successful or not, decrements the counter. Timer order
    and completion order are not under the program's control, so each is a
    nondeterministic choice of step here: `Launch` is the next synchronous
    launch, `Poll(j)` is the deferred item at position `j` winning the next
    free slot (position 0 is first-in, first-out), and `Complete(i)` is the
    running item `i` calling back. */
module Scheduler {
  import opened Values
  import Parallel

  /** One invocation: the items, what each item's operation resolves its
      promise with, and the concurrency limit. */
  datatype Config = Config(items: seq<Value>, op: Value -> Outcome<Value>, limit: int)

  /** The run's bookkeeping. Items `launched..|items|-1` have not been
      reached by the synchronous launch loop yet; `waiting` are deferred to
      polling; `running` have been called and not called back; `done` holds
      each finished item's outcome; `count` is `operationsInProcess`. */
  datatype State = State(
    launched: nat,
    waiting: seq<nat>,
    running: set<nat>,
    count: int,
    done: map<nat, Outcome<Value>>)

  datatype Step = Launch | Poll(j: nat) | Complete(i: nat)

  function Start(): State {
    State(0, [], {}, 0, map[])
  }

  predicate Enabled(c: Config, s: State, step: Step) {
    match step
    case Launch => s.launched < |c.items|
    case Poll(j) => j < |s.waiting| && s.count < c.limit
    case Complete(i) => i in s.running && i < |c.items|
  }

  function Remove(q: seq<nat>, j: nat): (r: seq<nat>)
    requires j < |q|
    ensures |r| == |q| - 1
  {
    q[..j] + q[j + 1..]
  }

  /** The effect of one step: a launch defers its item when the counter is
      at the limit and starts it otherwise; a poll starts a deferred item; a
      completion frees a slot and records the item's outcome. */
  function Next(c: Config, s: State, step: Step): (r: State)
    requires Enabled(c, s, step)
    ensures s.count <= c.limit ==> r.count <= c.limit
    ensures step.Launch? ==> r.launched == s.launched + 1
    ensures step.Launch? && s.count == c.limit ==> r.running == s.running && r.waiting == s.waiting + [s.launched]
    ensures step.Launch? && s.count != c.limit ==> r.running == s.running + {s.launched} && r.waiting == s.waiting
    ensures step.Poll? ==> r.running == s.running + {s.waiting[step.j]} && |r.waiting| == |s.waiting| - 1
    ensures step.Complete? ==> step.i !in r.running && step.i in r.done && r.done[step.i] == c.op(c.items[step.i])
    ensures !step.Launch? ==> r.launched == s.launched
  {
    match step
    case Launch =>
      var i := s.launched;
      if s.count == c.limit then s.(launched := i + 1, waiting := s.waiting + [i])
      else s.(launched := i + 1, running := s.running + {i}, count := s.count + 1)
    case Poll(j) =>
      s.(waiting := Remove(s.waiting, j), running := s.running + {s.waiting[j]}, count := s.count + 1)
    case Complete(i) =>
      s.(running := s.running - {i}, count := s.count - 1, done := s.done[i := c.op(c.items[i])])
  }

  /** The state after a sequence of steps, or `None` if some step is not
      enabled when it is taken. */
  function Exec(c: Config, s: State, steps: seq<Step>): Option<State>
    decreases |steps|
  {
    if |steps| == 0 then Some(s)
    else if Enabled(c, s, steps[0]) then Exec(c, Next(c, s, steps[0]), steps[1..])
    else None
  }

  predicate Distinct(q: seq<nat>) {
    forall a, b :: 0 <= a < b < |q| ==> q[a] != q[b]
  }

  /** What every reachable state satisfies. */
  ghost predicate Inv(c: Config, s: State) {
    && s.launched <= |c.items|
    && 0 <= s.count <= c.limit
    && s.count == |s.running|
    && Distinct(s.waiting)
    && (forall x :: x in s.waiting ==> x < s.launched && x !in s.running && x !in s.done)
    && (forall i :: i in s.running ==> i < s.launched && i !in s.done)
    && (forall i :: i in s.done ==> i < s.launched && s.done[i] == c.op(c.items[i]))
    && (forall i :: 0 <= i < s.launched ==> i in s.waiting || i in s.running || i in s.done)
    && |s.waiting| + |s.running| + |s.done| == s.launched
  }

  lemma RemoveFacts(q: seq<nat>, j: nat)
    requires j < |q| && Distinct(q)
    ensures Distinct(Remove(q, j))
    ensures forall x :: x in Remove(q, j) <==> x in q && x != q[j]
  {
  }

  /** One step keeps the invariant. */
  lemma StepKeepsInv(c: Config, s: State, step: Step)
    requires Inv(c, s) && Enabled(c, s, step)
    ensures Inv(c, Next(c, s, step))
  {
    match step
    case Launch =>
      if s.count == c.limit {
        DeferKeepsInv(c, s);
      } else {
        StartKeepsInv(c, s);
      }
    case Poll(j) => PollKeepsInv(c, s, j);
    case Complete(i) => CompleteKeepsInv(c, s, i);
  }

  /** The launch loop defers an item when the counter equals the limit. */
  lemma DeferKeepsInv(c: Config, s: State)
    requires Inv(c, s) && s.launched < |c.items| && s.count == c.limit
    ensures Inv(c, Next(c, s, Launch))
  {
    var t := Next(c, s, Launch);
    var i := s.launched;
    assert i !in s.waiting && i !in s.running && i !in s.done;
    assert forall x :: x in t.waiting <==> x in s.waiting || x == i;
    forall a, b | 0 <= a < b < |t.waiting|
      ensures t.waiting[a] != t.waiting[b]
    {
      if b == |s.waiting| {
        assert t.waiting[a] in s.waiting;
      }
    }
  }

  /** The launch loop starts an item when the counter is not at the limit. */
  lemma StartKeepsInv(c: Config, s: State)
    requires Inv(c, s) && s.launched < |c.items| && s.count != c.limit
    ensures Inv(c, Next(c, s, Launch))
  {
    var t := Next(c, s, Launch);
    var i := s.launched;
    assert i !in s.waiting && i !in s.running && i !in s.done;
    assert |t.running| == |s.running| + 1;
    LaunchCovers(s, t);
  }

  /** Reaching one more item keeps every launched item accounted for. */
  lemma LaunchCovers(s: State, t: State)
    requires forall k :: 0 <= k < s.launched ==> k in s.waiting || k in s.running || k in s.done
    requires t.launched == s.launched + 1
    requires s.launched in t.waiting || s.launched in t.running
    requires forall k :: k in s.waiting ==> k in t.waiting
    requires s.running <= t.running && s.done == t.done
    ensures forall k :: 0 <= k < t.launched ==> k in t.waiting || k in t.running || k in t.done
  {
  }

  /** A poll starts the deferred item at position `j`. */
  lemma PollKeepsInv(c: Config, s: State, j: nat)
    requires Inv(c, s) && Enabled(c, s, Poll(j))
    ensures Inv(c, Next(c, s, Poll(j)))
  {
    var t := Next(c, s, Poll(j));
    var x := s.waiting[j];
    RemoveFacts(s.waiting, j);
    assert x !in s.running && x !in s.done;
    assert |t.running| == |s.running| + 1;
    forall i | 0 <= i < t.launched
      ensures i in t.waiting || i in t.running || i in t.done
    {
      if i == x {
        assert i in t.running;
      }
    }
  }

  /** A running item calls back, with a value or an error. */
  lemma CompleteKeepsInv(c: Config, s: State, i: nat)
    requires Inv(c, s) && Enabled(c, s, Complete(i))
    ensures Inv(c, Next(c, s, Complete(i)))
  {
  }

  lemma {:induction false} ExecKeepsInv(c: Config, s: State, steps: seq<Step>)
    requires Inv(c, s)
    ensures Exec(c, s, steps).Some? ==> Inv(c, Exec(c, s, steps).value)
    decreases |steps|
  {
    if |steps| > 0 && Enabled(c, s, steps[0]) {
      StepKeepsInv(c, s, steps[0]);
      ExecKeepsInv(c, Next(c, s, steps[0]), steps[1..]);
    }
  }

  /** The indices not yet started: the deferred ones, then the ones the
      launch loop has not reached. */
  function Pending(c: Config, s: State): seq<nat>
    requires s.launched <= |c.items|
  {
    s.waiting + seq(|c.items| - s.launched, k requires 0 <= k < |c.items| - s.launched => s.launched + k)
  }

  predicate ExactlyOne(a: bool, b: bool, d: bool) {
    (a || b || d) && !(a && b) && !(a && d) && !(b && d)
  }

  /** Under the invariant, pending, running and done split `0..|items|-1`. */
  lemma InvPartitions(c: Config, s: State)
    requires Inv(c, s)
    ensures forall i :: 0 <= i < |c.items| ==> ExactlyOne(i in Pending(c, s), i in s.running, i in s.done)
    ensures forall i :: i in Pending(c, s) || i in s.running || i in s.done ==> i < |c.items|
    ensures |Pending(c, s)| + |s.running| + |s.done| == |c.items|
  {
    var n := |c.items|;
    var unreached := seq(n - s.launched, k requires 0 <= k < n - s.launched => s.launched + k);
    assert Pending(c, s) == s.waiting + unreached;
    forall i | 0 <= i
      ensures i in unreached <==> s.launched <= i < n
    {
      if s.launched <= i < n {
        assert unreached[i - s.launched] == i;
      }
    }
  }

  /** Over any sequence of steps from the start, with `limit >= 1`, the
      counter stays within `0..limit` and counts exactly the running items,
      and the pending, running and done indices partition `0..|items|-1`. */
  lemma CountWithinLimit(c: Config, steps: seq<Step>)
    requires c.limit >= 1
    requires Exec(c, Start(), steps).Some?
    ensures var s := Exec(c, Start(), steps).value;
      && s.launched <= |c.items|
      && 0 <= s.count <= c.limit
      && s.count == |s.running|
      && (forall i :: 0 <= i < |c.items| ==> ExactlyOne(i in Pending(c, s), i in s.running, i in s.done))
      && (forall i :: i in Pending(c, s) || i in s.running || i in s.done ==> i < |c.items|)
      && |Pending(c, s)| + |s.running| + |s.done| == |c.items|
  {
    ExecKeepsInv(c, Start(), steps);
    InvPartitions(c, Exec(c, Start(), steps).value);
  }

  /** Every index has an outcome. */
  predicate Terminal(c: Config, s: State) {
    s.launched == |c.items| && |s.waiting| == 0 && |s.running| == 0
  }

  /** A bound on the steps left: each step lowers it. */
  function Measure(c: Config, s: State): int {
    3 * (|c.items| - s.launched) + 2 * |s.waiting| + |s.running|
  }

  lemma StepDecreases(c: Config, s: State, step: Step)
    requires Inv(c, s) && Enabled(c, s, step)
    ensures 0 <= Measure(c, Next(c, s, step)) < Measure(c, s)
  {
  }

  /** With `limit >= 1` a run never gets stuck: until every item is done,
      some step is enabled (no item is left without a handler). */
  lemma Progress(c: Config, s: State) returns (step: Step)
    requires c.limit >= 1 && Inv(c, s) && !Terminal(c, s)
    ensures Enabled(c, s, step)
  {
    if s.launched < |c.items| {
      step := Launch;
    } else if |s.running| > 0 {
      var i :| i in s.running;
      step := Complete(i);
    } else {
      step := Poll(0);
    }
  }

  /** What `Promise.all` has delivered so far: a failure as soon as any
      recorded outcome is one, every value in index order once all items
      are done, and nothing before that. */
  function Settled(c: Config, s: State): (r: Option<Outcome<seq<Value>>>)
    ensures r == Some(Err) <==> exists i :: i in s.done && s.done[i].Err?
    ensures r.None? <==> (forall i :: i in s.done ==> s.done[i].Ok?) && exists i :: 0 <= i < |c.items| && i !in s.done
    ensures r.Some? && r.value.Ok? ==> |r.value.value| == |c.items|
    ensures r.Some? && r.value.Ok? ==>
      forall i :: 0 <= i < |c.items| ==> i in s.done && s.done[i] == Ok(r.value.value[i])
  {
    var n := |c.items|;
    if exists i :: i in s.done && s.done[i].Err? then Some(Err)
    else if forall i :: 0 <= i < n ==> i in s.done then
      Some(Parallel.All(seq(n, i requires 0 <= i < n => if i in s.done then s.done[i] else Err)))
    else None
  }

  /** Whatever the completion order, a delivered result is the unlimited
      `map` of the same items. */
  lemma SettledIsMap(c: Config, s: State)
    requires Inv(c, s) && Settled(c, s).Some?
    ensures Settled(c, s) == Some(Parallel.Map(c.items, c.op))
  {
    var n := |c.items|;
    if exists i :: i in s.done && s.done[i].Err? {
      var i :| i in s.done && s.done[i].Err?;
      assert !c.op(c.items[i]).Ok?;
    } else {
      var outs := seq(n, i requires 0 <= i < n => if i in s.done then s.done[i] else Err);
      assert outs == Parallel.Outcomes(c.items, c.op);
    }
  }

  /** Once every item is done, a result has been delivered. */
  lemma TerminalSettles(c: Config, s: State)
    requires Inv(c, s) && Terminal(c, s)
    ensures Settled(c, s).Some?
  {
  }

  /** The delivered result never changes: the first settlement wins. */
  lemma SettledIsFinal(c: Config, s: State, step: Step)
    requires Inv(c, s) && Enabled(c, s, step) && Settled(c, s).Some?
    ensures Settled(c, Next(c, s, step)) == Settled(c, s)
  {
    var t := Next(c, s, step);
    StepKeepsInv(c, s, step);
    SettledIsMap(c, s);
    SettledPersists(c, s, t);
    SettledIsMap(c, t);
  }

  /** Recording more outcomes, without changing any recorded one, keeps a
      delivered result delivered. */
  lemma SettledPersists(c: Config, s: State, t: State)
    requires Settled(c, s).Some?
    requires forall i :: i in s.done ==> i in t.done && t.done[i] == s.done[i]
    ensures Settled(c, t).Some?
  {
    if exists i :: i in s.done && s.done[i].Err? {
      var i :| i in s.done && s.done[i].Err?;
      assert t.done[i].Err?;
    }
  }

  /** Over any interleaving, the result delivered (if any yet) is the
      unlimited `map`, and it is delivered by the time every item is done. */
  lemma RunDeliversMap(c: Config, steps: seq<Step>)
    requires c.limit >= 1
    requires Exec(c, Start(), steps).Some?
    ensures var s := Exec(c, Start(), steps).value;
      && (Settled(c, s).Some? ==> Settled(c, s) == Some(Parallel.Map(c.items, c.op)))
      && (Terminal(c, s) ==> Settled(c, s) == Some(Parallel.Map(c.items, c.op)))
  {
    ExecKeepsInv(c, Start(), steps);
    var s := Exec(c, Start(), steps).value;
    if Terminal(c, s) {
      TerminalSettles(c, s);
    }
    if Settled(c, s).Some? {
      SettledIsMap(c, s);
    }
  }

  /** With `limit >= |items|` no item is ever deferred: every item starts
      when the launch loop reaches it, as in the unlimited `map`. */
  lemma {:induction false} NothingDeferredWithinLimit(c: Config, s: State, steps: seq<Step>)
    requires |c.items| <= c.limit
    requires Inv(c, s) && |s.waiting| == 0
    ensures Exec(c, s, steps).Some? ==> |Exec(c, s, steps).value.waiting| == 0
    decreases |steps|
  {
    if |steps| > 0 && Enabled(c, s, steps[0]) {
      StepKeepsInv(c, s, steps[0]);
      NothingDeferredWithinLimit(c, Next(c, s, steps[0]), steps[1..]);
    }
  }

  /** A complete run: the launch loop first, then each free slot goes to
      the first deferred item and otherwise an arbitrary running item calls
      back. It returns the delivered result and the highest counter value. */
  method RunToCompletion(c: Config) returns (r: Outcome<seq<Value>>, peak: int)
    requires c.limit >= 1
    ensures r == Parallel.Map(c.items, c.op)
    ensures 0 <= peak <= c.limit
    ensures |c.items| > 0 ==> peak >= 1
  {
    var s := Start();
    peak := 0;
    while !Terminal(c, s)
      invariant Inv(c, s)
      invariant 0 <= peak <= c.limit
      invariant s.launched > 0 ==> peak >= 1
      decreases Measure(c, s)
    {
      var step: Step;
      if s.launched < |c.items| {
        step := Launch;
      } else if |s.waiting| > 0 && s.count < c.limit {
        step := Poll(0);
      } else {
        var i :| i in s.running;
        step := Complete(i);
      }
      StepDecreases(c, s, step);
      StepKeepsInv(c, s, step);
      s := Next(c, s, step);
      if s.count > peak {
        peak := s.count;
      }
    }
    TerminalSettles(c, s);
    SettledIsMap(c, s);
    r := Settled(c, s).value;
  }
}
