/** JavaScript values as far as the toolkit inspects them, and the outcome an
    operation reports through its `(err, data)` callback. */
module Values {

  /** A JavaScript value. Numbers are modelled as integers; `Obj` stands for
      any object that is not an array, `new Error(...)` included. */
  datatype Value =
    | Undefined
    | Null
    | Bool(b: bool)
    | Num(n: int)
    | Str(s: string)
    | Arr(elems: seq<Value>)
    | Obj

  /** JavaScript truthiness: what `if (x)` and `Array.prototype.filter` test. */
  predicate Truthy(v: Value) {
    match v
    case Undefined => false
    case Null => false
    case Bool(b) => b
    case Num(n) => n != 0
    case Str(s) => |s| > 0
    case Arr(_) => true
    case Obj => true
  }

  /** An optional input: the first operation of a serial chain gets none. */
  datatype Option<+T> = None | Some(value: T)

  /** What one callback reports: `cb(null, data)` is `Ok(data)`, a truthy
      error is `Err`. Error values themselves are not distinguished. */
  datatype Outcome<+T> = Ok(value: T) | Err

  /** The per-position truthiness of a sequence of values. */
  function TruthyMask(vs: seq<Value>): (m: seq<bool>)
    ensures |m| == |vs|
    ensures forall i :: 0 <= i < |vs| ==> (m[i] <==> Truthy(vs[i]))
  {
    seq(|vs|, i requires 0 <= i < |vs| => Truthy(vs[i]))
  }
}
