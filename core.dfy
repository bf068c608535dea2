/** Shared vocabulary of the model: optional values, results with an error
    part, bytes, and the `findIndex` / `find` searches that the TypeScript
    code runs over arrays. */
module Core {

  /** `T | undefined` in the TypeScript code. */
  datatype Option<+T> = None | Some(value: T) {
    function GetOr(default: T): T {
      match this
      case Some(v) => v
      case None => default
    }
  }

  /** The value of an operation that may throw: `Err` carries the reason. */
  datatype Result<+T, +E> = Ok(value: T) | Err(error: E)

  newtype byte = x: int | 0 <= x < 256

  type Bytes = seq<byte>

  /** `xs.findIndex(p)`: the first index whose element satisfies `p`, or -1. */
  function FindIndex<T>(xs: seq<T>, p: T -> bool): (r: int)
    ensures -1 <= r < |xs|
    ensures 0 <= r ==> p(xs[r])
    ensures forall j :: 0 <= j < |xs| && (r < 0 || j < r) ==> !p(xs[j])
  {
    FindIndexFrom(xs, p, 0)
  }

  /** The search of `FindIndex`, started at index `k`. */
  function FindIndexFrom<T>(xs: seq<T>, p: T -> bool, k: nat): (r: int)
    requires k <= |xs|
    ensures r == -1 || k <= r < |xs|
    ensures 0 <= r ==> p(xs[r])
    ensures forall j :: k <= j < |xs| && (r < 0 || j < r) ==> !p(xs[j])
    decreases |xs| - k
  {
    if k == |xs| then -1
    else if p(xs[k]) then k
    else FindIndexFrom(xs, p, k + 1)
  }

  /** `xs.find(p)`: the first element satisfying `p`, if any. */
  function Find<T>(xs: seq<T>, p: T -> bool): (r: Option<T>)
    ensures r.None? <==> forall j :: 0 <= j < |xs| ==> !p(xs[j])
    ensures r.Some? ==> p(r.value)
    ensures r.Some? ==> exists i :: 0 <= i < |xs| && xs[i] == r.value
                                   && forall j :: 0 <= j < i ==> !p(xs[j])
  {
    var i := FindIndex(xs, p);
    if i < 0 then None else Some(xs[i])
  }
}
