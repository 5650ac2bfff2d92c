/**
 * The few JavaScript value semantics the graph code relies on:
 * optional values (`null` / `undefined`), truthiness of a string id,
 * and the numbers that distances take (integers, `Infinity`, and the
 * `NaN` that arithmetic on `undefined` produces).
 */
module Js {

  datatype Option<+T> = None | Some(value: T)

  /** An id is truthy in JavaScript when it is present and not the empty string. */
  predicate Truthy(s: Option<string>) {
    s.Some? && s.value != ""
  }

  /**
   * The numbers a distance can hold.  Weights are integers, so a sum is
   * an integer, `Infinity`, or `NaN` (when a map lookup gave `undefined`).
   */
  datatype Num = Fin(n: int) | Inf | NaN

  /** JavaScript `d + w` for an integer weight `w`. */
  function Add(d: Num, w: int): Num {
    match d
    case Fin(n) => Fin(n + w)
    case Inf => Inf
    case NaN => NaN
  }

  /** JavaScript `a < b`: false whenever either side is `NaN`, and `Infinity < Infinity` is false. */
  predicate Less(a: Num, b: Num) {
    match a
    case Fin(x) => (match b case Fin(y) => x < y case Inf => true case NaN => false)
    case Inf => false
    case NaN => false
  }

  /** The order `<=` on the numbers that are not `NaN`. */
  predicate Le(a: Num, b: Num) {
    match a
    case Fin(x) => (match b case Fin(y) => x <= y case Inf => true case NaN => false)
    case Inf => b.Inf?
    case NaN => false
  }

  /** `m.get(k)` used as a number: a missing key reads as `undefined`, which behaves as `NaN`. */
  function Get(m: map<string, Num>, k: string): Num {
    if k in m then m[k] else NaN
  }

  /** For numbers that are not `NaN`, `!(a < b)` is `b <= a`. */
  lemma NotLessIsLe(a: Num, b: Num)
    requires a != NaN && b != NaN
    ensures !Less(a, b) <==> Le(b, a)
  {
  }

  lemma LeTrans(a: Num, b: Num, c: Num)
    requires Le(a, b) && Le(b, c)
    ensures Le(a, c)
  {
  }

  lemma LeAntisym(a: Num, b: Num)
    requires Le(a, b) && Le(b, a)
    ensures a == b
  {
  }

  /** A number below `b` is below anything `b` is at most. */
  lemma LessLe(a: Num, b: Num, c: Num)
    requires Less(a, b) && Le(b, c)
    ensures Less(a, c)
  {
  }

  /** A number at most `b` is below anything `b` is below. */
  lemma LeLess(a: Num, b: Num, c: Num)
    requires Le(a, b) && Less(b, c)
    ensures Less(a, c)
  {
  }

  /** Adding the same weight on both sides keeps `<=`. */
  lemma LeAdd(a: Num, b: Num, w: int)
    requires Le(a, b)
    ensures Le(Add(a, w), Add(b, w))
  {
  }
}
