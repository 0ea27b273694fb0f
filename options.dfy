/**
 * The solvers of the settlement core use INT_MAX as "no candidate found".
 * Here that sentinel is an explicit None, so it can never be mistaken for
 * (or overflow into) a transfer count.
 */
module Options {

  datatype Option<T> = None | Some(value: T)

  /** `min` over counts where None stands for "no candidate", i.e. infinity. */
  function Min(a: Option<nat>, b: Option<nat>): (r: Option<nat>)
    ensures r == a || r == b
    ensures r.Some? <==> a.Some? || b.Some?
    ensures a.Some? ==> r.Some? && r.value <= a.value
    ensures b.Some? ==> r.Some? && r.value <= b.value
  {
    match (a, b)
    case (None, _) => b
    case (_, None) => a
    case (Some(x), Some(y)) => if x <= y then a else b
  }

  /** One more transfer than a candidate, keeping "no candidate" as it is. */
  function Succ(a: Option<nat>): (r: Option<nat>)
    ensures r.Some? <==> a.Some?
    ensures r.Some? ==> r.value == a.value + 1
  {
    match a
    case None => None
    case Some(x) => Some(x + 1)
  }

  lemma {:induction false} MinSwap(a: Option<nat>, b: Option<nat>, c: Option<nat>)
    ensures Min(Min(a, b), c) == Min(a, Min(c, b))
  {
  }

  /** "No candidate" changes no minimum. */
  lemma {:induction false} MinNone(a: Option<nat>)
    ensures Min(a, None) == a
  {
  }
}
