/** Helpers shared by the whole model: an optional value, and a bounded
    search for the first index at which an oracle answers yes. */
module Common {

  datatype Option<+T> = None | Some(value: T)

  /** The first index j with from <= j < to at which p(j) holds, if any.
      Polling loops in the daemon ("is the process gone yet?", "is the
      interface there yet?") are specified with it. */
  function FirstWhere(p: nat -> bool, from: nat, to: nat): (r: Option<nat>)
    ensures r.Some? ==> from <= r.value < to && p(r.value)
    ensures r.Some? ==> forall j :: from <= j < r.value ==> !p(j)
    ensures r.None? ==> (forall j :: from <= j < to ==> !p(j))
    decreases (to as int) - (from as int)
  {
    if from >= to then None
    else if p(from) then Some(from)
    else FirstWhere(p, from + 1, to)
  }

  /** The converse: an index where p holds, with p failing everywhere
      before it in the range, is the one FirstWhere finds. */
  lemma {:induction false} FirstWhereIs(p: nat -> bool, from: nat, to: nat, i: nat)
    requires from <= i < to && p(i)
    requires forall j :: from <= j < i ==> !p(j)
    ensures FirstWhere(p, from, to) == Some(i)
    decreases i - from
  {
    if from < i {
      FirstWhereIs(p, from + 1, to, i);
    }
  }
}
