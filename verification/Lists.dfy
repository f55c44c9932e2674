/** Lists without repetitions, and the orders in which a map may be iterated. */
module Lists {

  predicate Distinct<T(==)>(list: seq<T>) {
    forall i, j :: 0 <= i < j < |list| ==> list[i] != list[j]
  }

  /** One of the orders in which iterating over a map with these keys may visit them. */
  ghost predicate IsOrder<T(!new)>(order: seq<T>, keys: set<T>) {
    && Distinct(order)
    && forall k :: k in order <==> k in keys
  }

  /** An iteration with `rest` still to come visits one more key. */
  lemma {:induction false} VisitNext<T(!new)>(order: seq<T>, keys: set<T>, rest: set<T>, k: T)
    requires k in rest && rest <= keys && IsOrder(order, keys - rest)
    ensures IsOrder(order + [k], keys - (rest - {k}))
  {
  }

  lemma {:induction false} Enumerate<T(!new)>(keys: set<T>) returns (order: seq<T>)
    ensures IsOrder(order, keys)
  {
    order := [];
    if keys != {} {
      var k :| k in keys;
      order := Enumerate(keys - {k});
      order := [k] + order;
    }
  }
}
