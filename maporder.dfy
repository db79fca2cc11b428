/** Go leaves the iteration order of a map unspecified. Where face.go ranges over a map, the
    model takes the order as a sequence that lists every key exactly once. */
module MapOrder {

  predicate NoDuplicates<T(==)>(s: seq<T>) {
    forall i, j :: 0 <= i < j < |s| ==> s[i] != s[j]
  }

  predicate IsEnumeration<T(==)>(order: seq<T>, keys: set<T>) {
    && (forall i :: 0 <= i < |order| ==> order[i] in keys)
    && (forall k :: k in keys ==> k in order)
    && NoDuplicates(order)
  }

  /** Some order in which a range loop may visit the keys. */
  ghost function AnyEnumeration<T>(keys: set<T>): (order: seq<T>)
    ensures IsEnumeration(order, keys)
    decreases |keys|
  {
    if keys == {} then []
    else
      var k :| k in keys;
      var rest := AnyEnumeration(keys - {k});
      assert forall j :: j in keys - {k} ==> j in rest;
      [k] + rest
  }

  /** The runtime's choice of order for `for k := range m`. */
  method Enumerate<T(==)>(keys: set<T>) returns (order: seq<T>)
    ensures IsEnumeration(order, keys)
  {
    order := [];
    var rest := keys;
    while rest != {}
      invariant rest <= keys
      invariant forall i :: 0 <= i < |order| ==> order[i] in keys && order[i] !in rest
      invariant forall k :: k in keys ==> k in rest || k in order
      invariant NoDuplicates(order)
      decreases |rest|
    {
      var k :| k in rest;
      order := order + [k];
      rest := rest - {k};
    }
  }
}
