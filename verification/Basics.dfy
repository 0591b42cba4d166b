/**
 Small notions shared by several parts of the model.
 */
module Basics {

  datatype Option<T> = None | Some(value: T)

  function Min(a: nat, b: nat): nat {
    if a <= b then a else b
  }

  function Max(a: nat, b: nat): nat {
    if a >= b then a else b
  }

  lemma Assoc<T>(a: seq<T>, b: seq<T>, c: seq<T>)
    ensures (a + b) + c == a + (b + c)
  {
  }

  /** Two maps have the same entry, or none, under a key. */
  predicate SameEntry<V(==)>(a: map<nat, V>, b: map<nat, V>, key: nat) {
    (key in a <==> key in b) && (key in a ==> a[key] == b[key])
  }

  lemma SameEntries<V>(a: map<nat, V>, b: map<nat, V>)
    requires forall key :: SameEntry(a, b, key)
    ensures a == b
  {
    assert forall key :: key in a ==> SameEntry(a, b, key);
    assert forall key :: key in b ==> SameEntry(a, b, key);
  }
}
