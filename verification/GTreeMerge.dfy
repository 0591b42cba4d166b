/**
 The boolean merge of two trees keyed by number (`g_tree_merge`). A tree is a
 map; the second tree gives up the nodes that the first one takes over.
 */
module GTreeMerge {
  import opened SortedSets

  datatype Condition = And | Or | Not

  /** The part of `a` whose keys are in `keys`. */
  function Within<V>(a: map<nat, V>, keys: set<nat>): map<nat, V> {
    map k | k in a && k in keys :: a[k]
  }

  /** What is left in the first tree. */
  function Merged<V>(a: map<nat, V>, b: map<nat, V>, condition: Condition): map<nat, V> {
    match condition
    case And => Within(a, b.Keys)
    case Or => a + (b - a.Keys)
    case Not => (a - b.Keys) + (b - a.Keys)
  }

  /** What is left in the second tree: `Or` and `Not` steal the keys `a` lacks. */
  function Leftover<V>(a: map<nat, V>, b: map<nat, V>, condition: Condition): map<nat, V> {
    if condition.And? then b else Within(b, a.Keys)
  }

  /** The keys of `a` that `b` lacks, in key order (`traverse_tree_merger`). */
  method CollectMissing<V>(a: map<nat, V>, b: map<nat, V>) returns (missing: seq<nat>)
    ensures Elements(missing) == a.Keys - b.Keys
    ensures StrictlyAscending(missing)
  {
    var keys := TreeKeys(a.Keys);
    missing := [];
    WholePrefix(keys);
    ghost var done := {};
    for i := 0 to |keys|
      invariant done == Elements(keys[..i])
      invariant Elements(missing) == done - b.Keys
      invariant StrictlyAscending(missing)
      invariant missing != [] && i < |keys| ==> missing[|missing| - 1] < keys[i]
    {
      PrefixGrows(keys, i);
      if keys[i] !in b {
        AppendLarger(missing, keys[i]);
        missing := missing + [keys[i]];
      }
      done := done + {keys[i]};
    }
  }

  method MergeAnd<V>(a: map<nat, V>, b: map<nat, V>) returns (left: map<nat, V>)
    ensures left == Merged(a, b, And)
    ensures forall k :: (k in left <==> k in a && k in b) && (k in left ==> left[k] == a[k])
  {
    left := a;
    var doomed := CollectMissing(a, b);
    WholePrefix(doomed);
    for i := 0 to |doomed|
      invariant left == a - Elements(doomed[..i])
    {
      PrefixGrows(doomed, i);
      left := left - {doomed[i]};
    }
  }

  /** `Or` after the keys in `done` have been moved. */
  function OrSoFar<V>(a: map<nat, V>, b: map<nat, V>, done: set<nat>): map<nat, V> {
    a + Within(b, done)
  }

  lemma OrStep<V>(a: map<nat, V>, b: map<nat, V>, done: set<nat>, key: nat)
    requires key in b && key !in done
    ensures key in b - done && (b - done)[key] == b[key]
    ensures OrSoFar(a, b, done)[key := b[key]] == OrSoFar(a, b, done + {key})
    ensures b - done - {key} == b - (done + {key})
  {
  }

  lemma OrDone<V>(a: map<nat, V>, b: map<nat, V>)
    ensures OrSoFar(a, b, {}) == a && b - {} == b
    ensures OrSoFar(a, b, b.Keys - a.Keys) == Merged(a, b, Or)
    ensures b - (b.Keys - a.Keys) == Leftover(a, b, Or)
  {
  }

  method MergeOr<V>(a: map<nat, V>, b: map<nat, V>) returns (left: map<nat, V>, right: map<nat, V>)
    ensures left == Merged(a, b, Or)
    ensures right == Leftover(a, b, Or)
    ensures forall k :: (k in left <==> k in a || k in b) && (k in left ==> left[k] == if k in a then a[k] else b[k])
    ensures forall k :: (k in right <==> k in a && k in b) && (k in right ==> right[k] == b[k])
  {
    left, right := a, b;
    OrDone(a, b);
    var moved := CollectMissing(b, a);
    WholePrefix(moved);
    ghost var done := {};
    for i := 0 to |moved|
      invariant done == Elements(moved[..i])
      invariant left == OrSoFar(a, b, done)
      invariant right == b - done
    {
      PrefixGrows(moved, i);
      var key := moved[i];
      OrStep(a, b, done, key);
      var value := right[key];
      right := right - {key};
      left := left[key := value];
      done := done + {key};
    }
  }

  /** `Not` after the keys in `done` have been handled. */
  function NotSoFar<V>(a: map<nat, V>, b: map<nat, V>, done: set<nat>): map<nat, V> {
    (a - done) + (Within(b, done) - a.Keys)
  }

  function NotRest<V>(a: map<nat, V>, b: map<nat, V>, done: set<nat>): map<nat, V> {
    b - (done - a.Keys)
  }

  lemma NotRemoves<V>(a: map<nat, V>, b: map<nat, V>, done: set<nat>, key: nat)
    requires key in b && key !in done && key in a
    ensures key in NotSoFar(a, b, done)
    ensures NotSoFar(a, b, done) - {key} == NotSoFar(a, b, done + {key})
    ensures NotRest(a, b, done) == NotRest(a, b, done + {key})
  {
  }

  lemma NotMoves<V>(a: map<nat, V>, b: map<nat, V>, done: set<nat>, key: nat)
    requires key in b && key !in done && key !in a
    ensures key !in NotSoFar(a, b, done)
    ensures key in NotRest(a, b, done) && NotRest(a, b, done)[key] == b[key]
    ensures NotSoFar(a, b, done)[key := b[key]] == NotSoFar(a, b, done + {key})
    ensures NotRest(a, b, done) - {key} == NotRest(a, b, done + {key})
  {
  }

  lemma NotDone<V>(a: map<nat, V>, b: map<nat, V>)
    ensures NotSoFar(a, b, {}) == a && NotRest(a, b, {}) == b
    ensures NotSoFar(a, b, b.Keys) == Merged(a, b, Not)
    ensures NotRest(a, b, b.Keys) == Leftover(a, b, Not)
  {
  }

  method MergeNot<V>(a: map<nat, V>, b: map<nat, V>) returns (left: map<nat, V>, right: map<nat, V>)
    ensures left == Merged(a, b, Not)
    ensures right == Leftover(a, b, Not)
    ensures forall k :: k in left <==> (k in a) != (k in b)
    ensures forall k :: k in left ==> left[k] == if k in a then a[k] else b[k]
    ensures forall k :: (k in right <==> k in a && k in b) && (k in right ==> right[k] == b[k])
  {
    left, right := a, b;
    NotDone(a, b);
    var keys := TreeKeys(b.Keys);
    WholePrefix(keys);
    ghost var done := {};
    for i := 0 to |keys|
      invariant done == Elements(keys[..i])
      invariant left == NotSoFar(a, b, done)
      invariant right == NotRest(a, b, done)
    {
      PrefixGrows(keys, i);
      var key := keys[i];
      left, right := NotOne(a, b, left, right, done, key);
      done := done + {key};
    }
  }

  method NotOne<V>(ghost a: map<nat, V>, ghost b: map<nat, V>,
                   left: map<nat, V>, right: map<nat, V>, ghost done: set<nat>, key: nat)
    returns (left': map<nat, V>, right': map<nat, V>)
    requires key in b && key !in done
    requires left == NotSoFar(a, b, done) && right == NotRest(a, b, done)
    ensures left' == NotSoFar(a, b, done + {key}) && right' == NotRest(a, b, done + {key})
  {
    if key in left {
      NotRemoves(a, b, done, key);
      return left - {key}, right;
    } else {
      NotMoves(a, b, done, key);
      return left[key := right[key]], right - {key};
    }
  }

  method Merge<V>(a: map<nat, V>, b: map<nat, V>, condition: Condition)
    returns (left: map<nat, V>, right: map<nat, V>)
    ensures left == Merged(a, b, condition)
    ensures right == Leftover(a, b, condition)
  {
    match condition {
      case And =>
        left := MergeAnd(a, b);
        right := b;
      case Or =>
        left, right := MergeOr(a, b);
      case Not =>
        left, right := MergeNot(a, b);
    }
  }

  /** No node is lost or duplicated by `Or`: each key of either tree ends in the first tree. */
  lemma OrKeepsEveryNode<V>(a: map<nat, V>, b: map<nat, V>)
    ensures Merged(a, b, Or).Keys == a.Keys + b.Keys
    ensures forall k :: k in a ==> Merged(a, b, Or)[k] == a[k]
    ensures forall k :: k in b && k !in a ==> Merged(a, b, Or)[k] == b[k]
    ensures Leftover(a, b, Or).Keys <= Merged(a, b, Or).Keys
  {
  }

  /** On a subtree of `a`, `Not` is set difference. */
  lemma NotOfSubset<V>(a: map<nat, V>, b: map<nat, V>)
    requires b.Keys <= a.Keys
    ensures Merged(a, b, Not) == a - b.Keys
  {
    assert b - a.Keys == map[];
  }
}
