/**
 What the three passes compute for every search tree, and when that is its Boolean
 meaning.
 */
module SearchMeaning {
  import opened SearchSpec
  import opened SearchPasses
  import opened SearchMerging

  // The top level.

  ghost predicate OthersMatch(w: World, ns: Nodes, u: nat) {
    ns.Cons? ==> (!IsSet(ns.head) ==> Computed(w, ns.head, u) && Residue(w, ns.head, u)) && OthersMatch(w, ns.tail, u)
  }

  lemma {:induction false} SplitMeaning(w: World, ns: Nodes, u: nat)
    ensures ComputedAll(w, ns, u) && ResidueAll(w, ns, u) <==> SetsMatch(w, ns, u) && OthersMatch(w, ns, u)
  {
    if ns.Cons? {
      SplitMeaning(w, ns.tail, u);
    }
  }

  ghost function OthersOf(w: World, tree: Tree, ns: Nodes): Tree {
    map u | u in tree && OthersMatch(w, ns, u) :: tree[u]
  }

  lemma {:induction false} VisitMergeTop(w: World, p: set<nat>, ns: Nodes, lo: nat, store: Store, tree: Tree)
    requires SoundAll(w, ns) && NumberedAll(ns, lo) && TopReady(w, p, store, ns) && tree.Keys <= p
    ensures VisitMergeAll(ns, Merging(store, tree)).tree == OthersOf(w, tree, ns)
  {
    if ns.Nil? {
      assert OthersOf(w, tree, ns) == tree;
    } else {
      var n, next := ns.head, lo + Size(ns.head);
      var here := VisitMerge(n, Merging(store, tree));
      if !IsSet(n) {
        VisitReady(w, p, n, lo, store, tree);
      }
      TopReadyFrame(w, p, store, here.store, ns.tail, next);
      VisitMergeTop(w, p, ns.tail, next, here.store, here.tree);
      OthersStep(w, tree, ns);
    }
  }

  lemma OthersStep(w: World, tree: Tree, ns: Nodes)
    requires ns.Cons?
    ensures var here := if IsSet(ns.head) then tree else Cut(tree, Keeps(w, ns.head) * Rest(w, ns.head));
            OthersOf(w, here, ns.tail) == OthersOf(w, tree, ns)
  {
  }

  // The results.

  ghost predicate Runs(w: World, s: Search) {
    s.key.SetKey? && ValidKey(w, s.key) && SoundAll(w, s.kids) && s.id == 0 && NumberedAll(s.kids, 1)
  }

  /** A message of the mailbox in the set of the root. */
  ghost predicate InScope(w: World, s: Search, u: nat) {
    u in w.view.ids && Matches(w, s.key, u)
  }

  /** The messages that satisfy the whole search, with their MSNs. */
  ghost function Answer(w: World, s: Search): Tree {
    map u | u in w.view.ids && InScope(w, s, u) && MeansAll(w, s.kids, u) :: w.view.ids[u]
  }

  ghost function ComputedAnswer(w: World, s: Search): Tree {
    map u | u in w.view.ids && InScope(w, s, u) && ComputedAll(w, s.kids, u) && ResidueAll(w, s.kids, u) ::
      w.view.ids[u]
  }

  /**
   For every search tree the passes leave exactly the messages that are computed and
   satisfy the residue, each with its own MSN, whether or not queries are narrowed.
   */
  lemma SearchComputes(w: World, s: Search, narrow: bool)
    requires Runs(w, s)
    ensures Result(w, s, narrow) == ComputedAnswer(w, s)
  {
    var root := Leaf(s.id, s.key);
    var start := Merging(map[], w.view.ids);
    PrescanOne(w, root, start);
    var first := PrescanLeaf(w, s.id, s.key, start);
    PrescanTakesSets(w, s.kids, 1, first);
    var scanned := PrescanAll(w, s.kids, first);
    VisitSearchTop(w, s.kids, 1, scanned.store, scanned.tree, narrow);
    var searched := VisitSearchAll(w, s.kids, scanned.store, scanned.tree, narrow);
    VisitMergeTop(w, scanned.tree.Keys, s.kids, 1, searched, scanned.tree);
    TopMeaning(w, s, first.tree);
  }

  lemma TopMeaning(w: World, s: Search, first: Tree)
    requires first == map u | u in w.view.ids && Matches(w, s.key, u) :: w.view.ids[u]
    ensures OthersOf(w, SetsOf(w, first, s.kids), s.kids) == ComputedAnswer(w, s)
  {
    forall u
      ensures ComputedAll(w, s.kids, u) && ResidueAll(w, s.kids, u) <==>
              SetsMatch(w, s.kids, u) && OthersMatch(w, s.kids, u)
    {
      SplitMeaning(w, s.kids, u);
    }
  }

  /** Narrowing the queries is invisible, on every tree. */
  lemma NarrowingInvisible(w: World, s: Search)
    requires Runs(w, s)
    ensures Result(w, s, true) == Result(w, s, false)
  {
    SearchComputes(w, s, true);
    SearchComputes(w, s, false);
  }

  /** The search is answered correctly if and only if computation and meaning agree on the set. */
  lemma RightExactly(w: World, s: Search, narrow: bool)
    requires Runs(w, s)
    ensures Result(w, s, narrow) == Answer(w, s) <==>
            forall u :: InScope(w, s, u) ==>
              (ComputedAll(w, s.kids, u) && ResidueAll(w, s.kids, u) <==> MeansAll(w, s.kids, u))
  {
    SearchComputes(w, s, narrow);
    if ComputedAnswer(w, s) == Answer(w, s) {
      forall u | InScope(w, s, u)
        ensures ComputedAll(w, s.kids, u) && ResidueAll(w, s.kids, u) <==> MeansAll(w, s.kids, u)
      {
        assert u in ComputedAnswer(w, s) <==> u in Answer(w, s);
      }
    }
  }

  // Parenthesised operands.

  lemma {:induction false} FragmentMeans(w: World, n: Node, u: nat)
    requires InFragment(n)
    ensures Computed(w, n, u) <==> Means(w, n, u)
    ensures Residue(w, n, u) && (n.All? || n.Leaf? ==> OperandResidue(w, n, u))
    decreases n
  {
    match n
    case Leaf(_, _) =>
    case All(_, kids) => AllFragmentMeans(w, kids, u);
    case Not_(_, kids) => AllFragmentMeans(w, kids, u);
    case Or_(_, a, b) =>
      FragmentMeans(w, a, u);
      FragmentMeans(w, b, u);
  }

  lemma {:induction false} AllFragmentMeans(w: World, ns: Nodes, u: nat)
    requires AllInFragment(ns)
    ensures (ComputedAll(w, ns, u) <==> MeansAll(w, ns, u)) && ResidueAll(w, ns, u)
    decreases ns
  {
    if ns.Cons? {
      FragmentMeans(w, ns.head, u);
      AllFragmentMeans(w, ns.tail, u);
    }
  }

  /**
   When OR operands are leaves or parenthesised groups, the passes leave exactly the
   messages that satisfy the Boolean formula, each with its own MSN.
   */
  lemma SearchAnswers(w: World, s: Search, narrow: bool)
    requires Runs(w, s) && AllInFragment(s.kids)
    ensures Result(w, s, narrow) == Answer(w, s)
  {
    forall u
      ensures ComputedAll(w, s.kids, u) && ResidueAll(w, s.kids, u) <==> MeansAll(w, s.kids, u)
    {
      AllFragmentMeans(w, s.kids, u);
    }
    RightExactly(w, s, narrow);
  }

  // Other operands.

  /** A NOT or OR whose own keys are in the fragment, or an operand in the fragment. */
  predicate SimpleOperand(x: Node) {
    if x.Or_? then InFragment(x.a) && InFragment(x.b) else InFragment(x)
  }

  /** A key in the fragment, or an OR of simple operands. */
  predicate FlatKey(n: Node) {
    InFragment(n) || (n.Or_? && SimpleOperand(n.a) && SimpleOperand(n.b))
  }

  predicate FlatKeys(ns: Nodes) {
    ns.Cons? ==> FlatKey(ns.head) && FlatKeys(ns.tail)
  }

  /** What an OR takes from an operand: nothing, if that is a NOT or OR. */
  ghost predicate Taken(w: World, x: Node, u: nat) {
    (x.All? || x.Leaf?) && Means(w, x, u)
  }

  /** What the keys of a NOT or OR operand require of the whole result. */
  ghost predicate Required(w: World, x: Node, u: nat) {
    match x
    case Leaf(_, _) => true
    case All(_, _) => true
    case Not_(_, kids) => MeansAll(w, kids, u)
    case Or_(_, a, b) => Means(w, a, u) && Means(w, b, u)
  }

  /** What is asked of a message instead of the meaning of a flat key. */
  ghost predicate Asked(w: World, n: Node, u: nat) {
    if n.Or_?
    then (Taken(w, n.a, u) || Taken(w, n.b, u)) && Required(w, n.a, u) && Required(w, n.b, u)
    else Means(w, n, u)
  }

  ghost predicate AskedAll(w: World, ns: Nodes, u: nat) {
    ns.Cons? ==> Asked(w, ns.head, u) && AskedAll(w, ns.tail, u)
  }

  lemma OperandAsks(w: World, x: Node, u: nat)
    requires SimpleOperand(x)
    ensures OperandResidue(w, x, u) <==> Required(w, x, u)
    ensures (x.All? || x.Leaf?) && Computed(w, x, u) <==> Taken(w, x, u)
  {
    match x
    case Leaf(_, _) =>
    case All(_, _) => FragmentMeans(w, x, u);
    case Not_(_, kids) => AllFragmentMeans(w, kids, u);
    case Or_(_, a, b) =>
      FragmentMeans(w, a, u);
      FragmentMeans(w, b, u);
  }

  lemma KeyAsks(w: World, n: Node, u: nat)
    requires FlatKey(n)
    ensures Computed(w, n, u) && Residue(w, n, u) <==> Asked(w, n, u)
    ensures Asked(w, n, u) ==> Means(w, n, u)
    ensures InFragment(n) ==> (Asked(w, n, u) <==> Means(w, n, u))
  {
    if n.Or_? {
      OperandAsks(w, n.a, u);
      OperandAsks(w, n.b, u);
    } else {
      FragmentMeans(w, n, u);
    }
  }

  lemma {:induction false} KeysAsk(w: World, ns: Nodes, u: nat)
    requires FlatKeys(ns)
    ensures ComputedAll(w, ns, u) && ResidueAll(w, ns, u) <==> AskedAll(w, ns, u)
    ensures AskedAll(w, ns, u) ==> MeansAll(w, ns, u)
  {
    if ns.Cons? {
      KeyAsks(w, ns.head, u);
      KeysAsk(w, ns.tail, u);
    }
  }

  /**
   With any number of such keys, a search is answered correctly if and only if every
   message in scope that it means also satisfies what is asked.
   */
  lemma FlatExactly(w: World, s: Search, narrow: bool)
    requires Runs(w, s) && FlatKeys(s.kids)
    ensures Result(w, s, narrow) == Answer(w, s) <==>
            forall u :: InScope(w, s, u) && MeansAll(w, s.kids, u) ==> AskedAll(w, s.kids, u)
  {
    RightExactly(w, s, narrow);
    forall u
      ensures (ComputedAll(w, s.kids, u) && ResidueAll(w, s.kids, u) <==> MeansAll(w, s.kids, u)) <==>
              (MeansAll(w, s.kids, u) ==> AskedAll(w, s.kids, u))
    {
      KeysAsk(w, s.kids, u);
    }
  }

  // One such key at any position.

  function Join(before: Nodes, after: Nodes): Nodes {
    if before.Nil? then after else Cons(before.head, Join(before.tail, after))
  }

  lemma {:induction false} JoinKeys(w: World, before: Nodes, n: Node, after: Nodes, u: nat)
    requires AllInFragment(before) && FlatKey(n) && AllInFragment(after)
    ensures var all := Join(before, Cons(n, after));
            && FlatKeys(all)
            && (MeansAll(w, all, u) <==> MeansAll(w, before, u) && Means(w, n, u) && MeansAll(w, after, u))
            && (AskedAll(w, all, u) <==> MeansAll(w, before, u) && Asked(w, n, u) && MeansAll(w, after, u))
  {
    if before.Nil? {
      FragmentAsks(w, after, u);
    } else {
      KeyAsks(w, before.head, u);
      JoinKeys(w, before.tail, n, after, u);
    }
  }

  lemma {:induction false} FragmentAsks(w: World, ns: Nodes, u: nat)
    requires AllInFragment(ns)
    ensures FlatKeys(ns) && (AskedAll(w, ns, u) <==> MeansAll(w, ns, u))
  {
    if ns.Cons? {
      KeyAsks(w, ns.head, u);
      FragmentAsks(w, ns.tail, u);
    }
  }

  /** A message in scope that satisfies the other keys. */
  ghost predicate Candidate(w: World, s: Search, before: Nodes, after: Nodes, u: nat) {
    InScope(w, s, u) && MeansAll(w, before, u) && MeansAll(w, after, u)
  }

  lemma OneKeyExactly(w: World, s: Search, before: Nodes, n: Node, after: Nodes, narrow: bool)
    requires Runs(w, s) && s.kids == Join(before, Cons(n, after))
    requires AllInFragment(before) && FlatKey(n) && AllInFragment(after)
    ensures Result(w, s, narrow) == Answer(w, s) <==>
            forall u :: Candidate(w, s, before, after, u) && Means(w, n, u) ==> Asked(w, n, u)
  {
    JoinKeys(w, before, n, after, 0);
    FlatExactly(w, s, narrow);
    forall u
      ensures (InScope(w, s, u) && MeansAll(w, s.kids, u) ==> AskedAll(w, s.kids, u)) <==>
              (Candidate(w, s, before, after, u) && Means(w, n, u) ==> Asked(w, n, u))
    {
      JoinKeys(w, before, n, after, u);
    }
  }

  predicate PlainOperand(x: Node) {
    (x.All? || x.Leaf?) && InFragment(x)
  }

  /** `OR NOT k other`, in either order. */
  predicate IsOrNot(n: Node, k: Nodes, other: Node) {
    && n.Or_? && PlainOperand(other) && AllInFragment(k)
    && ((n.a.Not_? && n.a.kids == k && n.b == other) || (n.b.Not_? && n.b.kids == k && n.a == other))
  }

  lemma OrNotAsks(w: World, n: Node, k: Nodes, other: Node, u: nat)
    requires IsOrNot(n, k, other)
    ensures Means(w, n, u) <==> !MeansAll(w, k, u) || Means(w, other, u)
    ensures Asked(w, n, u) <==> MeansAll(w, k, u) && Means(w, other, u)
  {
    if n.a.Not_? && n.a.kids == k && n.b == other {
      assert Means(w, n.a, u) <==> !MeansAll(w, k, u);
    } else {
      assert Means(w, n.b, u) <==> !MeansAll(w, k, u);
    }
  }

  /**
   `OR NOT k other` among any other keys is computed as "k and other". The answer is
   right exactly when k holds of every message in scope that satisfies the other keys.
   */
  lemma OrNotExactly(w: World, s: Search, before: Nodes, n: Node, after: Nodes, k: Nodes, other: Node, narrow: bool)
    requires Runs(w, s) && s.kids == Join(before, Cons(n, after)) && AllInFragment(before) && AllInFragment(after)
    requires IsOrNot(n, k, other)
    ensures Result(w, s, narrow) == Answer(w, s) <==>
            forall u :: Candidate(w, s, before, after, u) ==> MeansAll(w, k, u)
  {
    OneKeyExactly(w, s, before, n, after, narrow);
    forall u
      ensures (Means(w, n, u) ==> Asked(w, n, u)) <==> MeansAll(w, k, u)
    {
      OrNotAsks(w, n, k, other, u);
    }
  }

  /** `OR OR a b c`, in either order. */
  predicate IsOrOr(n: Node, a: Node, b: Node, c: Node) {
    && n.Or_? && InFragment(a) && InFragment(b) && PlainOperand(c)
    && ((n.a.Or_? && n.a.a == a && n.a.b == b && n.b == c) || (n.b.Or_? && n.b.a == a && n.b.b == b && n.a == c))
  }

  lemma OrOrAsks(w: World, n: Node, a: Node, b: Node, c: Node, u: nat)
    requires IsOrOr(n, a, b, c)
    ensures Means(w, n, u) <==> AnyOf(w, a, b, c, u)
    ensures Asked(w, n, u) <==> AllOf(w, a, b, c, u)
  {
    if n.a.Or_? && n.a.a == a && n.a.b == b && n.b == c {
      assert Means(w, n.a, u) <==> Means(w, a, u) || Means(w, b, u);
    } else {
      assert Means(w, n.b, u) <==> Means(w, a, u) || Means(w, b, u);
    }
  }

  ghost predicate AnyOf(w: World, a: Node, b: Node, c: Node, u: nat) {
    Means(w, a, u) || Means(w, b, u) || Means(w, c, u)
  }

  ghost predicate AllOf(w: World, a: Node, b: Node, c: Node, u: nat) {
    Means(w, a, u) && Means(w, b, u) && Means(w, c, u)
  }

  /**
   `OR OR a b c` among any other keys is computed as "a and b and c". The answer is
   right exactly when every message in scope that satisfies the other keys and one of
   the three satisfies all three.
   */
  lemma OrOrExactly(w: World, s: Search, before: Nodes, n: Node, after: Nodes, a: Node, b: Node, c: Node, narrow: bool)
    requires Runs(w, s) && s.kids == Join(before, Cons(n, after)) && AllInFragment(before) && AllInFragment(after)
    requires IsOrOr(n, a, b, c)
    ensures Result(w, s, narrow) == Answer(w, s) <==>
            forall u :: Candidate(w, s, before, after, u) && AnyOf(w, a, b, c, u) ==> AllOf(w, a, b, c, u)
  {
    OneKeyExactly(w, s, before, n, after, narrow);
    forall u
      ensures Means(w, n, u) <==> AnyOf(w, a, b, c, u)
      ensures Asked(w, n, u) <==> AllOf(w, a, b, c, u)
    {
      OrOrAsks(w, n, a, b, c, u);
    }
  }
}
