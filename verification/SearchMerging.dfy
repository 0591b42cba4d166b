/**
 The merge pass on any tree. An OR takes only leaves and parenthesised groups as
 operands; any other operand counts as empty, and what is below it is required of the
 whole result when the traversal reaches it.
 */
module SearchMerging {
  import opened GTreeMerge
  import opened SearchSpec
  import opened SearchPasses

  // What is computed, message by message.

  /** Merging the node keeps the message. */
  ghost predicate Computed(w: World, n: Node, u: nat) {
    match n
    case Leaf(_, key) => Matches(w, key, u)
    case All(_, kids) => ComputedAll(w, kids, u)
    case Not_(_, kids) => !ComputedAll(w, kids, u)
    case Or_(_, a, b) =>
      ((a.All? || a.Leaf?) && Computed(w, a, u)) || ((b.All? || b.Leaf?) && Computed(w, b, u))
  }

  ghost predicate ComputedAll(w: World, ns: Nodes, u: nat) {
    ns.Cons? ==> Computed(w, ns.head, u) && ComputedAll(w, ns.tail, u)
  }

  /** What the traversal still requires below a node that has been merged. */
  ghost predicate Residue(w: World, n: Node, u: nat)
    decreases n, 1
  {
    match n
    case Leaf(_, _) => true
    case All(_, kids) => ResidueAll(w, kids, u)
    case Not_(_, kids) => ResidueAll(w, kids, u)
    case Or_(_, a, b) => OperandResidue(w, a, u) && OperandResidue(w, b, u)
  }

  ghost predicate ResidueAll(w: World, ns: Nodes, u: nat)
    decreases ns, 1
  {
    ns.Cons? ==> Residue(w, ns.head, u) && ResidueAll(w, ns.tail, u)
  }

  /** The same below an operand: a NOT or OR there was never evaluated. */
  ghost predicate OperandResidue(w: World, x: Node, u: nat)
    decreases x, 0
  {
    match x
    case Leaf(_, _) => true
    case All(_, kids) => ResidueAll(w, kids, u)
    case Not_(_, kids) => ComputedAll(w, kids, u) && ResidueAll(w, kids, u)
    case Or_(_, a, b) => Computed(w, a, u) && Residue(w, a, u) && Computed(w, b, u) && Residue(w, b, u)
  }

  /** The messages of a tree that belong to a set. */
  ghost function Cut(tree: Tree, keep: iset<nat>): Tree {
    map u | u in tree && u in keep :: tree[u]
  }

  lemma CutTwice(tree: Tree, a: iset<nat>, b: iset<nat>)
    ensures Cut(Cut(tree, a), b) == Cut(tree, a * b)
  {
  }

  ghost function Keeps(w: World, n: Node): iset<nat> {
    iset u: nat | Computed(w, n, u)
  }

  ghost function KeepsAll(w: World, ns: Nodes): iset<nat> {
    iset u: nat | ComputedAll(w, ns, u)
  }

  ghost function Rest(w: World, n: Node): iset<nat> {
    iset u: nat | Residue(w, n, u)
  }

  ghost function RestAll(w: World, ns: Nodes): iset<nat> {
    iset u: nat | ResidueAll(w, ns, u)
  }

  ghost function OperandRest(w: World, x: Node): iset<nat> {
    iset u: nat | OperandResidue(w, x, u)
  }

  /** The node has been merged; below an operand that was not evaluated all is still ready. */
  ghost predicate Left(w: World, p: set<nat>, store: Store, n: Node)
    decreases n, 1
  {
    match n
    case Leaf(_, key) => key.SortKey? || At(store, n.id).merged
    case All(_, kids) => LeftAll(w, p, store, kids)
    case Not_(_, kids) => At(store, n.id).merged && LeftAll(w, p, store, kids)
    case Or_(_, a, b) => At(store, n.id).merged && LeftOperand(w, p, store, a) && LeftOperand(w, p, store, b)
  }

  ghost predicate LeftAll(w: World, p: set<nat>, store: Store, ns: Nodes)
    decreases ns, 1
  {
    ns.Cons? ==> Left(w, p, store, ns.head) && LeftAll(w, p, store, ns.tail)
  }

  ghost predicate LeftOperand(w: World, p: set<nat>, store: Store, x: Node)
    decreases x, 0
  {
    At(store, x.id).merged &&
    match x
    case Leaf(_, _) => true
    case All(_, kids) => LeftAll(w, p, store, kids)
    case Not_(_, kids) => ReadyAll(w, p, store, kids)
    case Or_(_, a, b) => Ready(w, p, store, a) && Ready(w, p, store, b)
  }

  lemma {:induction false} LeftFrame(w: World, p: set<nat>, s: Store, t: Store, n: Node, lo: nat)
    requires Numbered(n, lo) && SameOn(s, t, lo, lo + Size(n)) && Left(w, p, s, n)
    ensures Left(w, p, t, n)
    decreases n, 1
  {
    match n
    case Leaf(_, _) =>
    case All(_, kids) => LeftAllFrame(w, p, s, t, kids, lo + 1);
    case Not_(_, kids) => LeftAllFrame(w, p, s, t, kids, lo + 1);
    case Or_(_, a, b) =>
      LeftOperandFrame(w, p, s, t, a, lo + 1);
      LeftOperandFrame(w, p, s, t, b, lo + 1 + Size(a));
  }

  lemma {:induction false} LeftAllFrame(w: World, p: set<nat>, s: Store, t: Store, ns: Nodes, lo: nat)
    requires NumberedAll(ns, lo) && SameOn(s, t, lo, lo + SizeAll(ns)) && LeftAll(w, p, s, ns)
    ensures LeftAll(w, p, t, ns)
    decreases ns, 1
  {
    if ns.Cons? {
      LeftFrame(w, p, s, t, ns.head, lo);
      LeftAllFrame(w, p, s, t, ns.tail, lo + Size(ns.head));
    }
  }

  lemma {:induction false} LeftOperandFrame(w: World, p: set<nat>, s: Store, t: Store, x: Node, lo: nat)
    requires Numbered(x, lo) && SameOn(s, t, lo, lo + Size(x)) && LeftOperand(w, p, s, x)
    ensures LeftOperand(w, p, t, x)
    decreases x, 0
  {
    match x
    case Leaf(_, _) =>
    case All(_, kids) => LeftAllFrame(w, p, s, t, kids, lo + 1);
    case Not_(_, kids) => ReadyAllFrame(w, p, s, t, kids, lo + 1);
    case Or_(_, a, b) =>
      ReadyFrame(w, p, s, t, a, lo + 1);
      ReadyFrame(w, p, s, t, b, lo + 1 + Size(a));
  }

  // Merging.

  /** What merging a subtree does to the tree and to the marks. */
  ghost predicate Merges(w: World, p: set<nat>, n: Node, lo: nat, store: Store, tree: Tree, m: Merging) {
    m.tree == Cut(tree, Keeps(w, n)) && Left(w, p, m.store, n) && SameOutside(store, m.store, lo, lo + Size(n))
  }

  ghost predicate MergesAll(w: World, p: set<nat>, ns: Nodes, lo: nat, store: Store, tree: Tree, m: Merging) {
    && m.tree == Cut(tree, KeepsAll(w, ns)) && LeftAll(w, p, m.store, ns)
    && SameOutside(store, m.store, lo, lo + SizeAll(ns))
  }

  lemma {:induction false} MergeMeans(w: World, p: set<nat>, n: Node, lo: nat, store: Store, tree: Tree)
    requires Sound(w, n) && Numbered(n, lo) && Ready(w, p, store, n) && tree.Keys <= p
    ensures Merges(w, p, n, lo, store, tree, MergeNode(n, store, tree))
    decreases n, 1
  {
    match n
    case Leaf(id, key) =>
      if key.SortKey? {
        assert Cut(tree, Keeps(w, n)) == tree;
      }
    case All(_, kids) =>
      MergeAllMeans(w, p, kids, lo + 1, store, tree);
      assert Keeps(w, n) == KeepsAll(w, kids);
    case Not_(_, _) => NotMeans(w, p, n, lo, store, tree);
    case Or_(_, _, _) => OrMeans(w, p, n, lo, store, tree);
  }

  lemma {:induction false} MergeAllMeans(w: World, p: set<nat>, ns: Nodes, lo: nat, store: Store, tree: Tree)
    requires SoundAll(w, ns) && NumberedAll(ns, lo) && ReadyAll(w, p, store, ns) && tree.Keys <= p
    ensures MergesAll(w, p, ns, lo, store, tree, MergeAll(ns, store, tree))
    decreases ns, 1
  {
    if ns.Nil? {
      assert Cut(tree, KeepsAll(w, ns)) == tree;
    } else {
      var next := lo + Size(ns.head);
      MergeMeans(w, p, ns.head, lo, store, tree);
      var first := MergeNode(ns.head, store, tree);
      ReadyAllFrame(w, p, store, first.store, ns.tail, next);
      MergeAllMeans(w, p, ns.tail, next, first.store, first.tree);
      LeftFrame(w, p, first.store, MergeAll(ns.tail, first.store, first.tree).store, ns.head, lo);
      KeepsBoth(w, ns);
      CutTwice(tree, Keeps(w, ns.head), KeepsAll(w, ns.tail));
    }
  }

  lemma KeepsBoth(w: World, ns: Nodes)
    requires ns.Cons?
    ensures KeepsAll(w, ns) == Keeps(w, ns.head) * KeepsAll(w, ns.tail)
    ensures RestAll(w, ns) == Rest(w, ns.head) * RestAll(w, ns.tail)
  {
  }

  lemma {:induction false} NotMeans(w: World, p: set<nat>, n: Node, lo: nat, store: Store, tree: Tree)
    requires n.Not_? && Sound(w, n) && Numbered(n, lo) && Ready(w, p, store, n) && tree.Keys <= p
    ensures Merges(w, p, n, lo, store, tree, MergeNode(n, store, tree))
    decreases n, 0
  {
    assert map[] + tree == tree;
    MergeAllMeans(w, p, n.kids, lo + 1, store, tree);
    var inner := MergeAll(n.kids, store, tree);
    LeftAllFrame(w, p, inner.store, Closed(n.id, inner.store), n.kids, lo + 1);
    Complement(w, tree, n);
  }

  lemma Complement(w: World, tree: Tree, n: Node)
    requires n.Not_?
    ensures Merged(tree, Cut(tree, KeepsAll(w, n.kids)), Not) == Cut(tree, Keeps(w, n))
  {
    NotOfSubset(tree, Cut(tree, KeepsAll(w, n.kids)));
  }

  /** An operand's tree selects the right messages out of `tree`: none, if it is a NOT or OR. */
  ghost predicate Selects(w: World, x: Node, operand: Tree, tree: Tree) {
    forall u :: u in tree ==> (u in operand <==> (x.All? || x.Leaf?) && Computed(w, x, u))
  }

  /** The operand's marks before it is closed. */
  ghost predicate OperandDone(w: World, p: set<nat>, store: Store, x: Node) {
    match x
    case Leaf(_, _) => true
    case All(_, kids) => LeftAll(w, p, store, kids)
    case Not_(_, kids) => ReadyAll(w, p, store, kids)
    case Or_(_, a, b) => Ready(w, p, store, a) && Ready(w, p, store, b)
  }

  lemma {:induction false} OperandMeans(w: World, p: set<nat>, x: Node, lo: nat, store: Store, tree: Tree)
    requires !(x.Leaf? && x.key.SortKey?)
    requires Sound(w, x) && Numbered(x, lo) && Ready(w, p, store, x) && tree.Keys <= p
    ensures var r := OperandTree(x, store, tree);
            && Selects(w, x, r.tree, tree) && OperandDone(w, p, r.store, x)
            && SameOutside(store, r.store, lo + 1, lo + Size(x))
    decreases x, 0
  {
    if x.All? {
      assert map[] + tree == tree;
      MergeAllMeans(w, p, x.kids, lo + 1, store, tree);
    }
  }

  lemma EitherMeans(w: World, n: Node, tree: Tree, x: Tree, y: Tree)
    requires n.Or_? && Selects(w, n.a, x, tree) && Selects(w, n.b, y, tree)
    ensures Merged(tree, Merged(map[], Merged(x, y, Or), Or), And) == Cut(tree, Keeps(w, n))
  {
  }

  lemma OperandLeft(w: World, p: set<nat>, x: Node, lo: nat, s: Store, t: Store)
    requires Numbered(x, lo) && OperandDone(w, p, s, x)
    requires SameOn(s, t, lo + 1, lo + Size(x)) && At(t, x.id).merged
    ensures LeftOperand(w, p, t, x)
  {
    match x
    case Leaf(_, _) =>
    case All(_, kids) => LeftAllFrame(w, p, s, t, kids, lo + 1);
    case Not_(_, kids) => ReadyAllFrame(w, p, s, t, kids, lo + 1);
    case Or_(_, a, b) =>
      ReadyFrame(w, p, s, t, a, lo + 1);
      ReadyFrame(w, p, s, t, b, lo + 1 + Size(a));
  }

  lemma {:induction false} OrMeans(w: World, p: set<nat>, n: Node, lo: nat, store: Store, tree: Tree)
    requires n.Or_? && Sound(w, n) && Numbered(n, lo) && Ready(w, p, store, n) && tree.Keys <= p
    ensures Merges(w, p, n, lo, store, tree, MergeNode(n, store, tree))
    decreases n, 0
  {
    var a, b := n.a, n.b;
    var next := lo + 1 + Size(a);
    OperandMeans(w, p, a, lo + 1, store, tree);
    var x := OperandTree(a, store, tree);
    ReadyFrame(w, p, store, x.store, b, next);
    OperandMeans(w, p, b, next, x.store, tree);
    var y := OperandTree(b, x.store, tree);
    EitherMeans(w, n, tree, x.tree, y.tree);
    OrMarks(w, p, n, lo, x.store, y.store);
  }

  lemma OrMarks(w: World, p: set<nat>, n: Node, lo: nat, s: Store, t: Store)
    requires n.Or_? && Numbered(n, lo) && OperandDone(w, p, s, n.a) && OperandDone(w, p, t, n.b)
    requires var next := lo + 1 + Size(n.a); SameOutside(s, t, next + 1, next + Size(n.b))
    ensures var end := Closed(n.id, Closed(n.a.id, Closed(n.b.id, t)));
            Left(w, p, end, n) && SameOutside(t, end, lo, lo + Size(n))
  {
    var end := Closed(n.id, Closed(n.a.id, Closed(n.b.id, t)));
    OperandLeft(w, p, n.a, lo + 1, s, end);
    OperandLeft(w, p, n.b, lo + 1 + Size(n.a), t, end);
  }

  /** Merging a node again changes neither marks nor result. */
  lemma {:induction false} RevisitMerge(w: World, p: set<nat>, n: Node, store: Store, tree: Tree)
    requires Left(w, p, store, n)
    ensures MergeNode(n, store, tree) == Merging(store, tree)
    decreases n, 1
  {
    if n.All? {
      RevisitMergeAll(w, p, n.kids, store, tree);
    }
  }

  lemma {:induction false} RevisitMergeAll(w: World, p: set<nat>, ns: Nodes, store: Store, tree: Tree)
    requires LeftAll(w, p, store, ns)
    ensures MergeAll(ns, store, tree) == Merging(store, tree)
    decreases ns, 1
  {
    if ns.Cons? {
      RevisitMerge(w, p, ns.head, store, tree);
      RevisitMergeAll(w, p, ns.tail, store, tree);
    }
  }

  // Visiting every node.

  /** A visit cuts the tree, and changes marks of the subtree only. */
  ghost predicate Visits(keep: iset<nat>, lo: nat, hi: nat, store: Store, tree: Tree, m: Merging) {
    m.tree == Cut(tree, keep) && SameOutside(store, m.store, lo, hi)
  }

  /** Below a merged node the visit requires the residue. */
  lemma {:induction false} VisitLeft(w: World, p: set<nat>, n: Node, lo: nat, store: Store, tree: Tree)
    requires Sound(w, n) && Numbered(n, lo) && Left(w, p, store, n) && tree.Keys <= p
    ensures Visits(Rest(w, n), lo, lo + Size(n), store, tree, VisitMerge(n, Merging(store, tree)))
    decreases n, 2
  {
    RevisitMerge(w, p, n, store, tree);
    match n
    case Leaf(_, _) =>
      assert Cut(tree, Rest(w, n)) == tree;
    case All(_, kids) =>
      VisitLeftAll(w, p, kids, lo + 1, store, tree);
      assert Rest(w, n) == RestAll(w, kids);
    case Not_(_, kids) =>
      VisitLeftAll(w, p, kids, lo + 1, store, tree);
      assert Rest(w, n) == RestAll(w, kids);
    case Or_(_, _, _) =>
      VisitOperands(w, p, n, lo, store, tree);
  }

  lemma {:induction false} VisitOperands(w: World, p: set<nat>, n: Node, lo: nat, store: Store, tree: Tree)
    requires n.Or_? && Sound(w, n) && Numbered(n, lo) && Left(w, p, store, n) && tree.Keys <= p
    ensures Visits(Rest(w, n), lo, lo + Size(n), store, tree,
                   VisitMerge(n.b, VisitMerge(n.a, Merging(store, tree))))
    decreases n, 1
  {
    var next := lo + 1 + Size(n.a);
    VisitOperand(w, p, n.a, lo + 1, store, tree);
    var here := VisitMerge(n.a, Merging(store, tree));
    LeftOperandFrame(w, p, store, here.store, n.b, next);
    VisitOperand(w, p, n.b, next, here.store, here.tree);
    assert Rest(w, n) == OperandRest(w, n.a) * OperandRest(w, n.b);
    CutTwice(tree, OperandRest(w, n.a), OperandRest(w, n.b));
  }

  lemma {:induction false} VisitLeftAll(w: World, p: set<nat>, ns: Nodes, lo: nat, store: Store, tree: Tree)
    requires SoundAll(w, ns) && NumberedAll(ns, lo) && LeftAll(w, p, store, ns) && tree.Keys <= p
    ensures Visits(RestAll(w, ns), lo, lo + SizeAll(ns), store, tree, VisitMergeAll(ns, Merging(store, tree)))
    decreases ns, 2
  {
    if ns.Nil? {
      assert Cut(tree, RestAll(w, ns)) == tree;
    } else {
      var next := lo + Size(ns.head);
      VisitLeft(w, p, ns.head, lo, store, tree);
      var here := VisitMerge(ns.head, Merging(store, tree));
      LeftAllFrame(w, p, store, here.store, ns.tail, next);
      VisitLeftAll(w, p, ns.tail, next, here.store, here.tree);
      KeepsBoth(w, ns);
      CutTwice(tree, Rest(w, ns.head), RestAll(w, ns.tail));
    }
  }

  /** An operand was closed with its OR; the visit of what is below it depends on its kind. */
  lemma {:induction false} VisitOperand(w: World, p: set<nat>, x: Node, lo: nat, store: Store, tree: Tree)
    requires Sound(w, x) && Numbered(x, lo) && LeftOperand(w, p, store, x) && tree.Keys <= p
    ensures Visits(OperandRest(w, x), lo, lo + Size(x), store, tree, VisitMerge(x, Merging(store, tree)))
    decreases x, 1
  {
    assert MergeNode(x, store, tree) == Merging(store, tree);
    match x
    case Leaf(_, _) =>
      assert Cut(tree, OperandRest(w, x)) == tree;
    case All(_, kids) =>
      VisitLeftAll(w, p, kids, lo + 1, store, tree);
      assert OperandRest(w, x) == RestAll(w, kids);
    case Not_(_, kids) =>
      VisitReadyAll(w, p, kids, lo + 1, store, tree);
      assert OperandRest(w, x) == KeepsAll(w, kids) * RestAll(w, kids);
    case Or_(_, _, _) =>
      VisitOperandOr(w, p, x, lo, store, tree);
  }

  lemma {:induction false} VisitOperandOr(w: World, p: set<nat>, x: Node, lo: nat, store: Store, tree: Tree)
    requires x.Or_? && Sound(w, x) && Numbered(x, lo) && LeftOperand(w, p, store, x) && tree.Keys <= p
    ensures Visits(OperandRest(w, x), lo, lo + Size(x), store, tree,
                   VisitMerge(x.b, VisitMerge(x.a, Merging(store, tree))))
    decreases x, 0
  {
    var next := lo + 1 + Size(x.a);
    VisitReady(w, p, x.a, lo + 1, store, tree);
    var here := VisitMerge(x.a, Merging(store, tree));
    ReadyFrame(w, p, store, here.store, x.b, next);
    VisitReady(w, p, x.b, next, here.store, here.tree);
    assert OperandRest(w, x) == (Keeps(w, x.a) * Rest(w, x.a)) * (Keeps(w, x.b) * Rest(w, x.b));
    CutTwice(tree, Keeps(w, x.a) * Rest(w, x.a), Keeps(w, x.b) * Rest(w, x.b));
  }

  /** Visiting a node that is ready merges it and then requires its residue. */
  lemma {:induction false} VisitReady(w: World, p: set<nat>, n: Node, lo: nat, store: Store, tree: Tree)
    requires Sound(w, n) && Numbered(n, lo) && Ready(w, p, store, n) && tree.Keys <= p
    ensures Visits(Keeps(w, n) * Rest(w, n), lo, lo + Size(n), store, tree, VisitMerge(n, Merging(store, tree)))
    decreases n, 3
  {
    MergeMeans(w, p, n, lo, store, tree);
    var here := MergeNode(n, store, tree);
    RevisitMerge(w, p, n, here.store, here.tree);
    MergeFirst(n, store, tree);
    VisitLeft(w, p, n, lo, here.store, here.tree);
    CutTwice(tree, Keeps(w, n), Rest(w, n));
  }

  lemma MergeFirst(n: Node, store: Store, tree: Tree)
    requires var here := MergeNode(n, store, tree); MergeNode(n, here.store, here.tree) == here
    ensures VisitMerge(n, Merging(store, tree)) == VisitMerge(n, MergeNode(n, store, tree))
  {
  }

  lemma {:induction false} VisitReadyAll(w: World, p: set<nat>, ns: Nodes, lo: nat, store: Store, tree: Tree)
    requires SoundAll(w, ns) && NumberedAll(ns, lo) && ReadyAll(w, p, store, ns) && tree.Keys <= p
    ensures Visits(KeepsAll(w, ns) * RestAll(w, ns), lo, lo + SizeAll(ns), store, tree,
                   VisitMergeAll(ns, Merging(store, tree)))
    decreases ns, 3
  {
    if ns.Nil? {
      assert Cut(tree, KeepsAll(w, ns) * RestAll(w, ns)) == tree;
    } else {
      var next := lo + Size(ns.head);
      VisitReady(w, p, ns.head, lo, store, tree);
      var here := VisitMerge(ns.head, Merging(store, tree));
      ReadyAllFrame(w, p, store, here.store, ns.tail, next);
      VisitReadyAll(w, p, ns.tail, next, here.store, here.tree);
      BothTwice(w, tree, ns);
    }
  }

  lemma BothTwice(w: World, tree: Tree, ns: Nodes)
    requires ns.Cons?
    ensures Cut(Cut(tree, Keeps(w, ns.head) * Rest(w, ns.head)), KeepsAll(w, ns.tail) * RestAll(w, ns.tail)) ==
            Cut(tree, KeepsAll(w, ns) * RestAll(w, ns))
  {
    KeepsBoth(w, ns);
    CutTwice(tree, Keeps(w, ns.head) * Rest(w, ns.head), KeepsAll(w, ns.tail) * RestAll(w, ns.tail));
    assert (Keeps(w, ns.head) * Rest(w, ns.head)) * (KeepsAll(w, ns.tail) * RestAll(w, ns.tail)) ==
           KeepsAll(w, ns) * RestAll(w, ns);
  }
}
