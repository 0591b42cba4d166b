/**
 The prescan and the search pass: which marks they leave in the tree.
 */
module SearchPasses {
  import opened Basics
  import opened SearchSpec

  // Marks of a subtree live in its own range of numbers.

  predicate SameOn(s: Store, t: Store, lo: nat, hi: nat) {
    forall i :: lo <= i < hi ==> At(s, i) == At(t, i)
  }

  ghost predicate SameOutside(s: Store, t: Store, lo: nat, hi: nat) {
    forall i: nat :: i < lo || i >= hi ==> At(s, i) == At(t, i)
  }

  predicate Untouched(s: Store, lo: nat, hi: nat) {
    forall i :: lo <= i < hi ==> !At(s, i).searched && !At(s, i).merged
  }

  /** Searched but not merged; a leaf's tree is right for the messages in `p`. */
  ghost predicate Ready(w: World, p: set<nat>, store: Store, n: Node) {
    var slot := At(store, n.id);
    match n
    case Leaf(_, key) =>
      key.SortKey? ||
      (slot.searched && !slot.merged && slot.found.Some? &&
       forall u :: u in p ==> (u in slot.found.value <==> Matches(w, key, u)))
    case All(_, kids) => slot == Slot(Some(map[]), true, false) && ReadyAll(w, p, store, kids)
    case Not_(_, kids) => slot == Slot(Some(map[]), true, false) && ReadyAll(w, p, store, kids)
    case Or_(_, a, b) => slot == Slot(Some(map[]), true, false) && Ready(w, p, store, a) && Ready(w, p, store, b)
  }

  ghost predicate ReadyAll(w: World, p: set<nat>, store: Store, ns: Nodes) {
    ns.Cons? ==> Ready(w, p, store, ns.head) && ReadyAll(w, p, store, ns.tail)
  }

  lemma {:induction false} ReadyFrame(w: World, p: set<nat>, s: Store, t: Store, n: Node, lo: nat)
    requires Numbered(n, lo) && SameOn(s, t, lo, lo + Size(n)) && Ready(w, p, s, n)
    ensures Ready(w, p, t, n)
    decreases n, 1
  {
    match n
    case Leaf(_, _) =>
    case All(_, kids) => ReadyAllFrame(w, p, s, t, kids, lo + 1);
    case Not_(_, kids) => ReadyAllFrame(w, p, s, t, kids, lo + 1);
    case Or_(_, a, b) =>
      ReadyFrame(w, p, s, t, a, lo + 1);
      ReadyFrame(w, p, s, t, b, lo + 1 + Size(a));
  }

  lemma {:induction false} ReadyAllFrame(w: World, p: set<nat>, s: Store, t: Store, ns: Nodes, lo: nat)
    requires NumberedAll(ns, lo) && SameOn(s, t, lo, lo + SizeAll(ns)) && ReadyAll(w, p, s, ns)
    ensures ReadyAll(w, p, t, ns)
    decreases ns, 1
  {
    if ns.Cons? {
      ReadyFrame(w, p, s, t, ns.head, lo);
      ReadyAllFrame(w, p, s, t, ns.tail, lo + Size(ns.head));
    }
  }

  // Searching.

  /** Restricting a query does not change its answer on the messages found so far. */
  lemma LeafTreeRight(w: World, key: Key, found: Tree, narrow: bool, u: nat)
    requires ValidKey(w, key) && found.Keys <= w.view.ids.Keys && u in found && !key.SortKey?
    ensures u in LeafTree(w, key, found, narrow) <==> Matches(w, key, u)
  {
  }

  lemma {:induction false} SearchReady(w: World, n: Node, lo: nat, store: Store, found: Tree, narrow: bool)
    requires Sound(w, n) && Numbered(n, lo) && found.Keys <= w.view.ids.Keys
    requires Untouched(store, lo, lo + Size(n))
    ensures var after := DoSearch(w, n, store, found, narrow);
            Ready(w, found.Keys, after, n) && SameOutside(store, after, lo, lo + Size(n))
    decreases n, 1
  {
    match n
    case Leaf(_, key) =>
      if !key.SortKey? {
        forall u | u in found
          ensures u in LeafTree(w, key, found, narrow) <==> Matches(w, key, u)
        {
          LeafTreeRight(w, key, found, narrow, u);
        }
      }
    case All(id, kids) => SearchKids(w, n, kids, lo, store, found, narrow);
    case Not_(id, kids) => SearchKids(w, n, kids, lo, store, found, narrow);
    case Or_(_, _, _) => SearchOr(w, n, lo, store, found, narrow);
  }

  lemma {:induction false} SearchOr(w: World, n: Node, lo: nat, store: Store, found: Tree, narrow: bool)
    requires n.Or_? && Sound(w, n) && Numbered(n, lo) && found.Keys <= w.view.ids.Keys
    requires Untouched(store, lo, lo + Size(n))
    ensures var after := DoSearch(w, n, store, found, narrow);
            Ready(w, found.Keys, after, n) && SameOutside(store, after, lo, lo + Size(n))
    decreases n, 0
  {
    var next := lo + 1 + Size(n.a);
    SearchReady(w, n.a, lo + 1, store, found, narrow);
    var mid := DoSearch(w, n.a, store, found, narrow);
    SearchReady(w, n.b, next, mid, found, narrow);
    OrReady(w, found.Keys, n, lo, mid, DoSearch(w, n.b, mid, found, narrow));
  }

  lemma OrReady(w: World, p: set<nat>, n: Node, lo: nat, mid: Store, last: Store)
    requires n.Or_? && Numbered(n, lo) && Ready(w, p, mid, n.a) && Ready(w, p, last, n.b)
    requires var next := lo + 1 + Size(n.a); SameOutside(mid, last, next, next + Size(n.b))
    requires !At(last, n.id).merged
    ensures Ready(w, p, Opened(n.id, last), n)
  {
    ReadyFrame(w, p, mid, Opened(n.id, last), n.a, lo + 1);
    ReadyFrame(w, p, last, Opened(n.id, last), n.b, lo + 1 + Size(n.a));
  }

  lemma {:induction false} SearchKids(w: World, n: Node, kids: Nodes, lo: nat, store: Store, found: Tree, narrow: bool)
    requires (n.All? || n.Not_?) && n.kids == kids
    requires Sound(w, n) && Numbered(n, lo) && found.Keys <= w.view.ids.Keys
    requires Untouched(store, lo, lo + Size(n))
    ensures var after := DoSearch(w, n, store, found, narrow);
            Ready(w, found.Keys, after, n) && SameOutside(store, after, lo, lo + Size(n))
    decreases kids, 2
  {
    SearchReadyAll(w, kids, lo + 1, store, found, narrow);
    var last := DoSearchAll(w, kids, store, found, narrow);
    ReadyAllFrame(w, found.Keys, last, Opened(n.id, last), kids, lo + 1);
  }

  lemma {:induction false} SearchReadyAll(w: World, ns: Nodes, lo: nat, store: Store, found: Tree, narrow: bool)
    requires SoundAll(w, ns) && NumberedAll(ns, lo) && found.Keys <= w.view.ids.Keys
    requires Untouched(store, lo, lo + SizeAll(ns))
    ensures var after := DoSearchAll(w, ns, store, found, narrow);
            ReadyAll(w, found.Keys, after, ns) && SameOutside(store, after, lo, lo + SizeAll(ns))
    decreases ns, 1
  {
    if ns.Cons? {
      var next := lo + Size(ns.head);
      SearchReady(w, ns.head, lo, store, found, narrow);
      var mid := DoSearch(w, ns.head, store, found, narrow);
      SearchReadyAll(w, ns.tail, next, mid, found, narrow);
      ReadyFrame(w, found.Keys, mid, DoSearchAll(w, ns.tail, mid, found, narrow), ns.head, lo);
    }
  }

  /** Visiting searched nodes again changes nothing. */
  lemma {:induction false} RevisitSearch(w: World, p: set<nat>, n: Node, store: Store, found: Tree, narrow: bool)
    requires Ready(w, p, store, n)
    ensures VisitSearch(w, n, store, found, narrow) == store
    decreases n, 1
  {
    match n
    case Leaf(_, _) =>
    case All(_, kids) => RevisitSearchAll(w, p, kids, store, found, narrow);
    case Not_(_, kids) => RevisitSearchAll(w, p, kids, store, found, narrow);
    case Or_(_, a, b) =>
      RevisitSearch(w, p, a, store, found, narrow);
      RevisitSearch(w, p, b, store, found, narrow);
  }

  lemma {:induction false} RevisitSearchAll(w: World, p: set<nat>, ns: Nodes, store: Store, found: Tree, narrow: bool)
    requires ReadyAll(w, p, store, ns)
    ensures VisitSearchAll(w, ns, store, found, narrow) == store
    decreases ns, 1
  {
    if ns.Cons? {
      RevisitSearch(w, p, ns.head, store, found, narrow);
      RevisitSearchAll(w, p, ns.tail, store, found, narrow);
    }
  }

  // The top level, where the prescan has taken the sets.

  predicate IsSet(n: Node) {
    n.Leaf? && n.key.SetKey?
  }

  /** The sets among the children, and the other children. */
  ghost predicate SetsMatch(w: World, ns: Nodes, u: nat) {
    ns.Cons? ==> (IsSet(ns.head) ==> Matches(w, ns.head.key, u)) && SetsMatch(w, ns.tail, u)
  }

  predicate Scanned(store: Store, n: Node, lo: nat) {
    if IsSet(n) then At(store, lo) == Slot(None, true, true) else Untouched(store, lo, lo + Size(n))
  }

  predicate ScannedAll(store: Store, ns: Nodes, lo: nat) {
    ns.Cons? ==> Scanned(store, ns.head, lo) && ScannedAll(store, ns.tail, lo + Size(ns.head))
  }

  lemma {:induction false} ScannedFrame(s: Store, t: Store, ns: Nodes, lo: nat)
    requires NumberedAll(ns, lo) && ScannedAll(s, ns, lo) && SameOn(s, t, lo, lo + SizeAll(ns))
    ensures ScannedAll(t, ns, lo)
  {
    if ns.Cons? {
      ScannedFrame(s, t, ns.tail, lo + Size(ns.head));
    }
  }

  ghost function SetsOf(w: World, tree: Tree, ns: Nodes): Tree {
    map u | u in tree && SetsMatch(w, ns, u) :: tree[u]
  }

  lemma PrescanOne(w: World, n: Node, m: Merging)
    requires IsSet(n) && ValidKey(w, n.key) && !At(m.store, n.id).searched
    ensures PrescanLeaf(w, n.id, n.key, m) ==
            Merging(m.store[n.id := Slot(None, true, true)], map u | u in m.tree && Matches(w, n.key, u) :: m.tree[u])
  {
  }

  ghost function PrescanNode(w: World, n: Node, m: Merging): Merging {
    if n.Leaf? then PrescanLeaf(w, n.id, n.key, m) else m
  }

  lemma PrescanStep(w: World, n: Node, lo: nat, m: Merging)
    requires Sound(w, n) && Numbered(n, lo) && Untouched(m.store, lo, lo + Size(n))
    ensures var here := PrescanNode(w, n, m);
            && here.tree == (if IsSet(n) then map u | u in m.tree && Matches(w, n.key, u) :: m.tree[u] else m.tree)
            && Scanned(here.store, n, lo) && SameOutside(m.store, here.store, lo, lo + Size(n))
  {
    if IsSet(n) {
      PrescanOne(w, n, m);
    }
  }

  lemma SetsStep(w: World, tree: Tree, here: Tree, ns: Nodes)
    requires ns.Cons?
    requires here == if IsSet(ns.head) then map u | u in tree && Matches(w, ns.head.key, u) :: tree[u] else tree
    ensures SetsOf(w, here, ns.tail) == SetsOf(w, tree, ns)
  {
  }

  lemma {:induction false} PrescanTakesSets(w: World, ns: Nodes, lo: nat, m: Merging)
    requires SoundAll(w, ns) && NumberedAll(ns, lo) && Untouched(m.store, lo, lo + SizeAll(ns))
    ensures var end := PrescanAll(w, ns, m);
            && end.tree == SetsOf(w, m.tree, ns)
            && ScannedAll(end.store, ns, lo) && SameOutside(m.store, end.store, lo, lo + SizeAll(ns))
  {
    if ns.Nil? {
      assert SetsOf(w, m.tree, ns) == m.tree;
    } else {
      var next := lo + Size(ns.head);
      var here := PrescanNode(w, ns.head, m);
      PrescanStep(w, ns.head, lo, m);
      SetsStep(w, m.tree, here.tree, ns);
      assert Untouched(here.store, next, next + SizeAll(ns.tail)) by {
        assert SameOn(m.store, here.store, next, next + SizeAll(ns.tail));
      }
      PrescanTakesSets(w, ns.tail, next, here);
    }
  }

  /** After the second pass every child is ready or was taken by the prescan. */
  ghost predicate TopReady(w: World, p: set<nat>, store: Store, ns: Nodes) {
    ns.Cons? ==>
      && (if IsSet(ns.head) then At(store, ns.head.id).merged && At(store, ns.head.id).searched
          else Ready(w, p, store, ns.head))
      && TopReady(w, p, store, ns.tail)
  }

  lemma {:induction false} TopReadyFrame(w: World, p: set<nat>, s: Store, t: Store, ns: Nodes, lo: nat)
    requires NumberedAll(ns, lo) && TopReady(w, p, s, ns) && SameOn(s, t, lo, lo + SizeAll(ns))
    ensures TopReady(w, p, t, ns)
  {
    if ns.Cons? {
      if !IsSet(ns.head) {
        ReadyFrame(w, p, s, t, ns.head, lo);
      }
      TopReadyFrame(w, p, s, t, ns.tail, lo + Size(ns.head));
    }
  }

  lemma {:induction false} VisitSearchOne(w: World, n: Node, lo: nat, store: Store, found: Tree, narrow: bool)
    requires Sound(w, n) && Numbered(n, lo) && found.Keys <= w.view.ids.Keys && Scanned(store, n, lo)
    ensures var after := VisitSearch(w, n, store, found, narrow);
            && SameOutside(store, after, lo, lo + Size(n))
            && (if IsSet(n) then after == store else Ready(w, found.Keys, after, n))
  {
    if !IsSet(n) {
      SearchReady(w, n, lo, store, found, narrow);
      var here := DoSearch(w, n, store, found, narrow);
      RevisitSearch(w, found.Keys, n, here, found, narrow);
      VisitUnfolds(w, n, store, found, narrow);
    }
  }

  /** Once the node itself has been searched, the visit of its descendants is all that is left. */
  lemma VisitUnfolds(w: World, n: Node, store: Store, found: Tree, narrow: bool)
    requires !(n.Leaf? && n.key.SetKey?)
    requires var here := DoSearch(w, n, store, found, narrow);
             (n.Leaf? || At(here, n.id).searched) && VisitSearch(w, n, here, found, narrow) == here
    ensures VisitSearch(w, n, store, found, narrow) == DoSearch(w, n, store, found, narrow)
  {
  }

  lemma {:induction false} VisitSearchTop(w: World, ns: Nodes, lo: nat, store: Store, found: Tree, narrow: bool)
    requires SoundAll(w, ns) && NumberedAll(ns, lo) && found.Keys <= w.view.ids.Keys && ScannedAll(store, ns, lo)
    ensures var after := VisitSearchAll(w, ns, store, found, narrow);
            TopReady(w, found.Keys, after, ns) && SameOutside(store, after, lo, lo + SizeAll(ns))
  {
    if ns.Cons? {
      var n, next := ns.head, lo + Size(ns.head);
      VisitSearchOne(w, n, lo, store, found, narrow);
      var here := VisitSearch(w, n, store, found, narrow);
      ScannedFrame(store, here, ns.tail, next);
      VisitSearchTop(w, ns.tail, next, here, found, narrow);
      var after := VisitSearchAll(w, ns.tail, here, found, narrow);
      if !IsSet(n) {
        ReadyFrame(w, found.Keys, here, after, n, lo);
      }
    }
  }
}
