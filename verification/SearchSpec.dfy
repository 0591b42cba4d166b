/**
 The three passes of a mailbox search over its tree of keys, as functions of the
 per-node marks, and the Boolean meaning of the tree.
 */
module SearchSpec {
  import opened Basics
  import opened MailboxView
  import opened SequenceSet
  import opened GTreeMerge

  // The tree. Nodes are numbered in pre-order; the marks of a node live under its number.

  datatype Key =
    | SetKey(text: string, uid: bool)  // a sequence set
    | Plain(query: nat)                // a query over all messages of the mailbox
    | Narrowed(query: nat)             // a query that may be restricted to the ids found so far
    | Unkeyword(query: nat)            // the complement of a keyword query
    | SortKey

  datatype Node =
    | Leaf(id: nat, key: Key)
    | All(id: nat, kids: Nodes)
    | Not_(id: nat, kids: Nodes)
    | Or_(id: nat, a: Node, b: Node)

  datatype Nodes = Nil | Cons(head: Node, tail: Nodes)

  /** The root is a sequence set whose children are all required to match. */
  datatype Search = Search(id: nat, key: Key, kids: Nodes)

  /** The mailbox view, and the rows that the database returns for each query. */
  datatype World = World(view: View, answers: nat -> set<nat>)

  // Meaning.

  ghost predicate Matches(w: World, key: Key, u: nat) {
    match key
    case SetKey(text, uid) => var t := GetSet(w.view, text, uid); t.Some? && u in t.value
    case Plain(q) => u in w.answers(q)
    case Narrowed(q) => u in w.answers(q)
    case Unkeyword(q) => u !in w.answers(q)
    case SortKey => true
  }

  ghost predicate Means(w: World, n: Node, u: nat) {
    match n
    case Leaf(_, key) => Matches(w, key, u)
    case All(_, kids) => MeansAll(w, kids, u)
    case Not_(_, kids) => !MeansAll(w, kids, u)
    case Or_(_, a, b) => Means(w, a, u) || Means(w, b, u)
  }

  ghost predicate MeansAll(w: World, ns: Nodes, u: nat) {
    ns.Cons? ==> Means(w, ns.head, u) && MeansAll(w, ns.tail, u)
  }

  /** Set keys are valid, and no OR operand is a sort key. */
  ghost predicate Sound(w: World, n: Node) {
    match n
    case Leaf(_, key) => ValidKey(w, key)
    case All(_, kids) => SoundAll(w, kids)
    case Not_(_, kids) => SoundAll(w, kids)
    case Or_(_, a, b) =>
      Sound(w, a) && Sound(w, b) && !(a.Leaf? && a.key.SortKey?) && !(b.Leaf? && b.key.SortKey?)
  }

  ghost predicate SoundAll(w: World, ns: Nodes) {
    ns.Cons? ==> Sound(w, ns.head) && SoundAll(w, ns.tail)
  }

  /** OR operands are leaves or parenthesised groups. */
  predicate InFragment(n: Node) {
    match n
    case Leaf(_, _) => true
    case All(_, kids) => AllInFragment(kids)
    case Not_(_, kids) => AllInFragment(kids)
    case Or_(_, a, b) => InFragment(a) && InFragment(b) && (a.All? || a.Leaf?) && (b.All? || b.Leaf?)
  }

  predicate AllInFragment(ns: Nodes) {
    ns.Cons? ==> InFragment(ns.head) && AllInFragment(ns.tail)
  }

  ghost predicate ValidKey(w: World, key: Key) {
    key.SetKey? ==> GetSet(w.view, key.text, key.uid).Some?
  }

  // Numbering.

  function Size(n: Node): nat {
    match n
    case Leaf(_, _) => 1
    case All(_, kids) => 1 + SizeAll(kids)
    case Not_(_, kids) => 1 + SizeAll(kids)
    case Or_(_, a, b) => 1 + Size(a) + Size(b)
  }

  function SizeAll(ns: Nodes): nat {
    if ns.Nil? then 0 else Size(ns.head) + SizeAll(ns.tail)
  }

  predicate Numbered(n: Node, lo: nat) {
    n.id == lo &&
    match n
    case Leaf(_, _) => true
    case All(_, kids) => NumberedAll(kids, lo + 1)
    case Not_(_, kids) => NumberedAll(kids, lo + 1)
    case Or_(_, a, b) => Numbered(a, lo + 1) && Numbered(b, lo + 1 + Size(a))
  }

  predicate NumberedAll(ns: Nodes, lo: nat) {
    ns.Cons? ==> Numbered(ns.head, lo) && NumberedAll(ns.tail, lo + Size(ns.head))
  }

  // Marks.

  type Tree = map<nat, nat>

  datatype Slot = Slot(found: Option<Tree>, searched: bool, merged: bool)

  type Store = map<nat, Slot>

  function At(store: Store, id: nat): Slot {
    if id in store then store[id] else Slot(None, false, false)
  }

  function TreeOf(slot: Slot): Tree {
    if slot.found.Some? then slot.found.value else map[]
  }

  // Pass two: searching the leaves.

  /** A query is restricted to the ids found so far when there are between 1 and 200 of them. */
  predicate Restricts(found: Tree) {
    0 < |found| <= 200
  }

  function QueryRows(w: World, query: nat, found: Tree, narrow: bool): set<nat> {
    if narrow && Restricts(found) then w.answers(query) * found.Keys else w.answers(query)
  }

  ghost function LeafTree(w: World, key: Key, found: Tree, narrow: bool): Tree {
    match key
    case SetKey(text, uid) => var t := GetSet(w.view, text, uid); if t.Some? then t.value else map[]
    case Plain(q) => Within(w.view.ids, w.answers(q))
    case Narrowed(q) => Within(w.view.ids, QueryRows(w, q, found, narrow))
    case Unkeyword(q) => w.view.ids - QueryRows(w, q, found, narrow)
    case SortKey => map[]
  }

  ghost function DoSearch(w: World, n: Node, store: Store, found: Tree, narrow: bool): Store {
    if At(store, n.id).searched then store else
    match n
    case Leaf(id, key) =>
      if key.SortKey? then store
      else store[id := Slot(Some(LeafTree(w, key, found, narrow)), true, At(store, id).merged)]
    case All(id, kids) => Opened(id, DoSearchAll(w, kids, store, found, narrow))
    case Not_(id, kids) => Opened(id, DoSearchAll(w, kids, store, found, narrow))
    case Or_(id, a, b) =>
      Opened(id, DoSearch(w, b, DoSearch(w, a, store, found, narrow), found, narrow))
  }

  function Opened(id: nat, store: Store): Store {
    store[id := Slot(Some(map[]), true, At(store, id).merged)]
  }

  ghost function DoSearchAll(w: World, ns: Nodes, store: Store, found: Tree, narrow: bool): Store {
    if ns.Nil? then store else
    DoSearchAll(w, ns.tail, DoSearch(w, ns.head, store, found, narrow), found, narrow)
  }

  // Pass three: merging.

  datatype Merging = Merging(store: Store, tree: Tree)

  function Closed(id: nat, store: Store): Store {
    store[id := At(store, id).(found := None, merged := true)]
  }

  /** The tree of an OR operand: a group starts from a copy of `tree` and is merged first. */
  function OperandTree(x: Node, store: Store, tree: Tree): Merging
    decreases x, 0
  {
    var own := TreeOf(At(store, x.id));
    if x.All? then MergeAll(x.kids, store, own + tree) else Merging(store, own)
  }

  function MergeNode(n: Node, store: Store, tree: Tree): Merging
    decreases n, 1
  {
    if n.Leaf? && n.key.SortKey? then Merging(store, tree)
    else if At(store, n.id).merged then Merging(store, tree)
    else
      match n
      case Leaf(id, _) =>
        Merging(Closed(id, store), Merged(tree, TreeOf(At(store, id)), And))
      case All(_, kids) => MergeAll(kids, store, tree)
      case Not_(id, kids) =>
        var inner := MergeAll(kids, store, TreeOf(At(store, id)) + tree);
        Merging(Closed(id, inner.store), Merged(tree, inner.tree, Not))
      case Or_(id, a, b) =>
        var x := OperandTree(a, store, tree);
        var y := OperandTree(b, x.store, tree);
        var either := Merged(x.tree, y.tree, Or);
        var own := Merged(TreeOf(At(y.store, id)), either, Or);
        Merging(Closed(id, Closed(a.id, Closed(b.id, y.store))), Merged(tree, own, And))
  }

  function MergeAll(ns: Nodes, store: Store, tree: Tree): Merging
    decreases ns, 1
  {
    if ns.Nil? then Merging(store, tree) else
    var first := MergeNode(ns.head, store, tree);
    MergeAll(ns.tail, first.store, first.tree)
  }

  // The traversals visit every node, also those already handled through their parents.

  ghost function VisitSearch(w: World, n: Node, store: Store, found: Tree, narrow: bool): Store
    decreases n, 1
  {
    var here := DoSearch(w, n, store, found, narrow);
    match n
    case Leaf(_, _) => here
    case All(_, kids) => VisitSearchAll(w, kids, here, found, narrow)
    case Not_(_, kids) => VisitSearchAll(w, kids, here, found, narrow)
    case Or_(_, a, b) => VisitSearch(w, b, VisitSearch(w, a, here, found, narrow), found, narrow)
  }

  ghost function VisitSearchAll(w: World, ns: Nodes, store: Store, found: Tree, narrow: bool): Store
    decreases ns, 1
  {
    if ns.Nil? then store else
    VisitSearchAll(w, ns.tail, VisitSearch(w, ns.head, store, found, narrow), found, narrow)
  }

  function VisitMerge(n: Node, m: Merging): Merging
    decreases n, 1
  {
    var here := MergeNode(n, m.store, m.tree);
    match n
    case Leaf(_, _) => here
    case All(_, kids) => VisitMergeAll(kids, here)
    case Not_(_, kids) => VisitMergeAll(kids, here)
    case Or_(_, a, b) => VisitMerge(b, VisitMerge(a, here))
  }

  function VisitMergeAll(ns: Nodes, m: Merging): Merging
    decreases ns, 1
  {
    if ns.Nil? then m else VisitMergeAll(ns.tail, VisitMerge(ns.head, m))
  }

  // Pass one: the sets at the top two levels.

  ghost function PrescanLeaf(w: World, id: nat, key: Key, m: Merging): Merging {
    if At(m.store, id).searched || !key.SetKey? || GetSet(w.view, key.text, key.uid).None? then m
    else Merging(m.store[id := Slot(None, true, true)],
                 Merged(m.tree, GetSet(w.view, key.text, key.uid).value, And))
  }

  ghost function PrescanAll(w: World, ns: Nodes, m: Merging): Merging {
    if ns.Nil? then m
    else PrescanAll(w, ns.tail, if ns.head.Leaf? then PrescanLeaf(w, ns.head.id, ns.head.key, m) else m)
  }

  /** `dbmail_mailbox_search`: all messages, prescan, search, merge. */
  ghost function Result(w: World, s: Search, narrow: bool): Tree {
    var scanned := PrescanAll(w, s.kids, PrescanLeaf(w, s.id, s.key, Merging(map[], w.view.ids)));
    var searched := VisitSearchAll(w, s.kids, scanned.store, scanned.tree, narrow);
    VisitMergeAll(s.kids, Merging(searched, scanned.tree)).tree
  }
}
