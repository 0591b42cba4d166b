/**
 The mailbox object that evaluates a search: the passes update the result tree and
 the marks of the nodes in place.
 */
module SearchEngine {
  import opened Basics
  import opened SortedSets
  import opened MailboxView
  import opened MailboxStates
  import opened SequenceSet
  import Trees = GTreeMerge
  import Ranges = RangeSearch
  import opened Spec = SearchSpec

  /** The state shows the same messages as the view. */
  ghost predicate Watches(m: MailboxState, v: View)
    reads m
  {
    && Mapped(m.State()) && m.ids == v.ids && m.uidnext == v.uidnext
    && SequenceSet.Top(m.State(), false) == SequenceSet.Top(v, false)
  }

  lemma ExistsTwice(v: View)
    ensures MailboxView.Exists(v.(total := MailboxView.Exists(v))) == MailboxView.Exists(v)
  {
  }

  lemma SameSets(v: View, u: View, text: string, uid: bool)
    requires v.ids == u.ids && v.uidnext == u.uidnext && SequenceSet.Top(v, false) == SequenceSet.Top(u, false)
    ensures SequenceSet.GetSet(v, text, uid) == SequenceSet.GetSet(u, text, uid)
  {
    if v.ids != map[] {
      SameTop(v, u, uid);
      Ranges.CollectIgnoresTotal(v, u, Split(text), SequenceSet.Top(v, uid), uid, map[]);
    }
  }

  lemma SameTop(v: View, u: View, uid: bool)
    requires v.ids == u.ids && SequenceSet.Top(v, false) == SequenceSet.Top(u, false)
    ensures SequenceSet.Top(v, uid) == SequenceSet.Top(u, uid)
  {
    assert Order(v) == Order(u);
  }

  function QueryTree(ids: Tree, answers: nat -> set<nat>, key: Key, found: Tree): Tree
    requires !key.SetKey?
  {
    match key
    case Plain(q) => Trees.Within(ids, answers(q))
    case Narrowed(q) => Trees.Within(ids, if Restricts(found) then answers(q) * found.Keys else answers(q))
    case Unkeyword(q) => ids - if Restricts(found) then answers(q) * found.Keys else answers(q)
    case SortKey => map[]
  }

  lemma QueryTreeIsLeafTree(w: World, key: Key, found: Tree)
    ensures !key.SetKey? ==> QueryTree(w.view.ids, w.answers, key, found) == Spec.LeafTree(w, key, found, true)
  {
  }

  function Inverted(ids: Tree, tree: Tree, done: set<nat>): Tree {
    Trees.Within(ids, done) - tree.Keys
  }

  lemma InvertStep(ids: Tree, tree: Tree, done: set<nat>, key: nat)
    requires key in ids
    ensures Inverted(ids, tree, done + {key}) ==
            if key in tree then Inverted(ids, tree, done) else Inverted(ids, tree, done)[key := ids[key]]
  {
  }

  lemma InvertDone(ids: Tree, tree: Tree)
    ensures Inverted(ids, tree, {}) == map[]
    ensures Inverted(ids, tree, ids.Keys) == ids - tree.Keys
  {
  }

  lemma InvertWithin(ids: Tree, rows: set<nat>)
    ensures ids - Trees.Within(ids, rows).Keys == ids - rows
  {
  }

  class Mailbox {
    const mbstate: MailboxState
    const answers: nat -> set<nat>
    var found: Tree
    var marks: Store

    constructor (mbstate: MailboxState, answers: nat -> set<nat>)
      ensures this.mbstate == mbstate && this.answers == answers
    {
      this.mbstate, this.answers := mbstate, answers;
      found, marks := map[], map[];
    }

    ghost predicate In(w: World)
      reads this, mbstate
    {
      Watches(mbstate, w.view) && answers == w.answers
    }

    /** `dbmail_mailbox_get_set` with modseq 0. */
    method FindSet(ghost w: World, text: string, uid: bool) returns (tree: Option<Tree>)
      requires In(w)
      modifies mbstate`total
      ensures In(w) && tree == SequenceSet.GetSet(w.view, text, uid)
    {
      ExistsTwice(mbstate.State());
      SameSets(mbstate.State(), w.view, text, uid);
      tree := Ranges.GetSet(mbstate, text, uid);
    }

    /** The result rows of a query that are in the view, each with its MSN. */
    method Collect(rows: set<nat>) returns (tree: Tree)
      ensures tree == Trees.Within(mbstate.ids, rows)
    {
      var order := TreeKeys(rows);
      tree := map[];
      WholePrefix(order);
      for i := 0 to |order|
        invariant tree == Trees.Within(mbstate.ids, Elements(order[..i]))
      {
        PrefixGrows(order, i);
        if order[i] in mbstate.ids {
          tree := tree[order[i] := mbstate.ids[order[i]]];
        }
      }
    }

    /** All messages of the view that are not in the tree. */
    method Invert(tree: Tree) returns (inverted: Tree)
      ensures inverted == mbstate.ids - tree.Keys
    {
      var order := TreeKeys(mbstate.ids.Keys);
      inverted := map[];
      ghost var done := {};
      WholePrefix(order);
      InvertDone(mbstate.ids, tree);
      for i := 0 to |order|
        invariant done == Elements(order[..i])
        invariant inverted == Inverted(mbstate.ids, tree, done)
      {
        PrefixGrows(order, i);
        InvertStep(mbstate.ids, tree, done, order[i]);
        if order[i] !in tree {
          inverted := inverted[order[i] := mbstate.ids[order[i]]];
        }
        done := done + {order[i]};
      }
    }

    method RowsOf(query: nat) returns (rows: set<nat>)
      ensures rows == if 0 < |found| <= 200 then answers(query) * found.Keys else answers(query)
    {
      rows := answers(query);
      if 0 < |found| <= 200 {
        rows := rows * found.Keys;
      }
    }

    /** `mailbox_search`. */
    method SearchQuery(key: Key) returns (tree: Tree)
      requires !key.SetKey?
      ensures tree == QueryTree(mbstate.ids, answers, key, found)
    {
      match key {
        case Plain(q) =>
          tree := Collect(answers(q));
        case Narrowed(q) =>
          var rows := RowsOf(q);
          tree := Collect(rows);
        case Unkeyword(q) =>
          var rows := RowsOf(q);
          var matching := Collect(rows);
          InvertWithin(mbstate.ids, rows);
          tree := Invert(matching);
        case SortKey =>
          tree := map[];
      }
    }

    /** A leaf of the second pass: a query, or a set that the prescan did not reach. */
    method SearchLeaf(ghost w: World, key: Key) returns (tree: Tree)
      requires In(w)
      modifies mbstate`total
      ensures In(w) && tree == Spec.LeafTree(w, key, found, true)
    {
      QueryTreeIsLeafTree(w, key, found);
      if key.SetKey? {
        var t := FindSet(w, key.text, key.uid);
        tree := if t.Some? then t.value else map[];
      } else {
        tree := SearchQuery(key);
      }
    }

    /** `_prescan_search` on one node. */
    method Prescan(ghost w: World, id: nat, key: Key)
      requires In(w)
      modifies this`found, this`marks, mbstate`total
      ensures In(w)
      ensures Merging(marks, found) == Spec.PrescanLeaf(w, id, key, Merging(old(marks), old(found)))
    {
      if At(marks, id).searched || !key.SetKey? {
        return;
      }
      var t := FindSet(w, key.text, key.uid);
      if t.None? {
        return;
      }
      marks := marks[id := Slot(None, true, true)];
      found := Trees.MergeAnd(found, t.value);
    }

    /** The level-order traversal down to the children of the root. */
    method PrescanTop(ghost w: World, s: Search)
      requires In(w)
      modifies this`found, this`marks, mbstate`total
      ensures In(w)
      ensures Merging(marks, found) ==
              Spec.PrescanAll(w, s.kids, Spec.PrescanLeaf(w, s.id, s.key, Merging(old(marks), old(found))))
    {
      Prescan(w, s.id, s.key);
      ghost var all := Spec.PrescanAll(w, s.kids, Merging(marks, found));
      var left := s.kids;
      while left.Cons?
        invariant In(w)
        invariant Spec.PrescanAll(w, left, Merging(marks, found)) == all
        decreases left
      {
        if left.head.Leaf? {
          Prescan(w, left.head.id, left.head.key);
        }
        left := left.tail;
      }
    }

    /** `_do_search`. */
    method DoSearch(ghost w: World, n: Node)
      requires In(w)
      modifies this`marks, mbstate`total
      ensures In(w) && marks == Spec.DoSearch(w, n, old(marks), found, true)
      decreases n, 1
    {
      if At(marks, n.id).searched {
        return;
      }
      match n {
        case Leaf(id, key) =>
          if key.SortKey? {
            return;
          }
          var tree := SearchLeaf(w, key);
          marks := marks[id := Slot(Some(tree), true, At(marks, id).merged)];
        case All(id, kids) =>
          DoSearchAll(w, kids);
          marks := Spec.Opened(id, marks);
        case Not_(id, kids) =>
          DoSearchAll(w, kids);
          marks := Spec.Opened(id, marks);
        case Or_(id, a, b) =>
          DoSearch(w, a);
          DoSearch(w, b);
          marks := Spec.Opened(id, marks);
      }
    }

    method DoSearchAll(ghost w: World, ns: Nodes)
      requires In(w)
      modifies this`marks, mbstate`total
      ensures In(w) && marks == Spec.DoSearchAll(w, ns, old(marks), found, true)
      decreases ns, 1
    {
      if ns.Cons? {
        DoSearch(w, ns.head);
        DoSearchAll(w, ns.tail);
      }
    }

    /** The pre-order traversal with `_do_search`. */
    method VisitSearch(ghost w: World, n: Node)
      requires In(w)
      modifies this`marks, mbstate`total
      ensures In(w) && marks == Spec.VisitSearch(w, n, old(marks), found, true)
      decreases n, 1
    {
      DoSearch(w, n);
      match n {
        case Leaf(_, _) =>
        case All(_, kids) => VisitSearchAll(w, kids);
        case Not_(_, kids) => VisitSearchAll(w, kids);
        case Or_(_, a, b) =>
          VisitSearch(w, a);
          VisitSearch(w, b);
      }
    }

    method VisitSearchAll(ghost w: World, ns: Nodes)
      requires In(w)
      modifies this`marks, mbstate`total
      ensures In(w) && marks == Spec.VisitSearchAll(w, ns, old(marks), found, true)
      decreases ns, 1
    {
      if ns.Cons? {
        VisitSearch(w, ns.head);
        VisitSearchAll(w, ns.tail);
      }
    }

    /** An OR operand: a group copies the tree and merges its children into the copy. */
    method MergeOperand(x: Node, tree: Tree) returns (operand: Tree)
      modifies this`marks
      ensures Merging(marks, operand) == Spec.OperandTree(x, old(marks), tree)
      decreases x, 0
    {
      operand := TreeOf(At(marks, x.id));
      if x.All? {
        operand := MergeAll(x.kids, operand + tree);
      }
    }

    /** `_merge_search`; the tree it narrows is handed in and out. */
    method MergeNode(n: Node, tree: Tree) returns (left: Tree)
      modifies this`marks
      ensures Merging(marks, left) == Spec.MergeNode(n, old(marks), tree)
      decreases n, 1
    {
      left := tree;
      if (n.Leaf? && n.key.SortKey?) || At(marks, n.id).merged {
        return;
      }
      match n {
        case Leaf(id, _) =>
          left := Trees.MergeAnd(tree, TreeOf(At(marks, id)));
          marks := Closed(id, marks);
        case All(_, kids) =>
          left := MergeAll(kids, tree);
        case Not_(id, kids) =>
          var copy := MergeAll(kids, TreeOf(At(marks, id)) + tree);
          var narrowed, _ := Trees.MergeNot(tree, copy);
          left := narrowed;
          marks := Closed(id, marks);
        case Or_(id, a, b) =>
          left := MergeOr(n, tree);
      }
    }

    method MergeOr(n: Node, tree: Tree) returns (left: Tree)
      requires n.Or_? && !At(marks, n.id).merged
      modifies this`marks
      ensures Merging(marks, left) == Spec.MergeNode(n, old(marks), tree)
      decreases n, 0
    {
      var x := MergeOperand(n.a, tree);
      var y := MergeOperand(n.b, tree);
      var either, _ := Trees.MergeOr(x, y);
      var own, _ := Trees.MergeOr(TreeOf(At(marks, n.id)), either);
      left := Trees.MergeAnd(tree, own);
      marks := Closed(n.id, Closed(n.a.id, Closed(n.b.id, marks)));
    }

    method MergeAll(ns: Nodes, tree: Tree) returns (left: Tree)
      modifies this`marks
      ensures Merging(marks, left) == Spec.MergeAll(ns, old(marks), tree)
      decreases ns, 1
    {
      left := tree;
      if ns.Cons? {
        left := MergeNode(ns.head, left);
        left := MergeAll(ns.tail, left);
      }
    }

    /** The pre-order traversal with `_merge_search` on the result. */
    method VisitMerge(n: Node)
      modifies this`marks, this`found
      ensures Merging(marks, found) == Spec.VisitMerge(n, Merging(old(marks), old(found)))
      decreases n, 1
    {
      found := MergeNode(n, found);
      match n {
        case Leaf(_, _) =>
        case All(_, kids) => VisitMergeAll(kids);
        case Not_(_, kids) => VisitMergeAll(kids);
        case Or_(_, a, b) =>
          VisitMerge(a);
          VisitMerge(b);
      }
    }

    method VisitMergeAll(ns: Nodes)
      modifies this`marks, this`found
      ensures Merging(marks, found) == Spec.VisitMergeAll(ns, Merging(old(marks), old(found)))
      decreases ns, 1
    {
      if ns.Cons? {
        VisitMerge(ns.head);
        VisitMergeAll(ns.tail);
      }
    }

    /** `dbmail_mailbox_search` on a fresh tree. */
    method Run(ghost w: World, s: Search)
      requires In(w)
      modifies this`found, this`marks, mbstate`total
      ensures In(w) && found == Spec.Result(w, s, true)
    {
      found, marks := mbstate.ids, map[];
      PrescanTop(w, s);
      VisitSearchAll(w, s.kids);
      VisitMergeAll(s.kids);
    }
  }
}
