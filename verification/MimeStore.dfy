/**
 Storing a MIME tree as rows with sort keys (`store_mime_object` and its helpers),
 for a database in which any of the insertions may fail.
 */
module MimeStore {
  import opened Basics
  import opened MimeTree
  import MimeRebuild
  import MimeExactly
  import MimeRoundTrip

  datatype Row = Row(key: nat, order: nat, line: Line)

  /** The counters kept in the message; `attempts` numbers the insertions. */
  datatype Cursor = Cursor(key: nat, depth: nat, order: nat, attempts: nat)

  datatype Result = Result(rows: seq<Row>, cursor: Cursor, failed: bool)

  function StoreBlob(c: Cursor, data: string, isHeader: bool, failing: set<nat>): (r: Result)
    ensures r.cursor.depth == c.depth
  {
    var at := if isHeader then c.(key := c.key + 1, order := 0) else c;
    if at.attempts in failing then Result([], at.(attempts := at.attempts + 1), true)
    else Result([Row(at.key, at.order, Line(at.depth, isHeader, data))],
                at.(order := at.order + 1, attempts := at.attempts + 1), false)
  }

  function StoreOptional(c: Cursor, o: Option<string>, failing: set<nat>): (r: Result)
    ensures r.cursor.depth == c.depth
  {
    if o.None? then Result([], c, false) else StoreBlob(c, o.value, false, failing)
  }

  function Then(a: Result, b: Result): Result {
    Result(a.rows + b.rows, b.cursor, b.failed)
  }

  /** The part depth is restored after every entity, whatever fails inside it. */
  function Store(e: Entity, c: Cursor, failing: set<nat>): (r: Result)
    ensures r.cursor.depth == c.depth
    decreases e, 1
  {
    var head := StoreBlob(c, e.head, true, failing);
    if head.failed then head else
    match e
    case Leaf(_, body) =>
      if body == "" then head else Then(head, StoreBlob(head.cursor, body, false, failing))
    case Message(_, inner) => Then(head, Store(inner, head.cursor, failing))
    case Multi(_, _, _, _, _) => StoreMulti(e, head, failing)
  }

  function StoreMulti(e: Entity, head: Result, failing: set<nat>): (r: Result)
    requires e.Multi?
    ensures r.cursor.depth == head.cursor.depth
    decreases e, 0
  {
    var prologue := Then(head, StoreOptional(head.cursor, e.prologue, failing));
    if prologue.failed then prologue else
    var at := prologue.cursor;
    var inner := StoreParts(e.parts, at.(depth := at.depth + 1, order := 0), failing);
    var back := inner.cursor.(depth := inner.cursor.depth - 1, order := inner.cursor.order + 1);
    Then(Then(prologue, inner), StoreOptional(back, e.epilogue, failing))
  }

  /** The results of the parts are ignored: a failed part does not stop the others. */
  function StoreParts(ps: Parts, c: Cursor, failing: set<nat>): (r: Result)
    ensures r.cursor.depth == c.depth
    decreases ps, 1
  {
    match ps
    case Empty => Result([], c, false)
    case More(first, rest) =>
      var one := Store(first, c, failing);
      Then(one, StoreParts(rest, one.cursor, failing))
  }

  // The sort keys.

  predicate Before(a: Row, b: Row) {
    a.key < b.key || (a.key == b.key && a.order < b.order)
  }

  predicate Increasing(rows: seq<Row>) {
    forall i, j :: 0 <= i < j < |rows| ==> Before(rows[i], rows[j])
  }

  /** The next row to be stored will sort after all of these. */
  predicate Above(c: Cursor, rows: seq<Row>) {
    forall i :: 0 <= i < |rows| ==> rows[i].key < c.key || (rows[i].key == c.key && rows[i].order < c.order)
  }

  /** It will do so once the order is raised again. */
  predicate Reached(c: Cursor, rows: seq<Row>) {
    forall i :: 0 <= i < |rows| ==> rows[i].key < c.key || (rows[i].key == c.key && rows[i].order <= c.order)
  }

  predicate KeysWithin(rows: seq<Row>, lo: nat, hi: nat) {
    forall i :: 0 <= i < |rows| ==> lo < rows[i].key <= hi
  }

  /** Rows stored from cursor `c` on: in order, with keys beyond the old one. */
  predicate InOrder(c: Cursor, r: Result) {
    && c.key < r.cursor.key && KeysWithin(r.rows, c.key, r.cursor.key)
    && Increasing(r.rows) && Reached(r.cursor, r.rows)
  }

  /** No multipart without parts has both a prologue and an epilogue. */
  predicate NoCollision(e: Entity) {
    match e
    case Leaf(_, _) => true
    case Message(_, inner) => NoCollision(inner)
    case Multi(_, _, prologue, parts, epilogue) =>
      if parts.Empty? then prologue.None? || epilogue.None? else NoCollisions(parts)
  }

  predicate NoCollisions(ps: Parts) {
    ps.More? ==> NoCollision(ps.first) && NoCollisions(ps.rest)
  }

  lemma HeadInOrder(c: Cursor, head: string, failing: set<nat>)
    ensures var r := StoreBlob(c, head, true, failing);
            InOrder(c, r) && Above(r.cursor, r.rows) && (!r.failed ==> r.cursor.order == 1)
  {
  }

  /** Another row without a key of its own. */
  lemma DataInOrder(c: Cursor, a: Result, o: Option<string>, failing: set<nat>)
    requires InOrder(c, a) && Above(a.cursor, a.rows)
    ensures var r := Then(a, StoreOptional(a.cursor, o, failing));
            && InOrder(c, r) && Above(r.cursor, r.rows) && r.cursor.key == a.cursor.key
            && r.cursor.order <= a.cursor.order + 1
  {
  }

  /** An entity after rows whose keys do not exceed the cursor's. */
  lemma EntityInOrder(c: Cursor, a: Result, d: Cursor, b: Result)
    requires InOrder(c, a) && InOrder(d, b) && d.key == a.cursor.key
    ensures InOrder(c, Then(a, b))
  {
  }

  lemma RaisedInOrder(c: Cursor, a: Result, d: Cursor)
    requires InOrder(c, a) && d.key == a.cursor.key && d.order > a.cursor.order
    ensures InOrder(c, a.(cursor := d)) && Above(d, a.rows)
  {
  }

  /** Sort keys strictly increase in storage order, even when insertions fail. */
  lemma {:induction false} StoreInOrder(e: Entity, c: Cursor, failing: set<nat>)
    requires NoCollision(e)
    ensures InOrder(c, Store(e, c, failing))
    decreases e, 1
  {
    var head := StoreBlob(c, e.head, true, failing);
    HeadInOrder(c, e.head, failing);
    if !head.failed {
      match e
      case Leaf(_, body) => DataInOrder(c, head, Some(body), failing);
      case Message(_, inner) =>
        StoreInOrder(inner, head.cursor, failing);
        EntityInOrder(c, head, head.cursor, Store(inner, head.cursor, failing));
      case Multi(_, _, _, _, _) => MultiInOrder(e, c, head, failing);
    }
  }

  lemma {:induction false} MultiInOrder(e: Entity, c: Cursor, head: Result, failing: set<nat>)
    requires e.Multi? && NoCollision(e) && InOrder(c, head) && Above(head.cursor, head.rows) && head.cursor.order == 1
    ensures InOrder(c, StoreMulti(e, head, failing))
    decreases e, 0
  {
    var prologue := Then(head, StoreOptional(head.cursor, e.prologue, failing));
    DataInOrder(c, head, e.prologue, failing);
    if !prologue.failed {
      var down := prologue.cursor.(depth := prologue.cursor.depth + 1, order := 0);
      var inner := StoreParts(e.parts, down, failing);
      var both := Then(prologue, inner);
      var back := inner.cursor.(depth := inner.cursor.depth - 1, order := inner.cursor.order + 1);
      if e.parts.More? {
        PartsInOrder(e.parts, down, failing);
        EntityInOrder(c, prologue, down, inner);
        RaisedInOrder(c, both, back);
        DataInOrder(c, both.(cursor := back), e.epilogue, failing);
      } else {
        assert both.rows == prologue.rows;
        EmptyInOrder(e, c, head, both.(cursor := back), failing);
      }
    }
  }

  /** Without parts the order falls back to that of the first row after the head. */
  lemma EmptyInOrder(e: Entity, c: Cursor, head: Result, r: Result, failing: set<nat>)
    requires e.Multi? && (e.prologue.None? || e.epilogue.None?)
    requires InOrder(c, head) && Above(head.cursor, head.rows) && head.cursor.order == 1
    requires r.rows == head.rows + StoreOptional(head.cursor, e.prologue, failing).rows
    requires r.cursor.key == head.cursor.key && r.cursor.order == 1
    ensures InOrder(c, Then(r, StoreOptional(r.cursor, e.epilogue, failing)))
  {
    if e.prologue.None? {
      assert r.rows == head.rows;
      DataInOrder(c, r, e.epilogue, failing);
    } else {
      DataInOrder(c, head, e.prologue, failing);
      assert r.rows + [] == r.rows;
    }
  }

  lemma {:induction false} PartsInOrder(ps: Parts, c: Cursor, failing: set<nat>)
    requires ps.More? && NoCollisions(ps)
    ensures InOrder(c, StoreParts(ps, c, failing))
    decreases ps, 1
  {
    var one := Store(ps.first, c, failing);
    StoreInOrder(ps.first, c, failing);
    if ps.rest.More? {
      PartsInOrder(ps.rest, one.cursor, failing);
      EntityInOrder(c, one, one.cursor, StoreParts(ps.rest, one.cursor, failing));
    } else {
      assert one.rows + [] == one.rows;
    }
  }

  // Failed parts.

  function Count(ps: Parts): nat {
    if ps.Empty? then 0 else 1 + Count(ps.rest)
  }

  lemma {:induction false} KeyAdvances(e: Entity, c: Cursor, failing: set<nat>)
    ensures Store(e, c, failing).cursor.key > c.key
    decreases e, 1
  {
    var head := StoreBlob(c, e.head, true, failing);
    if !head.failed {
      match e
      case Leaf(_, _) =>
      case Message(_, inner) => KeyAdvances(inner, head.cursor, failing);
      case Multi(_, _, _, parts, _) =>
        var at := Then(head, StoreOptional(head.cursor, e.prologue, failing)).cursor;
        EveryPartTried(parts, at.(depth := at.depth + 1, order := 0), failing);
    }
  }

  /** Each part takes a new key, whichever of the parts before it failed. */
  lemma {:induction false} EveryPartTried(ps: Parts, c: Cursor, failing: set<nat>)
    ensures StoreParts(ps, c, failing).cursor.key >= c.key + Count(ps)
    decreases ps, 0
  {
    if ps.More? {
      KeyAdvances(ps.first, c, failing);
      EveryPartTried(ps.rest, Store(ps.first, c, failing).cursor, failing);
    }
  }

  // Two rows with the same sort key.

  predicate Collide(rows: seq<Row>) {
    exists i, j :: 0 <= i < j < |rows| && !Before(rows[i], rows[j]) && !Before(rows[j], rows[i])
  }

  lemma CollideWithin(a: seq<Row>, b: seq<Row>, c: seq<Row>)
    requires Collide(b)
    ensures Collide(a + b + c)
  {
    var i, j :| 0 <= i < j < |b| && !Before(b[i], b[j]) && !Before(b[j], b[i]);
    assert (a + b + c)[|a| + i] == b[i] && (a + b + c)[|a| + j] == b[j];
  }

  /** Without parts, prologue and epilogue get the same sort key. */
  lemma EmptyMultipartCollides(e: Entity, c: Cursor)
    requires e.Multi? && e.parts.Empty? && e.prologue.Some? && e.epilogue.Some?
    ensures Collide(Store(e, c, {}).rows)
  {
    var first := StoreBlob(c, e.head, true, {});
    var rows := Store(e, c, {}).rows;
    assert rows == StoreMulti(e, first, {}).rows;
    var down := first.cursor.(depth := c.depth + 1, order := 0, attempts := c.attempts + 2);
    assert StoreParts(Empty, down, {}) == Result([], down, false);
    assert !Before(rows[1], rows[2]) && !Before(rows[2], rows[1]);
  }

  lemma {:induction false} StoreCollides(e: Entity, c: Cursor)
    requires !NoCollision(e)
    ensures Collide(Store(e, c, {}).rows)
    decreases e, 1
  {
    var head := StoreBlob(c, e.head, true, {});
    if e.Message? {
      StoreCollides(e.inner, head.cursor);
      CollideWithin(head.rows, Store(e.inner, head.cursor, {}).rows, []);
    } else if e.parts.Empty? {
      EmptyMultipartCollides(e, c);
    } else {
      MultiCollides(e, head);
    }
  }

  lemma {:induction false} MultiCollides(e: Entity, head: Result)
    requires e.Multi? && !NoCollisions(e.parts)
    ensures Collide(StoreMulti(e, head, {}).rows)
    decreases e, 0
  {
    var prologue := Then(head, StoreOptional(head.cursor, e.prologue, {}));
    var down := prologue.cursor.(depth := prologue.cursor.depth + 1, order := 0);
    var inner := StoreParts(e.parts, down, {});
    var back := inner.cursor.(depth := inner.cursor.depth - 1, order := inner.cursor.order + 1);
    PartsCollide(e.parts, down);
    CollideWithin(prologue.rows, inner.rows, StoreOptional(back, e.epilogue, {}).rows);
  }

  lemma {:induction false} PartsCollide(ps: Parts, c: Cursor)
    requires !NoCollisions(ps)
    ensures Collide(StoreParts(ps, c, {}).rows)
    decreases ps, 1
  {
    var one := Store(ps.first, c, {});
    var rest := StoreParts(ps.rest, one.cursor, {});
    if NoCollision(ps.first) {
      PartsCollide(ps.rest, one.cursor);
      CollideWithin(one.rows, rest.rows, []);
      assert one.rows + rest.rows + [] == one.rows + rest.rows;
    } else {
      StoreCollides(ps.first, c);
      CollideWithin([], one.rows, rest.rows);
      assert [] + one.rows + rest.rows == one.rows + rest.rows;
    }
  }

  /**
   Stored without failures, the sort keys strictly increase if and only if no multipart
   without parts has both a prologue and an epilogue.
   */
  lemma OrderExactly(e: Entity, c: Cursor)
    ensures Increasing(Store(e, c, {}).rows) <==> NoCollision(e)
  {
    if NoCollision(e) {
      StoreInOrder(e, c, {});
    } else {
      StoreCollides(e, c);
      CollideNotIncreasing(Store(e, c, {}).rows);
    }
  }

  lemma CollideNotIncreasing(rows: seq<Row>)
    requires Collide(rows)
    ensures !Increasing(rows)
  {
  }

  /** The retrieval order: by key, then by order. */
  predicate Sorted(rows: seq<Row>) {
    forall i, j :: 0 <= i < j < |rows| ==> !Before(rows[j], rows[i])
  }

  /** Sorting rows with strictly increasing keys reproduces storage order. */
  lemma {:induction false} SortRestores(stored: seq<Row>, fetched: seq<Row>)
    requires Increasing(stored) && Sorted(fetched) && multiset(stored) == multiset(fetched)
    ensures fetched == stored
  {
    if stored == [] {
      assert multiset(fetched) == multiset{};
      assert |fetched| == |multiset(fetched)|;
    } else {
      assert |multiset(stored)| == |stored| && |multiset(fetched)| == |fetched|;
      SameFirst(stored, fetched);
      TailRows(stored);
      TailRows(fetched);
      SortRestores(stored[1..], fetched[1..]);
    }
  }

  /** The smallest row comes first in both. */
  lemma SameFirst(stored: seq<Row>, fetched: seq<Row>)
    requires Increasing(stored) && Sorted(fetched) && multiset(stored) == multiset(fetched)
    requires stored != [] && fetched != []
    ensures stored[0] == fetched[0]
  {
    assert stored[0] in multiset(fetched) && fetched[0] in multiset(stored);
    var k :| 0 <= k < |fetched| && fetched[k] == stored[0];
    var j :| 0 <= j < |stored| && stored[j] == fetched[0];
    assert j > 0 ==> Before(stored[0], stored[j]);
    assert k > 0 ==> !Before(fetched[k], fetched[0]);
  }

  lemma TailRows(rows: seq<Row>)
    requires rows != []
    ensures multiset(rows[1..]) == multiset(rows) - multiset{rows[0]}
  {
    assert rows == [rows[0]] + rows[1..];
  }

  // Without failures the rows are the lines of the tree.

  function LinesOf(rows: seq<Row>): seq<Line> {
    seq(|rows|, i requires 0 <= i < |rows| => rows[i].line)
  }

  lemma LinesOfConcat(a: seq<Row>, b: seq<Row>)
    ensures LinesOf(a + b) == LinesOf(a) + LinesOf(b)
  {
  }

  lemma OptionalLines(c: Cursor, o: Option<string>)
    ensures LinesOf(StoreOptional(c, o, {}).rows) == OptionalLine(c.depth, o)
    ensures !StoreOptional(c, o, {}).failed
  {
  }

  lemma {:induction false} StoreLines(e: Entity, c: Cursor)
    ensures LinesOf(Store(e, c, {}).rows) == Lines(e, c.depth)
    decreases e, 1
  {
    var head := StoreBlob(c, e.head, true, {});
    assert LinesOf(head.rows) == [Line(c.depth, true, e.head)];
    match e
    case Leaf(_, body) =>
      if body != "" {
        LinesOfConcat(head.rows, StoreBlob(head.cursor, body, false, {}).rows);
      }
    case Message(_, inner) =>
      StoreLines(inner, head.cursor);
      LinesOfConcat(head.rows, Store(inner, head.cursor, {}).rows);
    case Multi(_, _, prologue, parts, epilogue) =>
      OptionalLines(head.cursor, prologue);
      var p := StoreOptional(head.cursor, prologue, {});
      LinesOfConcat(head.rows, p.rows);
      var inner := StoreParts(parts, p.cursor.(depth := p.cursor.depth + 1, order := 0), {});
      PartsStoreLines(parts, p.cursor.(depth := p.cursor.depth + 1, order := 0));
      LinesOfConcat(head.rows + p.rows, inner.rows);
      var back := inner.cursor.(depth := inner.cursor.depth - 1, order := inner.cursor.order + 1);
      OptionalLines(back, epilogue);
      LinesOfConcat(head.rows + p.rows + inner.rows, StoreOptional(back, epilogue, {}).rows);
  }

  lemma {:induction false} PartsStoreLines(ps: Parts, c: Cursor)
    ensures LinesOf(StoreParts(ps, c, {}).rows) == PartsLines(ps, c.depth)
    decreases ps, 1
  {
    if ps.More? {
      var one := Store(ps.first, c, {});
      StoreLines(ps.first, c);
      PartsStoreLines(ps.rest, one.cursor);
      LinesOfConcat(one.rows, StoreParts(ps.rest, one.cursor, {}).rows);
    }
  }

  lemma {:induction false} ConsistentOrdered(h: Headers, e: Entity)
    requires Consistent(h, e)
    ensures NoCollision(e)
  {
    match e
    case Leaf(_, _) =>
    case Message(_, inner) => ConsistentOrdered(h, inner);
    case Multi(_, _, _, parts, _) => AllConsistentOrdered(h, parts);
  }

  lemma {:induction false} AllConsistentOrdered(h: Headers, ps: Parts)
    requires PartsConsistent(h, ps)
    ensures NoCollisions(ps)
  {
    if ps.More? {
      ConsistentOrdered(h, ps.first);
      AllConsistentOrdered(h, ps.rest);
    }
  }

  /**
   The whole way: store the tree, fetch its rows in the order of the query, rebuild.
   The text comes back exactly when every row finds what it needs and what is open at
   the end is closed.
   */
  lemma StoredRoundTrip(h: Headers, e: Entity, start: Cursor, fetched: seq<Row>)
    requires Consistent(h, e) && MimeExactly.Proper(h, e) && Height(e) <= MAX_MIME_DEPTH && start.depth == 0
    requires Sorted(fetched) && multiset(fetched) == multiset(Store(e, start, {}).rows)
    ensures MimeRebuild.Rebuilt(h, LinesOf(fetched)) == Text(e) <==>
            Separated(e) && Bodied(e) && MimeRoundTrip.LastClosed(e)
  {
    ConsistentOrdered(h, e);
    StoreInOrder(e, start, {});
    SortRestores(Store(e, start, {}).rows, fetched);
    StoreLines(e, start);
    MimeExactly.RoundTripExactly(h, e);
  }

  /** The message object whose counters the recursion updates. */
  class MessageStore {
    var key: nat
    var depth: nat
    var order: nat
    var attempts: nat
    var rows: seq<Row>
    const failing: set<nat>

    constructor (failing: set<nat>)
      ensures At() == Cursor(0, 0, 0, 0) && rows == [] && this.failing == failing
    {
      key, depth, order, attempts, rows := 0, 0, 0, 0, [];
      this.failing := failing;
    }

    ghost function At(): Cursor
      reads this
    {
      Cursor(key, depth, order, attempts)
    }

    /** The effect of a stored piece on the counters and the table. */
    ghost predicate Stored(before: seq<Row>, r: Result)
      reads this
    {
      At() == r.cursor && rows == before + r.rows
    }

    method Blob(data: string, isHeader: bool) returns (failed: bool)
      modifies this
      ensures Stored(old(rows), StoreBlob(old(At()), data, isHeader, failing))
      ensures failed == StoreBlob(old(At()), data, isHeader, failing).failed
    {
      if isHeader {
        key := key + 1;
        order := 0;
      }
      failed := attempts in failing;
      attempts := attempts + 1;
      if failed {
        return;
      }
      rows := rows + [Row(key, order, Line(depth, isHeader, data))];
      order := order + 1;
    }

    method Optional(o: Option<string>) returns (failed: bool)
      modifies this
      ensures Stored(old(rows), StoreOptional(old(At()), o, failing))
      ensures failed == StoreOptional(old(At()), o, failing).failed
    {
      if o.None? {
        return false;
      }
      failed := Blob(o.value, false);
    }

    method Object(e: Entity) returns (failed: bool)
      modifies this
      ensures Stored(old(rows), Store(e, old(At()), failing))
      ensures failed == Store(e, old(At()), failing).failed
      decreases e, 1
    {
      failed := Blob(e.head, true);
      if failed {
        return;
      }
      match e {
        case Leaf(_, body) =>
          if body != "" {
            failed := Blob(body, false);
          }
        case Message(_, inner) =>
          failed := Object(inner);
        case Multi(_, _, _, _, _) =>
          ghost var r := StoreBlob(old(At()), e.head, true, failing);
          failed := Multipart(e, r, old(rows));
      }
    }

    method Multipart(e: Entity, ghost head: Result, ghost before: seq<Row>) returns (failed: bool)
      requires e.Multi? && Stored(before, head)
      modifies this
      ensures Stored(before, StoreMulti(e, head, failing))
      ensures failed == StoreMulti(e, head, failing).failed
      decreases e, 0
    {
      failed := Optional(e.prologue);
      if failed {
        return;
      }
      depth, order := depth + 1, 0;
      EachPart(e.parts);
      depth, order := depth - 1, order + 1;
      failed := Optional(e.epilogue);
    }

    /** The loop over the parts, which ignores their results. */
    method EachPart(ps: Parts)
      modifies this
      ensures Stored(old(rows), StoreParts(ps, old(At()), failing))
      decreases ps, 1
    {
      var left := ps;
      ghost var before, whole := rows, StoreParts(ps, At(), failing);
      while left.More?
        invariant left == ps || left < ps
        invariant rows + StoreParts(left, At(), failing).rows == before + whole.rows
        invariant StoreParts(left, At(), failing).cursor == whole.cursor
        decreases left
      {
        ghost var one := Store(left.first, At(), failing);
        ghost var more := StoreParts(left.rest, one.cursor, failing);
        assert rows + (one.rows + more.rows) == rows + one.rows + more.rows;
        var _ := Object(left.first);
        left := left.rest;
      }
      assert rows + [] == rows;
    }
  }
}
