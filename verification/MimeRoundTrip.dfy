/**
 Flattening a MIME tree and rebuilding it gives back the serialised text.
 */
module MimeRoundTrip {
  import opened Basics
  import opened MimeTree
  import opened MimeRebuild

  // The slot table as a stack of open boundaries.

  const SLOTS: nat := MAX_MIME_DEPTH + 1

  function Filled(stack: seq<string>): seq<string>
    requires |stack| <= SLOTS
  {
    stack + Slots(SLOTS - |stack|)
  }

  predicate AllOpen(stack: seq<string>) {
    forall i :: 0 <= i < |stack| ==> stack[i] != ""
  }

  lemma ClearedFilled(stack: seq<string>)
    requires 0 < |stack| <= SLOTS
    ensures Cleared(Filled(stack), |stack| - 1) == Filled(stack[..|stack| - 1])
  {
  }

  lemma CloseLast(stack: seq<string>, depth: nat)
    requires depth < |stack|
    ensures CloseAll(stack[depth..]) == Close(stack[|stack| - 1]) + CloseAll(stack[..|stack| - 1][depth..])
  {
    var open := stack[depth..];
    assert open[..|open| - 1] == stack[..|stack| - 1][depth..];
  }

  lemma {:induction false} ClosingFilled(stack: seq<string>, depth: nat)
    requires AllOpen(stack) && depth <= |stack| <= SLOTS
    ensures ClosingText(Filled(stack), |stack|, depth) == CloseAll(stack[depth..])
    ensures ClosedSlots(Filled(stack), |stack|, depth) == Filled(stack[..depth])
    decreases |stack|
  {
    if depth < |stack| {
      ClosingFilled(stack[..|stack| - 1], depth);
      CloseOne(stack, depth);
    } else {
      assert stack[..depth] == stack && stack[depth..] == [];
    }
  }

  /** One level is closed, and the others wait as before. */
  lemma CloseOne(stack: seq<string>, depth: nat)
    requires AllOpen(stack) && depth < |stack| <= SLOTS
    ensures var n, shorter := |stack|, stack[..|stack| - 1];
            && ClosingText(Filled(stack), n, depth) == Close(stack[n - 1]) + ClosingText(Filled(shorter), n - 1, depth)
            && ClosedSlots(Filled(stack), n, depth) == ClosedSlots(Filled(shorter), n - 1, depth)
            && CloseAll(stack[depth..]) == Close(stack[n - 1]) + CloseAll(shorter[depth..])
            && shorter[..depth] == stack[..depth]
  {
    var n := |stack|;
    ClearedFilled(stack);
    CloseLast(stack, depth);
    assert Filled(stack)[n - 1] == stack[n - 1];
    assert MustClose(Filled(stack), n, depth);
  }

  /** The boundaries in `stack` are open; those from `depth` on wait to be closed. */
  predicate Ready(st: State, stack: seq<string>, depth: nat) {
    && AllOpen(stack) && depth <= |stack| <= SLOTS && st.blist == Filled(stack)
    && (if |stack| > depth then st.depth == |stack| else st.depth <= depth)
  }

  lemma ReadyCloses(st: State, stack: seq<string>, depth: nat)
    requires Ready(st, stack, depth)
    ensures ClosingText(st.blist, st.depth, depth) == CloseAll(stack[depth..])
    ensures ClosedSlots(st.blist, st.depth, depth) == Filled(stack[..depth])
  {
    if |stack| > depth {
      ClosingFilled(stack, depth);
    } else {
      assert stack[..depth] == stack && stack[depth..] == [];
    }
  }

  predicate Placed(st: State, depth: nat, place: Place) {
    match place
    case First => st.isHeader && !st.isMessage && depth > 0
    case Later => !st.isHeader && depth > 0
    case Inside => st.isHeader && !st.gotBoundary && (depth == 0 || st.isMessage)
  }

  function Parent(stack: seq<string>, depth: nat): string
    requires depth <= |stack|
  {
    if depth > 0 then stack[depth - 1] else ""
  }

  lemma PlacedDelimiter(st: State, depth: nat, place: Place, boundary: string)
    requires Placed(st, depth, place)
    ensures DelimiterText(st.isHeader, st.isMessage, st.gotBoundary, depth, boundary) == Delimiter(place, boundary)
  {
  }

  // Single rows.

  /** The state after a row that leaves `stack` open. */
  predicate After(t: State, stack: seq<string>, depth: nat, isHeader: bool) {
    && |stack| <= SLOTS && t.blist == Filled(stack) && t.depth == depth && t.isHeader == isHeader
  }

  lemma PlainHead(h: Headers, st: State, stack: seq<string>, depth: nat, place: Place, head: string)
    requires Ready(st, stack, depth) && Placed(st, depth, place) && depth <= MAX_MIME_DEPTH
    requires h.boundary(head) == None
    ensures var t := Step(h, st, Line(depth, true, head));
            && t.out == st.out + CloseAll(stack[depth..]) + Delimiter(place, Parent(stack, depth)) + (head + "\n")
            && After(t, stack[..depth], depth, true) && !t.gotBoundary && t.rows == st.rows + 1
            && t.isMessage == if h.isMessage(head).Some? then h.isMessage(head).value else st.isMessage
  {
    ReadyCloses(st, stack, depth);
    var own := DeclaredBoundary(h, st.boundary, Line(depth, true, head));
    var b := Current(Filled(stack[..depth]), depth, own);
    PlacedDelimiter(st, depth, place, b);
    assert depth > 0 ==> b == Parent(stack, depth);
  }

  lemma MultiHead(h: Headers, st: State, stack: seq<string>, depth: nat, place: Place, head: string, boundary: string)
    requires Ready(st, stack, depth) && |stack| == depth && Placed(st, depth, place) && depth < MAX_MIME_DEPTH
    requires h.boundary(head) == Some(boundary) && 0 < |boundary| < MAX_MIME_BLEN && h.isMessage(head) == Some(false)
    ensures var t := Step(h, st, Line(depth, true, head));
            && t.out == st.out + Delimiter(place, Parent(stack, depth)) + (head + "\n")
            && After(t, stack + [boundary], depth, true) && t.rows == st.rows + 1 && !t.isMessage
  {
    var line := Line(depth, true, head);
    assert Declared(h, st.blist, line) == Filled(stack + [boundary]);
    assert !MustClose(Filled(stack + [boundary]), st.depth, depth);
    var b := Current(Filled(stack + [boundary]), depth, boundary);
    PlacedDelimiter(st, depth, place, b);
    assert depth > 0 ==> b == Parent(stack, depth);
    assert st.out + "" == st.out;
  }

  lemma DataRow(h: Headers, st: State, stack: seq<string>, depth: nat, data: string)
    requires Ready(st, stack, depth) && depth <= MAX_MIME_DEPTH
    ensures var t := Step(h, st, Line(depth, false, data));
            && t.out == st.out + CloseAll(stack[depth..]) + data
            && After(t, stack[..depth], depth, false) && t.rows == st.rows + 1 && t.isMessage == st.isMessage
  {
    ReadyCloses(st, stack, depth);
    assert st.out + CloseAll(stack[depth..]) + "" == st.out + CloseAll(stack[depth..]);
  }

  // Sequences of rows.

  lemma {:induction false} StepsConcat(h: Headers, st: State, a: seq<Line>, b: seq<Line>)
    ensures Steps(h, st, a + b) == Steps(h, Steps(h, st, a), b)
  {
    if b == [] {
      assert a + b == a;
    } else {
      var n := |b| - 1;
      assert (a + b)[..|a| + n] == a + b[..n];
      StepsConcat(h, st, a, b[..n]);
    }
  }

  lemma OneStep(h: Headers, st: State, line: Line)
    ensures Steps(h, st, [line]) == Step(h, st, line)
  {
    assert [line][..0] == [];
    assert Steps(h, st, []) == st;
  }

  lemma {:induction false} StillOpenBounded(h: Headers, e: Entity)
    requires Consistent(h, e)
    ensures AllOpen(StillOpen(e)) && |StillOpen(e)| <= Height(e)
  {
    match e
    case Leaf(_, _) =>
    case Message(_, inner) => StillOpenBounded(h, inner);
    case Multi(_, _, _, parts, _) => PartsStillOpenBounded(h, parts);
  }

  lemma {:induction false} PartsStillOpenBounded(h: Headers, ps: Parts)
    requires PartsConsistent(h, ps)
    ensures AllOpen(PartsStillOpen(ps)) && |PartsStillOpen(ps)| <= PartsHeight(ps)
  {
    if ps.More? {
      StillOpenBounded(h, ps.first);
      PartsStillOpenBounded(h, ps.rest);
    }
  }

  // Whole entities.

  /** All that surrounds an entity when its first row comes. */
  predicate Starts(st: State, e: Entity, stack: seq<string>, depth: nat, place: Place) {
    && Ready(st, stack, depth) && Placed(st, depth, place)
    && (e.Multi? ==> |stack| == depth)
    && depth + Height(e) <= MAX_MIME_DEPTH
  }

  predicate Fits(h: Headers, e: Entity) {
    Consistent(h, e) && Bodied(e) && Separated(e)
  }

  predicate PartsFit(h: Headers, ps: Parts) {
    PartsConsistent(h, ps) && PartsBodied(ps) && PartsSeparated(ps)
  }

  /** The rows of `e` have been turned into its open text, after whatever was due before it. */
  predicate Emitted(st: State, t: State, e: Entity, stack: seq<string>, depth: nat, place: Place)
    requires depth <= |stack|
  {
    && t.out == st.out + CloseAll(stack[depth..]) + Delimiter(place, Parent(stack, depth)) + OpenText(e)
    && After(t, stack[..depth] + StillOpen(e), depth + |StillOpen(e)|, EndsBare(e))
    && t.rows == st.rows + |Lines(e, depth)|
  }

  predicate PartsEmitted(st: State, t: State, ps: Parts, stack: seq<string>, depth: nat, place: Place)
    requires 0 < depth <= |stack|
  {
    && t.out == st.out + CloseAll(stack[depth..]) + OpenPartsText(ps, stack[depth - 1], place)
    && After(t, stack[..depth] + PartsStillOpen(ps), depth + |PartsStillOpen(ps)|, PartsEndBare(ps))
    && t.rows == st.rows + |PartsLines(ps, depth)|
  }

  lemma LeafEmitted(h: Headers, st: State, e: Entity, stack: seq<string>, depth: nat, place: Place)
    requires e.Leaf? && Fits(h, e) && Starts(st, e, stack, depth, place)
    ensures Emitted(st, Steps(h, st, Lines(e, depth)), e, stack, depth, place)
  {
    var head, body := Line(depth, true, e.head), Line(depth, false, e.body);
    var t := Step(h, st, head);
    PlainHead(h, st, stack, depth, place, e.head);
    OneStep(h, st, head);
    assert stack[..depth] + [] == stack[..depth];
    if e.body == "" {
      assert [head] + [] == [head] && e.head + "\n" + "" == e.head + "\n";
    } else {
      BodyRow(h, st, t, e, stack, depth, place);
    }
  }

  lemma BodyRow(h: Headers, st: State, t: State, e: Entity, stack: seq<string>, depth: nat, place: Place)
    requires e.Leaf? && e.body != "" && Fits(h, e) && Starts(st, e, stack, depth, place)
    requires t == Step(h, st, Line(depth, true, e.head)) && t.rows == st.rows + 1
    requires After(t, stack[..depth], depth, true)
    requires t.out == st.out + CloseAll(stack[depth..]) + Delimiter(place, Parent(stack, depth)) + (e.head + "\n")
    ensures Emitted(st, Steps(h, st, Lines(e, depth)), e, stack, depth, place)
  {
    var head, body := Line(depth, true, e.head), Line(depth, false, e.body);
    DataRow(h, t, stack[..depth], depth, e.body);
    StepsConcat(h, st, [head], [body]);
    OneStep(h, st, head);
    OneStep(h, t, body);
    var front := st.out + CloseAll(stack[depth..]) + Delimiter(place, Parent(stack, depth));
    assert stack[..depth][depth..] == [] && stack[..depth][..depth] == stack[..depth];
    assert stack[..depth] + [] == stack[..depth];
    assert t.out + "" == t.out;
    Assoc(front, e.head + "\n", e.body);
  }

  lemma {:induction false} EntityEmitted(h: Headers, st: State, e: Entity, stack: seq<string>, depth: nat, place: Place)
    requires Fits(h, e) && Starts(st, e, stack, depth, place)
    ensures Emitted(st, Steps(h, st, Lines(e, depth)), e, stack, depth, place)
    decreases e, 1
  {
    match e
    case Leaf(_, _) => LeafEmitted(h, st, e, stack, depth, place);
    case Message(_, _) => MessageEmitted(h, st, e, stack, depth, place);
    case Multi(_, _, _, _, _) => MultiEmitted(h, st, e, stack, depth, place);
  }

  lemma {:induction false} MessageEmitted(h: Headers, st: State, e: Entity, stack: seq<string>, depth: nat,
                                          place: Place)
    requires e.Message? && Fits(h, e) && Starts(st, e, stack, depth, place)
    ensures Emitted(st, Steps(h, st, Lines(e, depth)), e, stack, depth, place)
    decreases e, 0
  {
    var head := Line(depth, true, e.head);
    var t := Step(h, st, head);
    var base := stack[..depth];
    PlainHead(h, st, stack, depth, place, e.head);
    EntityEmitted(h, t, e.inner, base, depth, Inside);
    StepsConcat(h, st, [head], Lines(e.inner, depth));
    OneStep(h, st, head);
    var front := st.out + CloseAll(stack[depth..]) + Delimiter(place, Parent(stack, depth));
    assert base[depth..] == [] && base[..depth] == base;
    assert t.out + "" + "" == t.out;
    Assoc(front, e.head + "\n", OpenText(e.inner));
  }

  /** The optional row between the head and the first part. */
  lemma PrologueRow(h: Headers, st: State, stack: seq<string>, depth: nat, prologue: Option<string>)
    requires After(st, stack, depth, true) && AllOpen(stack) && |stack| == depth + 1 && depth <= MAX_MIME_DEPTH
    requires !st.isMessage
    ensures var t := Steps(h, st, OptionalLine(depth, prologue));
            && t.out == st.out + TextOr(prologue)
            && After(t, stack, depth, prologue.None?) && t.rows == st.rows + |OptionalLine(depth, prologue)|
            && Placed(t, depth + 1, PlaceAfter(prologue)) && Ready(t, stack, depth + 1)
  {
    if prologue.Some? {
      var line := Line(depth, false, prologue.value);
      OneStep(h, st, line);
      assert !MustClose(st.blist, st.depth, depth);
      assert st.out + "" + "" == st.out;
    } else {
      assert st.out + "" == st.out;
    }
  }

  /** The optional row after the last part; it closes all that is open from its depth on. */
  lemma EpilogueRow(h: Headers, st: State, stack: seq<string>, depth: nat, epilogue: Option<string>)
    requires AllOpen(stack) && depth < |stack| && After(st, stack, |stack|, st.isHeader) && depth <= MAX_MIME_DEPTH
    ensures var t := Steps(h, st, OptionalLine(depth, epilogue));
            && t.out == st.out + (if epilogue.Some? then CloseAll(stack[depth..]) + epilogue.value else "")
            && t.rows == st.rows + |OptionalLine(depth, epilogue)|
            && (if epilogue.Some? then After(t, stack[..depth], depth, false) else t == st)
  {
    if epilogue.Some? {
      OneStep(h, st, Line(depth, false, epilogue.value));
      DataRow(h, st, stack, depth, epilogue.value);
      Assoc(st.out, CloseAll(stack[depth..]), epilogue.value);
    } else {
      assert st.out + "" == st.out;
    }
  }

  lemma MultiRows(h: Headers, st: State, e: Entity, depth: nat)
    requires e.Multi?
    ensures var t1 := Step(h, st, Line(depth, true, e.head));
            var t2 := Steps(h, t1, OptionalLine(depth, e.prologue));
            var t3 := Steps(h, t2, PartsLines(e.parts, depth + 1));
            Steps(h, st, Lines(e, depth)) == Steps(h, t3, OptionalLine(depth, e.epilogue))
  {
    var head := [Line(depth, true, e.head)];
    var prologue, parts := OptionalLine(depth, e.prologue), PartsLines(e.parts, depth + 1);
    var epilogue := OptionalLine(depth, e.epilogue);
    OneStep(h, st, head[0]);
    StepsConcat(h, st, head, prologue);
    StepsConcat(h, st, head + prologue, parts);
    StepsConcat(h, st, head + prologue + parts, epilogue);
  }

  lemma {:induction false} MultiEmitted(h: Headers, st: State, e: Entity, stack: seq<string>, depth: nat, place: Place)
    requires e.Multi? && Fits(h, e) && Starts(st, e, stack, depth, place)
    ensures Emitted(st, Steps(h, st, Lines(e, depth)), e, stack, depth, place)
    decreases e, 0
  {
    var inner := stack + [e.boundary];
    MultiStart(h, st, e, stack, depth, place);
    var t1 := Step(h, st, Line(depth, true, e.head));
    var t2 := Steps(h, t1, OptionalLine(depth, e.prologue));
    PartsAreEmitted(h, t2, e.parts, inner, depth + 1, PlaceAfter(e.prologue));
    MultiFinish(h, st, t2, Steps(h, t2, PartsLines(e.parts, depth + 1)), e, stack, depth, place);
    MultiRows(h, st, e, depth);
  }

  lemma MultiFinish(h: Headers, st: State, t2: State, t3: State, e: Entity, stack: seq<string>, depth: nat,
                    place: Place)
    requires e.Multi? && Consistent(h, e) && Starts(st, e, stack, depth, place)
    requires t2.out == st.out + Delimiter(place, Parent(stack, depth)) + (e.head + "\n") + TextOr(e.prologue)
    requires t2.rows == st.rows + 1 + |OptionalLine(depth, e.prologue)|
    requires PartsEmitted(t2, t3, e.parts, stack + [e.boundary], depth + 1, PlaceAfter(e.prologue))
    ensures Emitted(st, Steps(h, t3, OptionalLine(depth, e.epilogue)), e, stack, depth, place)
  {
    var inner := stack + [e.boundary];
    assert inner[..depth + 1] == inner && inner[depth + 1..] == [];
    PartsStillOpenBounded(h, e.parts);
    MultiCompleted(h, st, t3, e, stack, depth, place);
  }

  /** The head and the prologue of a multipart: its parts can start. */
  lemma MultiStart(h: Headers, st: State, e: Entity, stack: seq<string>, depth: nat, place: Place)
    requires e.Multi? && Consistent(h, e) && Starts(st, e, stack, depth, place)
    ensures var t1 := Step(h, st, Line(depth, true, e.head));
            var t2 := Steps(h, t1, OptionalLine(depth, e.prologue));
            var inner := stack + [e.boundary];
            && t2.out == st.out + Delimiter(place, Parent(stack, depth)) + (e.head + "\n") + TextOr(e.prologue)
            && t2.rows == st.rows + 1 + |OptionalLine(depth, e.prologue)|
            && Placed(t2, depth + 1, PlaceAfter(e.prologue)) && Ready(t2, inner, depth + 1)
  {
    MultiHead(h, st, stack, depth, place, e.head, e.boundary);
    PrologueRow(h, Step(h, st, Line(depth, true, e.head)), stack + [e.boundary], depth, e.prologue);
  }

  lemma MultiCompleted(h: Headers, st: State, t: State, e: Entity, stack: seq<string>, depth: nat, place: Place)
    requires e.Multi? && |stack| == depth <= MAX_MIME_DEPTH
    requires AllOpen(stack + [e.boundary] + PartsStillOpen(e.parts))
    requires After(t, stack + [e.boundary] + PartsStillOpen(e.parts), depth + 1 + |PartsStillOpen(e.parts)|,
                   PartsEndBare(e.parts))
    requires t.out == st.out + Delimiter(place, Parent(stack, depth)) + (e.head + "\n") + TextOr(e.prologue) + ""
                      + OpenPartsText(e.parts, e.boundary, PlaceAfter(e.prologue))
    requires t.rows == st.rows + 1 + |OptionalLine(depth, e.prologue)| + |PartsLines(e.parts, depth + 1)|
    ensures Emitted(st, Steps(h, t, OptionalLine(depth, e.epilogue)), e, stack, depth, place)
  {
    EpilogueRow(h, t, stack + [e.boundary] + PartsStillOpen(e.parts), depth, e.epilogue);
    MultiStacks(stack, e.boundary, PartsStillOpen(e.parts));
    MultiText(st.out, stack, depth, place, e);
  }

  lemma MultiStacks(stack: seq<string>, boundary: string, still: seq<string>)
    ensures var all := stack + [boundary] + still;
            && all[|stack|..] == [boundary] + still && all[..|stack|] == stack
            && stack[|stack|..] == [] && stack[..|stack|] == stack
            && stack + ([boundary] + still) == all && stack + [] == stack
  {
  }

  /** The pieces of a multipart put together. */
  lemma MultiText(out: string, stack: seq<string>, depth: nat, place: Place, e: Entity)
    requires e.Multi? && depth == |stack|
    ensures var front := out + Delimiter(place, Parent(stack, depth));
            var body := OpenPartsText(e.parts, e.boundary, PlaceAfter(e.prologue));
            var closing := CloseAll([e.boundary] + PartsStillOpen(e.parts));
            out + CloseAll(stack[depth..]) + Delimiter(place, Parent(stack, depth)) + OpenText(e) ==
            front + (e.head + "\n") + TextOr(e.prologue) + "" + body +
            (if e.epilogue.Some? then closing + e.epilogue.value else "")
  {
    var front := out + Delimiter(place, Parent(stack, depth));
    var body := OpenPartsText(e.parts, e.boundary, PlaceAfter(e.prologue));
    var closing := CloseAll([e.boundary] + PartsStillOpen(e.parts));
    assert stack[depth..] == [];
    assert out + "" == out;
    var start := e.head + "\n" + TextOr(e.prologue);
    Assoc(front, e.head + "\n", TextOr(e.prologue));
    assert front + start + "" == front + start;
    Assoc(front, start, body);
    if e.epilogue.Some? {
      Assoc(start + body, closing, e.epilogue.value);
      Assoc(front, start + body, closing + e.epilogue.value);
    } else {
      assert front + (start + body) + "" == front + (start + body);
    }
  }

  /** The last part ends the list. */
  lemma LastPart(st: State, t: State, ps: Parts, stack: seq<string>, depth: nat, place: Place)
    requires 0 < depth <= |stack| && ps.More? && ps.rest.Empty?
    requires Emitted(st, t, ps.first, stack, depth, place)
    ensures PartsEmitted(st, t, ps, stack, depth, place)
  {
    var front := st.out + CloseAll(stack[depth..]);
    var piece := Delimiter(place, stack[depth - 1]) + OpenText(ps.first);
    Assoc(front, Delimiter(place, stack[depth - 1]), OpenText(ps.first));
    assert piece + "" == piece;
  }

  /** A part and then the others, which close what it left open. */
  lemma PartThenRest(st: State, t: State, u: State, ps: Parts, stack: seq<string>, depth: nat, place: Place)
    requires 0 < depth <= |stack| && ps.More? && ps.rest.More?
    requires Emitted(st, t, ps.first, stack, depth, place)
    requires PartsEmitted(t, u, ps.rest, stack[..depth] + StillOpen(ps.first), depth, Later)
    ensures PartsEmitted(st, u, ps, stack, depth, place)
  {
    var next := stack[..depth] + StillOpen(ps.first);
    assert next[depth..] == StillOpen(ps.first) && next[..depth] == stack[..depth];
    var front := st.out + CloseAll(stack[depth..]);
    var piece := Delimiter(place, stack[depth - 1]) + OpenText(ps.first);
    var closing, more := CloseAll(StillOpen(ps.first)), OpenPartsText(ps.rest, stack[depth - 1], Later);
    Assoc(front, Delimiter(place, stack[depth - 1]), OpenText(ps.first));
    Assoc(front + piece, closing, more);
    Assoc(front, piece, closing + more);
  }

  lemma {:induction false} PartsAreEmitted(h: Headers, st: State, ps: Parts, stack: seq<string>, depth: nat,
                                           place: Place)
    requires ps.More? && PartsFit(h, ps) && 0 < depth && Ready(st, stack, depth) && Placed(st, depth, place)
    requires ps.first.Multi? ==> |stack| == depth
    requires depth + PartsHeight(ps) <= MAX_MIME_DEPTH
    ensures PartsEmitted(st, Steps(h, st, PartsLines(ps, depth)), ps, stack, depth, place)
    decreases ps, 1
  {
    var first, rest := ps.first, ps.rest;
    EntityEmitted(h, st, first, stack, depth, place);
    var t := Steps(h, st, Lines(first, depth));
    StepsConcat(h, st, Lines(first, depth), PartsLines(rest, depth));
    var next := stack[..depth] + StillOpen(first);
    StillOpenBounded(h, first);
    if rest.Empty? {
      assert Steps(h, t, []) == t;
      LastPart(st, t, ps, stack, depth, place);
    } else {
      PartsAreEmitted(h, t, rest, next, depth, Later);
      PartThenRest(st, t, Steps(h, t, PartsLines(rest, depth)), ps, stack, depth, place);
    }
  }

  // The round trip.

  lemma InitialReady()
    ensures Ready(Initial(), [], 0) && Placed(Initial(), 0, Inside)
  {
    assert Filled([]) == Initial().blist;
  }

  /** All rows processed: the open text is out, and what is still open is in the table. */
  lemma RowsEmitted(h: Headers, e: Entity)
    requires Fits(h, e) && Height(e) <= MAX_MIME_DEPTH
    ensures var t := Steps(h, Initial(), Lines(e, 0));
            && t.out == OpenText(e) && |StillOpen(e)| <= SLOTS
            && t.blist == Filled(StillOpen(e)) && t.rows == |Lines(e, 0)|
  {
    InitialReady();
    EntityEmitted(h, Initial(), e, [], 0, Inside);
    assert [][..0] + StillOpen(e) == StillOpen(e);
    assert "" + "" + "" + OpenText(e) == OpenText(e);
  }

  /** The last delimiter completes the text if one boundary is open, and cannot if more are. */
  lemma LastDelimiter(open: string, still: seq<string>)
    requires |still| > 0
    ensures open + Close(still[0]) == open + CloseAll(still) <==> |still| == 1
  {
    assert still == [still[0]] + still[1..];
    CloseAllOuter(still[0], still[1..]);
    CloseAllLength(still[1..]);
    if |still| == 1 {
      assert CloseAll(still[1..]) == "";
      assert "" + Close(still[0]) == Close(still[0]);
    }
  }

  /**
   What is open after the last row is closed: nothing, or one boundary, which is
   closed only if there were more than two rows.
   */
  predicate LastClosed(e: Entity) {
    StillOpen(e) == [] || (|StillOpen(e)| == 1 && |Lines(e, 0)| > 2)
  }

  /**
   If every row finds what it needs, storing and rebuilding is the identity on the
   serialised text exactly when what is left open at the end is closed.
   */
  lemma RoundTrip(h: Headers, e: Entity)
    requires Fits(h, e) && Height(e) <= MAX_MIME_DEPTH
    ensures Rebuilt(h, Lines(e, 0)) == Text(e) <==> LastClosed(e)
  {
    RowsEmitted(h, e);
    TextSplits(h, e);
    StillOpenBounded(h, e);
    if StillOpen(e) == [] {
      assert OpenText(e) + "" == OpenText(e);
    } else if |Lines(e, 0)| > 2 {
      LastDelimiter(OpenText(e), StillOpen(e));
    } else {
      CloseAllLength(StillOpen(e));
    }
  }
}
