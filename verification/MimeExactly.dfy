/**
 Exactly when rebuilding gives the serialised text back. A row that does not find
 what it needs writes a delimiter that differs from the text, and since output only
 grows, the difference stays.
 */
module MimeExactly {
  import opened Basics
  import opened MimeTree
  import opened MimeRebuild
  import opened MimeRoundTrip

  // Texts that differ at some position, whatever follows.

  predicate Conflict(a: string, b: string) {
    exists i :: 0 <= i < |a| && i < |b| && a[i] != b[i]
  }

  lemma ConflictStays(a: string, b: string, c: string, d: string)
    requires Conflict(a, b) && a <= c && b <= d
    ensures Conflict(c, d) && c != d
  {
    var i :| 0 <= i < |a| && i < |b| && a[i] != b[i];
    assert c[i] == a[i] && d[i] == b[i];
  }

  lemma ConflictAfter(front: string, a: string, b: string)
    requires Conflict(a, b)
    ensures Conflict(front + a, front + b)
  {
    var i :| 0 <= i < |a| && i < |b| && a[i] != b[i];
    assert (front + a)[|front| + i] == a[i] && (front + b)[|front| + i] == b[i];
  }

  predicate OneLine(s: string) {
    forall i :: 0 <= i < |s| ==> s[i] != '\n'
  }

  lemma CloseAt(b: string, i: nat)
    requires i < |b| + 3
    ensures Close(b)[3 + i] == if i < |b| then b[i] else if i < |b| + 2 then '-' else '\n'
  {
  }

  lemma ShorterConflicts(a: string, b: string)
    requires OneLine(b) && |a| < |b|
    ensures Conflict(Close(a), Close(b))
  {
    CloseAt(a, |a| + 2);
    CloseAt(b, |a| + 2);
    assert Close(a)[3 + (|a| + 2)] != Close(b)[3 + (|a| + 2)];
  }

  lemma ClosesConflict(a: string, b: string)
    requires OneLine(a) && OneLine(b) && a != b
    ensures Conflict(Close(a), Close(b))
  {
    if |a| < |b| {
      ShorterConflicts(a, b);
    } else if |b| < |a| {
      ShorterConflicts(b, a);
    } else {
      var i :| 0 <= i < |a| && a[i] != b[i];
      CloseAt(a, i);
      CloseAt(b, i);
      assert Close(a)[3 + i] != Close(b)[3 + i];
    }
  }

  lemma OpenAt(b: string, i: nat)
    requires i < |b| + 1
    ensures Open(b)[2 + i] == if i < |b| then b[i] else '\n'
  {
  }

  lemma ShorterOpens(a: string, b: string)
    requires OneLine(b) && |a| < |b|
    ensures Conflict(Open(a), Open(b))
  {
    OpenAt(a, |a|);
    OpenAt(b, |a|);
    assert Open(a)[2 + |a|] != Open(b)[2 + |a|];
  }

  lemma OpensConflict(a: string, b: string)
    requires OneLine(a) && OneLine(b) && a != b
    ensures Conflict(Open(a), Open(b)) && Conflict(Open(b), Open(a))
  {
    if |a| < |b| {
      ShorterOpens(a, b);
    } else if |b| < |a| {
      ShorterOpens(b, a);
    } else {
      var i :| 0 <= i < |a| && a[i] != b[i];
      OpenAt(a, i);
      OpenAt(b, i);
      assert Open(a)[2 + i] != Open(b)[2 + i];
    }
  }

  lemma {:induction false} OutputGrows(h: Headers, st: State, lines: seq<Line>)
    ensures st.out <= Steps(h, st, lines).out
  {
    if lines != [] {
      OutputGrows(h, st, lines[..|lines| - 1]);
    }
  }

  // What is assumed of a message.

  /**
   Boundaries are single lines, a multipart does not repeat the boundary of the
   multipart it is a part of, and after a bare leaf that may be taken for a message the
   next head starts with some text.
   */
  predicate Proper(h: Headers, e: Entity) {
    match e
    case Leaf(_, _) => true
    case Multi(_, boundary, _, parts, _) => OneLine(boundary) && PartsProper(h, parts, boundary)
    case Message(_, inner) => Proper(h, inner)
  }

  predicate PartsProper(h: Headers, ps: Parts, parent: string) {
    match ps
    case Empty => true
    case More(first, rest) =>
      && Proper(h, first) && PartsProper(h, rest, parent)
      && (first.Multi? ==> first.boundary != parent)
      && (rest.More? ==> HeadTells(h, first, rest.first))
  }

  /** The head of the last leaf. */
  function LastHead(e: Entity): string {
    match e
    case Leaf(head, _) => head
    case Multi(head, _, _, parts, _) => PartsLastHead(parts, head)
    case Message(_, inner) => LastHead(inner)
  }

  function PartsLastHead(ps: Parts, head: string): string {
    match ps
    case Empty => head
    case More(first, rest) => PartsLastHead(rest, LastHead(first))
  }

  predicate HeadTells(h: Headers, a: Entity, b: Entity) {
    EndsBare(a) ==> h.isMessage(LastHead(a)) == Some(false) || (b.head != "" && b.head[0] != '\n')
  }

  lemma {:induction false} OpenOneLine(h: Headers, e: Entity)
    requires Proper(h, e)
    ensures forall i :: 0 <= i < |StillOpen(e)| ==> OneLine(StillOpen(e)[i])
  {
    match e
    case Leaf(_, _) =>
    case Message(_, inner) => OpenOneLine(h, inner);
    case Multi(_, boundary, _, parts, _) => PartsOpenOneLine(h, parts, boundary);
  }

  lemma {:induction false} PartsOpenOneLine(h: Headers, ps: Parts, parent: string)
    requires PartsProper(h, ps, parent)
    ensures forall i :: 0 <= i < |PartsStillOpen(ps)| ==> OneLine(PartsStillOpen(ps)[i])
  {
    if ps.More? {
      OpenOneLine(h, ps.first);
      PartsOpenOneLine(h, ps.rest, parent);
    }
  }

  // A multipart after a multipart that is still open.

  /** Its head replaces the boundary of the neighbour before that is closed. */
  lemma ReplacedCloses(h: Headers, t: State, base: seq<string>, still: seq<string>, depth: nat, head: string,
                       boundary: string)
    requires |base| == depth <= MAX_MIME_DEPTH && still != [] && Ready(t, base + still, depth)
    requires h.boundary(head) == Some(boundary) && 0 < |boundary| < MAX_MIME_BLEN
    ensures t.out + CloseAll(still[1..]) + Close(boundary) <= Step(h, t, Line(depth, true, head)).out
  {
    var line := Line(depth, true, head);
    var replaced := base + ([boundary] + still[1..]);
    assert replaced == (base + still)[depth := boundary];
    assert Declared(h, t.blist, line) == Filled(replaced);
    ClosingFilled(replaced, depth);
    assert replaced[depth..] == [boundary] + still[1..];
    CloseAllOuter(boundary, still[1..]);
    Assoc(t.out, CloseAll(still[1..]), Close(boundary));
  }

  lemma AdjacentConflict(h: Headers, t: State, base: seq<string>, still: seq<string>, depth: nat, head: string,
                         boundary: string)
    requires |base| == depth <= MAX_MIME_DEPTH && still != [] && Ready(t, base + still, depth)
    requires h.boundary(head) == Some(boundary) && 0 < |boundary| < MAX_MIME_BLEN
    requires OneLine(boundary) && OneLine(still[0]) && still[0] != boundary
    ensures Conflict(Step(h, t, Line(depth, true, head)).out, t.out + CloseAll(still))
  {
    var front := t.out + CloseAll(still[1..]);
    ClosesConflict(boundary, still[0]);
    ConflictAfter(front, Close(boundary), Close(still[0]));
    OuterLast(t.out, still);
    ReplacedCloses(h, t, base, still, depth, head, boundary);
    ConflictStays(front + Close(boundary), front + Close(still[0]),
                  Step(h, t, Line(depth, true, head)).out, t.out + CloseAll(still));
  }

  lemma OuterLast(out: string, still: seq<string>)
    requires still != []
    ensures out + CloseAll(still) == out + CloseAll(still[1..]) + Close(still[0])
  {
    assert still == [still[0]] + still[1..];
    CloseAllOuter(still[0], still[1..]);
    Assoc(out, CloseAll(still[1..]), Close(still[0]));
  }

  /**
   A head that repeats the boundary of the neighbour closes that as it should, but
   with it clears its own slot.
   */
  lemma RepeatedHead(h: Headers, t: State, b: Entity, base: seq<string>, still: seq<string>)
    requires b.Multi? && Consistent(h, b) && 0 < |base| <= MAX_MIME_DEPTH && still != [] && still[0] == b.boundary
    requires Ready(t, base + still, |base|) && !t.isHeader
    ensures var u, parent := Step(h, t, Line(|base|, true, b.head)), base[|base| - 1];
            && u.out == t.out + CloseAll(still) + Delimiter(Later, parent) + (b.head + "\n")
            && u.blist == Filled(base) && u.depth == |base| && u.boundary == parent
            && u.isHeader && !u.isMessage
  {
    var depth := |base|;
    var line := Line(depth, true, b.head);
    SameSlot(h, t, b, base, still);
    ReadyCloses(t, base + still, depth);
    assert (base + still)[depth..] == still && (base + still)[..depth] == base;
    assert Current(Filled(base), depth, DeclaredBoundary(h, t.boundary, line)) == base[depth - 1] by {
      BaseOpen(base, still);
      assert Filled(base)[depth - 1] == base[depth - 1];
    }
  }

  lemma SameSlot(h: Headers, t: State, b: Entity, base: seq<string>, still: seq<string>)
    requires b.Multi? && Consistent(h, b) && still != [] && still[0] == b.boundary && Ready(t, base + still, |base|)
    ensures Declared(h, t.blist, Line(|base|, true, b.head)) == t.blist
  {
    assert (base + still)[|base|] == b.boundary;
  }

  /** The prologue, if any, changes nothing else. */
  lemma PrologueKept(h: Headers, t: State, base: seq<string>, prologue: Option<string>)
    requires 0 < |base| <= MAX_MIME_DEPTH && AllOpen(base) && t.blist == Filled(base) && t.depth == |base|
    requires t.boundary == base[|base| - 1] && t.isHeader && !t.isMessage
    ensures var u := Steps(h, t, OptionalLine(|base|, prologue));
            && u.out == t.out + TextOr(prologue) && u.blist == t.blist && u.depth == |base|
            && u.boundary == t.boundary && u.isHeader == prologue.None? && !u.isMessage
  {
    if prologue.Some? {
      OneStep(h, t, Line(|base|, false, prologue.value));
      assert !MustClose(t.blist, |base|, |base|);
      assert t.out + "" + "" == t.out;
      assert Filled(base)[|base| - 1] == base[|base| - 1];
    } else {
      assert t.out + "" == t.out;
    }
  }

  /** What then delimits the first part: its own boundary, or the parent's. */
  function Wrong(c: Entity, parent: string): string {
    if c.Multi? then c.boundary else parent
  }

  lemma WrongDelimiter(h: Headers, t: State, c: Entity, base: seq<string>, place: Place)
    requires Consistent(h, c) && 0 < |base| < MAX_MIME_DEPTH && t.blist == Filled(base) && t.depth == |base|
    requires t.boundary == base[|base| - 1] && !t.isMessage && place == if t.isHeader then First else Later
    ensures t.out + Delimiter(place, Wrong(c, base[|base| - 1])) <= Step(h, t, Line(|base| + 1, true, c.head)).out
  {
    var line := Line(|base| + 1, true, c.head);
    var declared := Declared(h, t.blist, line);
    assert !MustClose(declared, t.depth, |base| + 1);
    assert Slot(declared, |base|) == "";
    assert t.out + "" == t.out;
  }

  /** The text of a multipart starts like this. */
  function Opening(b: Entity): string
    requires b.Multi?
  {
    b.head + "\n" + TextOr(b.prologue) + Delimiter(PlaceAfter(b.prologue), b.boundary)
  }

  lemma OpeningFirst(b: Entity)
    requires b.Multi? && b.parts.More?
    ensures Opening(b) <= OpenText(b)
  {
    var start := b.head + "\n" + TextOr(b.prologue);
    var parts := OpenPartsText(b.parts, b.boundary, PlaceAfter(b.prologue));
    assert Delimiter(PlaceAfter(b.prologue), b.boundary) <= parts;
    PrefixKept(start, Delimiter(PlaceAfter(b.prologue), b.boundary), parts);
    assert start + parts <= OpenText(b);
  }

  /** The rows up to the head of the first part. */
  function FirstRows(b: Entity, depth: nat): seq<Line>
    requires b.Multi? && b.parts.More?
  {
    [Line(depth, true, b.head)] + OptionalLine(depth, b.prologue) + [Line(depth + 1, true, b.parts.first.head)]
  }

  lemma FirstRowsStep(h: Headers, t: State, b: Entity, depth: nat)
    requires b.Multi? && b.parts.More?
    ensures var u := Step(h, t, Line(depth, true, b.head));
            var v := Steps(h, u, OptionalLine(depth, b.prologue));
            Steps(h, t, FirstRows(b, depth)) == Step(h, v, Line(depth + 1, true, b.parts.first.head))
  {
    var head, child := Line(depth, true, b.head), Line(depth + 1, true, b.parts.first.head);
    var prologue := OptionalLine(depth, b.prologue);
    StepsConcat(h, t, [head] + prologue, [child]);
    StepsConcat(h, t, [head], prologue);
    OneStep(h, t, head);
    OneStep(h, Steps(h, Step(h, t, head), prologue), child);
  }

  lemma WrongConflicts(place: Place, a: string, b: string)
    requires place.First? || place.Later?
    requires OneLine(a) && OneLine(b) && a != b
    ensures Conflict(Delimiter(place, a), Delimiter(place, b))
  {
    OpensConflict(a, b);
    if place.Later? {
      ConflictAfter("\n", Open(a), Open(b));
    }
  }

  lemma WrongIsOther(h: Headers, b: Entity, parent: string)
    requires b.Multi? && b.parts.More? && Proper(h, b) && OneLine(parent) && b.boundary != parent
    ensures OneLine(Wrong(b.parts.first, parent)) && Wrong(b.parts.first, parent) != b.boundary
  {
    assert PartsProper(h, b.parts, b.boundary);
    assert Proper(h, b.parts.first);
  }

  /** The rows up to the head of the first part write that delimiter. */
  lemma RepeatedRows(h: Headers, t: State, b: Entity, base: seq<string>, still: seq<string>)
    requires b.Multi? && Consistent(h, b) && 0 < |base| < MAX_MIME_DEPTH
    requires still != [] && still[0] == b.boundary && Ready(t, base + still, |base|) && !t.isHeader
    ensures var parent := base[|base| - 1];
            t.out + CloseAll(still) + Delimiter(Later, parent) + (b.head + "\n") + TextOr(b.prologue) +
            Delimiter(PlaceAfter(b.prologue), Wrong(b.parts.first, parent)) <= Steps(h, t, FirstRows(b, |base|)).out
  {
    var u := Step(h, t, Line(|base|, true, b.head));
    RepeatedHead(h, t, b, base, still);
    BaseOpen(base, still);
    PrologueKept(h, u, base, b.prologue);
    FirstRowsStep(h, t, b, |base|);
    WrongDelimiter(h, Steps(h, u, OptionalLine(|base|, b.prologue)), b.parts.first, base, PlaceAfter(b.prologue));
  }

  /** The first part of a multipart that repeats its neighbour's boundary is delimited wrongly. */
  lemma RepeatedConflict(h: Headers, t: State, b: Entity, base: seq<string>, still: seq<string>)
    requires b.Multi? && Consistent(h, b) && Proper(h, b) && 0 < |base| < MAX_MIME_DEPTH
    requires still != [] && still[0] == b.boundary && Ready(t, base + still, |base|) && !t.isHeader
    requires OneLine(base[|base| - 1]) && b.boundary != base[|base| - 1]
    ensures Conflict(Steps(h, t, FirstRows(b, |base|)).out,
                     t.out + CloseAll(still) + Delimiter(Later, base[|base| - 1]) + Opening(b))
  {
    RepeatedRows(h, t, b, base, still);
    WrongIsOther(h, b, base[|base| - 1]);
    WrongText(t.out + CloseAll(still) + Delimiter(Later, base[|base| - 1]), b, Wrong(b.parts.first, base[|base| - 1]),
              Steps(h, t, FirstRows(b, |base|)).out);
  }

  lemma WrongText(front: string, b: Entity, wrong: string, out: string)
    requires b.Multi? && OneLine(wrong) && OneLine(b.boundary) && wrong != b.boundary
    requires front + (b.head + "\n") + TextOr(b.prologue) + Delimiter(PlaceAfter(b.prologue), wrong) <= out
    ensures Conflict(out, front + Opening(b))
  {
    var start, place := front + (b.head + "\n") + TextOr(b.prologue), PlaceAfter(b.prologue);
    WrongConflicts(place, wrong, b.boundary);
    ConflictAfter(start, Delimiter(place, wrong), Delimiter(place, b.boundary));
    OpeningText(front, b);
    ConflictStays(start + Delimiter(place, wrong), start + Delimiter(place, b.boundary), out, front + Opening(b));
  }

  lemma BaseOpen(base: seq<string>, still: seq<string>)
    requires AllOpen(base + still)
    ensures AllOpen(base)
  {
    assert forall i :: 0 <= i < |base| ==> (base + still)[i] == base[i];
  }

  lemma OpeningText(front: string, b: Entity)
    requires b.Multi?
    ensures front + Opening(b) ==
            front + (b.head + "\n") + TextOr(b.prologue) + Delimiter(PlaceAfter(b.prologue), b.boundary)
  {
    var delimiter := Delimiter(PlaceAfter(b.prologue), b.boundary);
    Assoc(front, b.head + "\n" + TextOr(b.prologue), delimiter);
    Assoc(front, b.head + "\n", TextOr(b.prologue));
  }

  // A head after a leaf without body.

  /** The last row of an entity that ends bare is the head of its last leaf. */
  lemma {:induction false} BareLine(h: Headers, e: Entity, depth: nat)
    requires Consistent(h, e) && EndsBare(e)
    ensures Lines(e, depth) != [] && h.boundary(LastHead(e)) == None
    ensures var last := Lines(e, depth)[|Lines(e, depth)| - 1]; last.isHeader && last.data == LastHead(e)
    decreases e
  {
    match e
    case Leaf(_, _) =>
    case Message(_, inner) => BareLine(h, inner, depth);
    case Multi(head, _, _, parts, _) => PartsBareLine(h, parts, depth + 1, head);
  }

  lemma {:induction false} PartsBareLine(h: Headers, ps: Parts, depth: nat, head: string)
    requires PartsConsistent(h, ps) && PartsEndBare(ps)
    ensures PartsLines(ps, depth) != [] && h.boundary(PartsLastHead(ps, head)) == None
    ensures var last := PartsLines(ps, depth)[|PartsLines(ps, depth)| - 1];
            last.isHeader && last.data == PartsLastHead(ps, head)
    decreases ps
  {
    if ps.rest.Empty? {
      BareLine(h, ps.first, depth);
    } else {
      PartsBareLine(h, ps.rest, depth, LastHead(ps.first));
    }
  }

  lemma NoBoundaryGot(h: Headers, st: State, e: Entity, depth: nat)
    requires Consistent(h, e) && EndsBare(e)
    requires Steps(h, st, Lines(e, depth)).depth <= MAX_MIME_DEPTH
    ensures !Steps(h, st, Lines(e, depth)).gotBoundary
    ensures h.isMessage(LastHead(e)) == Some(false) ==> !Steps(h, st, Lines(e, depth)).isMessage
  {
    BareLine(h, e, depth);
  }

  /** After a header row without boundary, the delimiter has no leading newline. */
  lemma BareDelimiter(t: State, depth: nat, boundary: string, head: string)
    requires t.isHeader && !t.gotBoundary && depth > 0 && (t.isMessage ==> head != "" && head[0] != '\n')
    ensures var text := DelimiterText(t.isHeader, t.isMessage, t.gotBoundary, depth, boundary) + (head + "\n");
            text != "" && text[0] != '\n'
  {
  }

  /** The output with what a head row writes. */
  function HeadText(t: State, still: seq<string>, depth: nat, b: string, head: string): string {
    t.out + CloseAll(still) + DelimiterText(t.isHeader, t.isMessage, t.gotBoundary, depth, b) + (head + "\n")
  }

  /** The row of the next head closes what is due and then writes that delimiter. */
  lemma NextHead(h: Headers, t: State, base: seq<string>, still: seq<string>, depth: nat, e: Entity)
    requires |base| == depth <= MAX_MIME_DEPTH && Ready(t, base + still, depth) && Consistent(h, e)
    requires e.Multi? ==> still == [] || still[0] == e.boundary
    ensures exists b :: Step(h, t, Line(depth, true, e.head)).out == HeadText(t, still, depth, b, e.head)
  {
    var line := Line(depth, true, e.head);
    var declared := Declared(h, t.blist, line);
    assert (base + still)[depth..] == still;
    if e.Multi? && still == [] {
      assert !MustClose(declared, t.depth, depth);
    } else {
      assert e.Multi? ==> (base + still)[depth] == e.boundary;
      assert declared == t.blist;
      ReadyCloses(t, base + still, depth);
    }
    assert ClosingText(declared, t.depth, depth) == CloseAll(still);
    var b := Current(ClosedSlots(declared, t.depth, depth), depth, DeclaredBoundary(h, t.boundary, line));
    assert Step(h, t, line).out == HeadText(t, still, depth, b, e.head);
  }

  lemma BareConflict(h: Headers, t: State, base: seq<string>, still: seq<string>, depth: nat, e: Entity,
                     expected: string)
    requires |base| == depth <= MAX_MIME_DEPTH && Ready(t, base + still, depth) && Consistent(h, e)
    requires e.Multi? ==> still == [] || still[0] == e.boundary
    requires t.isHeader && !t.gotBoundary && depth > 0 && (t.isMessage ==> e.head != "" && e.head[0] != '\n')
    requires expected != "" && expected[0] == '\n'
    ensures Conflict(Step(h, t, Line(depth, true, e.head)).out, t.out + CloseAll(still) + expected)
  {
    NextHead(h, t, base, still, depth, e);
    var b :| Step(h, t, Line(depth, true, e.head)).out == HeadText(t, still, depth, b, e.head);
    BareDelimiter(t, depth, b, e.head);
    var front := t.out + CloseAll(still);
    var text := DelimiterText(t.isHeader, t.isMessage, t.gotBoundary, depth, b) + (e.head + "\n");
    Assoc(front, DelimiterText(t.isHeader, t.isMessage, t.gotBoundary, depth, b), e.head + "\n");
    assert Conflict(text, expected) by { assert text[0] != expected[0]; }
    ConflictAfter(front, text, expected);
  }

  // The first bad row of an entity.

  predicate Clean(e: Entity) {
    Bodied(e) && Separated(e)
  }

  predicate PartsClean(ps: Parts) {
    PartsBodied(ps) && PartsSeparated(ps)
  }

  function Expected(st: State, e: Entity, stack: seq<string>, depth: nat, place: Place): string
    requires depth <= |stack|
  {
    st.out + CloseAll(stack[depth..]) + Delimiter(place, Parent(stack, depth)) + OpenText(e)
  }

  function PartsExpected(st: State, ps: Parts, stack: seq<string>, depth: nat, place: Place): string
    requires 0 < depth <= |stack|
  {
    st.out + CloseAll(stack[depth..]) + OpenPartsText(ps, stack[depth - 1], place)
  }

  lemma {:induction false} EntityDiverges(h: Headers, st: State, e: Entity, stack: seq<string>, depth: nat,
                                          place: Place)
    requires Consistent(h, e) && Proper(h, e) && !Clean(e) && Starts(st, e, stack, depth, place)
    ensures Conflict(Steps(h, st, Lines(e, depth)).out, Expected(st, e, stack, depth, place))
    decreases e, 1
  {
    match e
    case Message(_, _) => MessageDiverges(h, st, e, stack, depth, place);
    case Multi(_, _, _, _, _) => MultiDiverges(h, st, e, stack, depth, place);
  }

  lemma {:induction false} MessageDiverges(h: Headers, st: State, e: Entity, stack: seq<string>, depth: nat,
                                           place: Place)
    requires e.Message? && Consistent(h, e) && Proper(h, e) && !Clean(e) && Starts(st, e, stack, depth, place)
    ensures Conflict(Steps(h, st, Lines(e, depth)).out, Expected(st, e, stack, depth, place))
    decreases e, 0
  {
    var head := Line(depth, true, e.head);
    var t := Step(h, st, head);
    var base := stack[..depth];
    PlainHead(h, st, stack, depth, place, e.head);
    EntityDiverges(h, t, e.inner, base, depth, Inside);
    StepsConcat(h, st, [head], Lines(e.inner, depth));
    OneStep(h, st, head);
    var front := st.out + CloseAll(stack[depth..]) + Delimiter(place, Parent(stack, depth));
    assert base[depth..] == [];
    assert t.out + "" + "" == t.out;
    Assoc(front, e.head + "\n", OpenText(e.inner));
  }

  /** The text of a multipart continues that of its parts. */
  lemma MultiExpected(st: State, t: State, e: Entity, stack: seq<string>, depth: nat, place: Place)
    requires e.Multi? && |stack| == depth
    requires t.out == st.out + Delimiter(place, Parent(stack, depth)) + (e.head + "\n") + TextOr(e.prologue)
    ensures t.out + OpenPartsText(e.parts, e.boundary, PlaceAfter(e.prologue)) <= Expected(st, e, stack, depth, place)
  {
    var front := st.out + Delimiter(place, Parent(stack, depth));
    var parts := OpenPartsText(e.parts, e.boundary, PlaceAfter(e.prologue));
    var start := e.head + "\n" + TextOr(e.prologue);
    assert stack[depth..] == [] && st.out + "" == st.out;
    Assoc(front, e.head + "\n", TextOr(e.prologue));
    Assoc(front, start, parts);
    PrefixKept(front, start + parts, OpenText(e));
  }

  lemma PrefixKept(front: string, a: string, b: string)
    requires a <= b
    ensures front + a <= front + b
  {
    assert (front + b)[..|front + a|] == front + a;
  }

  lemma {:induction false} MultiDiverges(h: Headers, st: State, e: Entity, stack: seq<string>, depth: nat, place: Place)
    requires e.Multi? && Consistent(h, e) && Proper(h, e) && !Clean(e) && Starts(st, e, stack, depth, place)
    ensures Conflict(Steps(h, st, Lines(e, depth)).out, Expected(st, e, stack, depth, place))
    decreases e, 0
  {
    var inner := stack + [e.boundary];
    var t1 := Step(h, st, Line(depth, true, e.head));
    var t2 := Steps(h, t1, OptionalLine(depth, e.prologue));
    var t3 := Steps(h, t2, PartsLines(e.parts, depth + 1));
    MultiRows(h, st, e, depth);
    MultiStart(h, st, e, stack, depth, place);
    assert Conflict(t3.out, PartsExpected(t2, e.parts, inner, depth + 1, PlaceAfter(e.prologue))) by {
      PartsDiverge(h, t2, e.parts, inner, depth + 1, PlaceAfter(e.prologue));
    }
    MultiEnd(h, st, t2, t3, e, stack, depth, place);
  }

  lemma MultiEnd(h: Headers, st: State, t2: State, t3: State, e: Entity, stack: seq<string>, depth: nat, place: Place)
    requires e.Multi? && |stack| == depth
    requires t2.out == st.out + Delimiter(place, Parent(stack, depth)) + (e.head + "\n") + TextOr(e.prologue)
    requires Conflict(t3.out, PartsExpected(t2, e.parts, stack + [e.boundary], depth + 1, PlaceAfter(e.prologue)))
    ensures Conflict(Steps(h, t3, OptionalLine(depth, e.epilogue)).out, Expected(st, e, stack, depth, place))
  {
    var inner := stack + [e.boundary];
    assert inner[depth + 1..] == [] && t2.out + "" == t2.out;
    OutputGrows(h, t3, OptionalLine(depth, e.epilogue));
    MultiExpected(st, t2, e, stack, depth, place);
    ConflictStays(t3.out, t2.out + OpenPartsText(e.parts, e.boundary, PlaceAfter(e.prologue)),
                  Steps(h, t3, OptionalLine(depth, e.epilogue)).out, Expected(st, e, stack, depth, place));
  }

  /** The text of a list of parts continues that of its first part. */
  lemma FirstExpected(st: State, ps: Parts, stack: seq<string>, depth: nat, place: Place)
    requires 0 < depth <= |stack| && ps.More?
    ensures Expected(st, ps.first, stack, depth, place) <= PartsExpected(st, ps, stack, depth, place)
    ensures ps.rest.More? ==>
              PartsExpected(st, ps, stack, depth, place) ==
              Expected(st, ps.first, stack, depth, place) +
              (CloseAll(StillOpen(ps.first)) + OpenPartsText(ps.rest, stack[depth - 1], Later))
  {
    var front := st.out + CloseAll(stack[depth..]);
    var piece := Delimiter(place, stack[depth - 1]) + OpenText(ps.first);
    var tail := if ps.rest.Empty? then ""
                else CloseAll(StillOpen(ps.first)) + OpenPartsText(ps.rest, stack[depth - 1], Later);
    Assoc(front, Delimiter(place, stack[depth - 1]), OpenText(ps.first));
    Assoc(front, piece, tail);
  }

  lemma {:induction false} PartsDiverge(h: Headers, st: State, ps: Parts, stack: seq<string>, depth: nat, place: Place)
    requires 0 < depth && Ready(st, stack, depth) && Placed(st, depth, place)
    requires ps.More? && PartsConsistent(h, ps) && !PartsClean(ps)
    requires PartsProper(h, ps, stack[depth - 1]) && OneLine(stack[depth - 1])
    requires (ps.first.Multi? ==> |stack| == depth) && depth + PartsHeight(ps) <= MAX_MIME_DEPTH
    ensures Conflict(Steps(h, st, PartsLines(ps, depth)).out, PartsExpected(st, ps, stack, depth, place))
    decreases ps, 2
  {
    StepsConcat(h, st, Lines(ps.first, depth), PartsLines(ps.rest, depth));
    if Clean(ps.first) {
      FirstRight(h, st, ps, stack, depth, place);
    } else {
      EntityDiverges(h, st, ps.first, stack, depth, place);
      FirstWrong(h, st, ps, stack, depth, place);
    }
  }

  lemma FirstWrong(h: Headers, st: State, ps: Parts, stack: seq<string>, depth: nat, place: Place)
    requires 0 < depth <= |stack| && ps.More?
    requires Conflict(Steps(h, st, Lines(ps.first, depth)).out, Expected(st, ps.first, stack, depth, place))
    ensures var t := Steps(h, st, Lines(ps.first, depth));
            Conflict(Steps(h, t, PartsLines(ps.rest, depth)).out, PartsExpected(st, ps, stack, depth, place))
  {
    var t := Steps(h, st, Lines(ps.first, depth));
    FirstExpected(st, ps, stack, depth, place);
    OutputGrows(h, t, PartsLines(ps.rest, depth));
    ConflictStays(t.out, Expected(st, ps.first, stack, depth, place),
                  Steps(h, t, PartsLines(ps.rest, depth)).out, PartsExpected(st, ps, stack, depth, place));
  }

  lemma {:induction false} FirstRight(h: Headers, st: State, ps: Parts, stack: seq<string>, depth: nat, place: Place)
    requires 0 < depth && Ready(st, stack, depth) && Placed(st, depth, place)
    requires ps.More? && PartsConsistent(h, ps) && !PartsClean(ps) && Clean(ps.first)
    requires PartsProper(h, ps, stack[depth - 1]) && OneLine(stack[depth - 1])
    requires (ps.first.Multi? ==> |stack| == depth) && depth + PartsHeight(ps) <= MAX_MIME_DEPTH
    ensures var t := Steps(h, st, Lines(ps.first, depth));
            Conflict(Steps(h, t, PartsLines(ps.rest, depth)).out, PartsExpected(st, ps, stack, depth, place))
    decreases ps, 1
  {
    var t := Steps(h, st, Lines(ps.first, depth));
    RestExists(ps);
    EntityEmitted(h, st, ps.first, stack, depth, place);
    StillOpenBounded(h, ps.first);
    JunctionReady(t, ps.first, stack, depth);
    JunctionExpected(st, t, ps, stack, depth, place);
    assert |stack[..depth]| == depth && stack[..depth][depth - 1] == stack[depth - 1];
    RestDiverges(h, st, t, ps, stack[..depth]);
  }

  lemma RestExists(ps: Parts)
    requires ps.More? && !PartsClean(ps) && Clean(ps.first)
    ensures ps.rest.More?
  {
    assert PartsBodied(Empty) && PartsSeparated(Empty);
  }

  /** The first part is right: then the junction or the rest is not. */
  lemma {:induction false} RestDiverges(h: Headers, st: State, t: State, ps: Parts, base: seq<string>)
    requires ps.More? && ps.rest.More? && PartsConsistent(h, ps) && !PartsClean(ps) && Clean(ps.first)
    requires base != [] && |base| + PartsHeight(ps) <= MAX_MIME_DEPTH && t.depth <= MAX_MIME_DEPTH
    requires PartsProper(h, ps, base[|base| - 1]) && OneLine(base[|base| - 1])
    requires t == Steps(h, st, Lines(ps.first, |base|)) && Ready(t, base + StillOpen(ps.first), |base|)
    requires t.isHeader == EndsBare(ps.first)
    ensures Conflict(Steps(h, t, PartsLines(ps.rest, |base|)).out, JunctionText(t, ps, base[|base| - 1]))
    decreases ps, 0
  {
    if BadJunction(ps.first, ps.rest.first) {
      BadDiverges(h, st, t, ps, base);
    } else {
      RestBad(ps);
      RestExpected(t, ps, base, StillOpen(ps.first));
      PartsDiverge(h, t, ps.rest, base + StillOpen(ps.first), |base|, Later);
    }
  }

  predicate BadJunction(a: Entity, b: Entity) {
    (StillOpen(a) != [] && b.Multi?) || EndsBare(a)
  }

  lemma RestBad(ps: Parts)
    requires ps.More? && ps.rest.More? && !PartsClean(ps) && Clean(ps.first) && !BadJunction(ps.first, ps.rest.first)
    ensures !PartsClean(ps.rest) && (ps.rest.first.Multi? ==> StillOpen(ps.first) == [])
  {
  }

  lemma BadDiverges(h: Headers, st: State, t: State, ps: Parts, base: seq<string>)
    requires ps.More? && ps.rest.More? && PartsConsistent(h, ps) && BadJunction(ps.first, ps.rest.first)
    requires base != [] && |base| + PartsHeight(ps) <= MAX_MIME_DEPTH && t.depth <= MAX_MIME_DEPTH
    requires PartsProper(h, ps, base[|base| - 1]) && OneLine(base[|base| - 1])
    requires t == Steps(h, st, Lines(ps.first, |base|)) && Ready(t, base + StillOpen(ps.first), |base|)
    requires t.isHeader == EndsBare(ps.first)
    ensures Conflict(Steps(h, t, PartsLines(ps.rest, |base|)).out, JunctionText(t, ps, base[|base| - 1]))
  {
    assert Height(ps.rest.first) <= PartsHeight(ps.rest) <= PartsHeight(ps);
    JunctionDiverges(h, st, t, ps, base);
  }

  lemma JunctionReady(t: State, a: Entity, stack: seq<string>, depth: nat)
    requires depth <= |stack| && AllOpen(stack) && AllOpen(StillOpen(a)) && depth + |StillOpen(a)| <= MAX_MIME_DEPTH
    requires After(t, stack[..depth] + StillOpen(a), depth + |StillOpen(a)|, EndsBare(a))
    ensures Ready(t, stack[..depth] + StillOpen(a), depth) && t.isHeader == EndsBare(a) && t.depth <= MAX_MIME_DEPTH
  {
  }

  lemma JunctionExpected(st: State, t: State, ps: Parts, stack: seq<string>, depth: nat, place: Place)
    requires ps.More? && ps.rest.More? && 0 < depth <= |stack|
    requires t.out == Expected(st, ps.first, stack, depth, place)
    ensures JunctionText(t, ps, stack[depth - 1]) == PartsExpected(st, ps, stack, depth, place)
  {
    FirstExpected(st, ps, stack, depth, place);
  }

  lemma RestExpected(t: State, ps: Parts, base: seq<string>, still: seq<string>)
    requires ps.More? && base != [] && still == StillOpen(ps.first)
    ensures PartsExpected(t, ps.rest, base + still, |base|, Later) == JunctionText(t, ps, base[|base| - 1])
  {
    assert (base + still)[|base|..] == still && (base + still)[|base| - 1] == base[|base| - 1];
    Assoc(t.out, CloseAll(still), OpenPartsText(ps.rest, base[|base| - 1], Later));
  }

  /** What should follow the first part. */
  function JunctionText(t: State, ps: Parts, boundary: string): string
    requires ps.More?
  {
    t.out + (CloseAll(StillOpen(ps.first)) + OpenPartsText(ps.rest, boundary, Later))
  }

  /** Later rows only add to the output. */
  lemma RowsGrow(h: Headers, t: State, rows: seq<Line>, lines: seq<Line>)
    requires rows <= lines
    ensures Steps(h, t, rows).out <= Steps(h, t, lines).out
  {
    var rest := lines[|rows|..];
    assert lines == rows + rest;
    StepsConcat(h, t, rows, rest);
    OutputGrows(h, Steps(h, t, rows), rest);
  }

  lemma FirstLine(e: Entity, depth: nat)
    ensures [Line(depth, true, e.head)] <= Lines(e, depth)
    ensures e.Multi? && e.parts.More? ==> FirstRows(e, depth) <= Lines(e, depth)
  {
    if e.Multi? && e.parts.More? {
      var start := [Line(depth, true, e.head)] + OptionalLine(depth, e.prologue);
      var parts := PartsLines(e.parts, depth + 1);
      assert [Line(depth + 1, true, e.parts.first.head)] <= Lines(e.parts.first, depth + 1) <= parts;
      assert start + [parts[0]] <= start + parts;
    }
  }

  /** The first part `a` has been emitted, and the head of `b` comes next. */
  predicate AtJunction(h: Headers, st: State, t: State, a: Entity, b: Entity, base: seq<string>) {
    && Consistent(h, a) && Consistent(h, b) && Proper(h, a) && Proper(h, b) && HeadTells(h, a, b)
    && 0 < |base| && |base| + Height(b) <= MAX_MIME_DEPTH && t.depth <= MAX_MIME_DEPTH
    && OneLine(base[|base| - 1]) && (b.Multi? ==> b.boundary != base[|base| - 1])
    && t == Steps(h, st, Lines(a, |base|)) && Ready(t, base + StillOpen(a), |base|) && t.isHeader == EndsBare(a)
  }

  lemma OtherBoundary(h: Headers, st: State, t: State, a: Entity, b: Entity, base: seq<string>)
    requires AtJunction(h, st, t, a, b, base) && b.Multi? && StillOpen(a) != [] && StillOpen(a)[0] != b.boundary
    ensures Conflict(Steps(h, t, Lines(b, |base|)).out, t.out + CloseAll(StillOpen(a)))
  {
    var line := Line(|base|, true, b.head);
    OpenOneLine(h, a);
    AdjacentConflict(h, t, base, StillOpen(a), |base|, b.head, b.boundary);
    OneStep(h, t, line);
    FirstLine(b, |base|);
    RowsGrow(h, t, [line], Lines(b, |base|));
    ConflictStays(Steps(h, t, [line]).out, t.out + CloseAll(StillOpen(a)),
                  Steps(h, t, Lines(b, |base|)).out, t.out + CloseAll(StillOpen(a)));
  }

  /** What should come up to the head of `b` and its text. */
  function UpTo(t: State, a: Entity, b: Entity, base: seq<string>): string
    requires base != []
  {
    t.out + CloseAll(StillOpen(a)) + Delimiter(Later, base[|base| - 1]) + OpenText(b)
  }

  lemma SameBoundary(h: Headers, st: State, t: State, a: Entity, b: Entity, base: seq<string>)
    requires AtJunction(h, st, t, a, b, base) && b.Multi? && StillOpen(a) != [] && StillOpen(a)[0] == b.boundary
    requires !EndsBare(a)
    ensures Conflict(Steps(h, t, Lines(b, |base|)).out, UpTo(t, a, b, base))
  {
    var front := t.out + CloseAll(StillOpen(a)) + Delimiter(Later, base[|base| - 1]);
    RepeatedConflict(h, t, b, base, StillOpen(a));
    FirstLine(b, |base|);
    RowsGrow(h, t, FirstRows(b, |base|), Lines(b, |base|));
    OpeningFirst(b);
    PrefixKept(front, Opening(b), OpenText(b));
    ConflictStays(Steps(h, t, FirstRows(b, |base|)).out, front + Opening(b),
                  Steps(h, t, Lines(b, |base|)).out, front + OpenText(b));
  }

  lemma BareJunction(h: Headers, st: State, t: State, a: Entity, b: Entity, base: seq<string>)
    requires AtJunction(h, st, t, a, b, base) && EndsBare(a)
    requires b.Multi? ==> StillOpen(a) == [] || StillOpen(a)[0] == b.boundary
    ensures Conflict(Steps(h, t, Lines(b, |base|)).out, UpTo(t, a, b, base))
  {
    var line := Line(|base|, true, b.head);
    var expected := Delimiter(Later, base[|base| - 1]) + OpenText(b);
    NoBoundaryGot(h, st, a, |base|);
    assert expected[0] == '\n';
    BareConflict(h, t, base, StillOpen(a), |base|, b, expected);
    Assoc(t.out + CloseAll(StillOpen(a)), Delimiter(Later, base[|base| - 1]), OpenText(b));
    OneStep(h, t, line);
    FirstLine(b, |base|);
    RowsGrow(h, t, [line], Lines(b, |base|));
    ConflictStays(Steps(h, t, [line]).out, UpTo(t, a, b, base), Steps(h, t, Lines(b, |base|)).out, UpTo(t, a, b, base));
  }

  lemma NextDiverges(h: Headers, st: State, t: State, a: Entity, b: Entity, base: seq<string>)
    requires AtJunction(h, st, t, a, b, base) && ((StillOpen(a) != [] && b.Multi?) || EndsBare(a))
    ensures Conflict(Steps(h, t, Lines(b, |base|)).out, UpTo(t, a, b, base))
  {
    if b.Multi? && StillOpen(a) != [] && StillOpen(a)[0] != b.boundary {
      OtherBoundary(h, st, t, a, b, base);
      var front, delimiter := t.out + CloseAll(StillOpen(a)), Delimiter(Later, base[|base| - 1]);
      Assoc(front, delimiter, OpenText(b));
      ConflictStays(Steps(h, t, Lines(b, |base|)).out, front, Steps(h, t, Lines(b, |base|)).out, UpTo(t, a, b, base));
    } else if EndsBare(a) {
      BareJunction(h, st, t, a, b, base);
    } else {
      SameBoundary(h, st, t, a, b, base);
    }
  }

  lemma JunctionDiverges(h: Headers, st: State, t: State, ps: Parts, base: seq<string>)
    requires ps.More? && ps.rest.More? && AtJunction(h, st, t, ps.first, ps.rest.first, base)
    requires (StillOpen(ps.first) != [] && ps.rest.first.Multi?) || EndsBare(ps.first)
    ensures Conflict(Steps(h, t, PartsLines(ps.rest, |base|)).out, JunctionText(t, ps, base[|base| - 1]))
  {
    var b, parent := ps.rest.first, base[|base| - 1];
    NextDiverges(h, st, t, ps.first, b, base);
    RowsGrow(h, t, Lines(b, |base|), PartsLines(ps.rest, |base|));
    var closing, more := CloseAll(StillOpen(ps.first)), OpenPartsText(ps.rest, parent, Later);
    Assoc(t.out, closing, more);
    Assoc(t.out + closing, Delimiter(Later, parent), OpenText(b));
    PrefixKept(t.out + closing, Delimiter(Later, parent) + OpenText(b), more);
    ConflictStays(Steps(h, t, Lines(b, |base|)).out, UpTo(t, ps.first, b, base),
                  Steps(h, t, PartsLines(ps.rest, |base|)).out, JunctionText(t, ps, parent));
  }

  // The exact condition.

  /**
   For every message of depth at most 64, rebuilding gives the serialised text back if
   and only if no multipart head follows a multipart that is still open, no head of a
   part follows a leaf without body, and what is open at the end is closed.
   */
  lemma RoundTripExactly(h: Headers, e: Entity)
    requires Consistent(h, e) && Proper(h, e) && Height(e) <= MAX_MIME_DEPTH
    ensures Rebuilt(h, Lines(e, 0)) == Text(e) <==> Separated(e) && Bodied(e) && LastClosed(e)
  {
    if Clean(e) {
      RoundTrip(h, e);
    } else {
      Fails(h, e);
    }
  }

  lemma Fails(h: Headers, e: Entity)
    requires Consistent(h, e) && Proper(h, e) && Height(e) <= MAX_MIME_DEPTH && !Clean(e)
    ensures Rebuilt(h, Lines(e, 0)) != Text(e)
  {
    InitialReady();
    EntityDiverges(h, Initial(), e, [], 0, Inside);
    assert "" + "" + "" + OpenText(e) == OpenText(e);
    TextSplits(h, e);
    var out := Steps(h, Initial(), Lines(e, 0)).out;
    ConflictStays(out, OpenText(e), Rebuilt(h, Lines(e, 0)), Text(e));
  }

  /** A multipart right after a multipart without epilogue is never rebuilt. */
  lemma AdjacentMultiparts(h: Headers, head: string, boundary: string, prologue: Option<string>, a: Entity, b: Entity,
                           rest: Parts, epilogue: Option<string>)
    requires a.Multi? && b.Multi? && a.epilogue.None?
    requires var e := Multi(head, boundary, prologue, More(a, More(b, rest)), epilogue);
             Consistent(h, e) && Proper(h, e) && Height(e) <= MAX_MIME_DEPTH
    ensures var e := Multi(head, boundary, prologue, More(a, More(b, rest)), epilogue);
            Rebuilt(h, Lines(e, 0)) != Text(e)
  {
    var e := Multi(head, boundary, prologue, More(a, More(b, rest)), epilogue);
    assert StillOpen(a) != [];
    assert !PartsSeparated(e.parts);
    Fails(h, e);
  }

  /** A leaf without body before another part is never rebuilt. */
  lemma EmptyBody(h: Headers, head: string, boundary: string, prologue: Option<string>, leaf: string, b: Entity,
                  rest: Parts, epilogue: Option<string>)
    requires var e := Multi(head, boundary, prologue, More(Leaf(leaf, ""), More(b, rest)), epilogue);
             Consistent(h, e) && Proper(h, e) && Height(e) <= MAX_MIME_DEPTH
    ensures var e := Multi(head, boundary, prologue, More(Leaf(leaf, ""), More(b, rest)), epilogue);
            Rebuilt(h, Lines(e, 0)) != Text(e)
  {
    var e := Multi(head, boundary, prologue, More(Leaf(leaf, ""), More(b, rest)), epilogue);
    assert !PartsBodied(e.parts);
    Fails(h, e);
  }
}
