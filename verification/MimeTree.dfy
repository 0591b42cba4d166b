/**
 MIME entities, their serialised text (section 5.1.1 of RFC 2046), and the lines
 into which they are flattened for storage.
 */
module MimeTree {
  import opened Basics

  /** A parsed entity; a message part carries another entity with its own head. */
  datatype Entity =
    | Leaf(head: string, body: string)
    | Multi(head: string, boundary: string, prologue: Option<string>, parts: Parts, epilogue: Option<string>)
    | Message(head: string, inner: Entity)

  datatype Parts = Empty | More(first: Entity, rest: Parts)

  /** What header parsing finds: whether the type is message/rfc822, and the boundary. */
  datatype Headers = Headers(isMessage: string -> Option<bool>, boundary: string -> Option<string>)

  const MAX_MIME_DEPTH: nat := 64
  const MAX_MIME_BLEN: nat := 128

  // The serialised text.

  function TextOr(o: Option<string>): string {
    if o.Some? then o.value else ""
  }

  function Open(boundary: string): string {
    "--" + boundary + "\n"
  }

  function Close(boundary: string): string {
    "\n--" + boundary + "--\n"
  }

  /** Where a part stands: right after the head, after some text, or not in a multipart. */
  datatype Place = First | Later | Inside

  function Delimiter(place: Place, boundary: string): string {
    match place
    case First => Open(boundary)
    case Later => "\n" + Open(boundary)
    case Inside => ""
  }

  /** The delimiter line as it stands in the text. */
  function DelimiterLine(place: Place, boundary: string): string {
    match place
    case First => "--" + boundary + "\n"
    case Later => "\n--" + boundary + "\n"
    case Inside => ""
  }

  function PlaceAfter(prologue: Option<string>): Place {
    if prologue.Some? then Later else First
  }

  function Text(e: Entity): string {
    match e
    case Leaf(head, body) => head + "\n" + body
    case Multi(head, boundary, prologue, parts, epilogue) =>
      head + "\n" + TextOr(prologue) + PartsText(parts, boundary, PlaceAfter(prologue)) +
      ("\n--" + boundary + "--\n") + TextOr(epilogue)
    case Message(head, inner) => head + "\n" + Text(inner)
  }

  function PartsText(ps: Parts, boundary: string, place: Place): string {
    match ps
    case Empty => ""
    case More(first, rest) => DelimiterLine(place, boundary) + Text(first) + PartsText(rest, boundary, Later)
  }

  // Flattening.

  /** A stored row without its sort keys. */
  datatype Line = Line(depth: nat, isHeader: bool, data: string)

  function OptionalLine(depth: nat, o: Option<string>): seq<Line> {
    if o.Some? then [Line(depth, false, o.value)] else []
  }

  function Lines(e: Entity, depth: nat): seq<Line> {
    match e
    case Leaf(head, body) =>
      [Line(depth, true, head)] + if body == "" then [] else [Line(depth, false, body)]
    case Multi(head, _, prologue, parts, epilogue) =>
      [Line(depth, true, head)] + OptionalLine(depth, prologue) +
      PartsLines(parts, depth + 1) + OptionalLine(depth, epilogue)
    case Message(head, inner) =>
      [Line(depth, true, head)] + Lines(inner, depth)
  }

  function PartsLines(ps: Parts, depth: nat): seq<Line> {
    match ps
    case Empty => []
    case More(first, rest) => Lines(first, depth) + PartsLines(rest, depth)
  }

  function Height(e: Entity): nat {
    match e
    case Leaf(_, _) => 0
    case Multi(_, _, _, parts, _) => 1 + PartsHeight(parts)
    case Message(_, inner) => Height(inner)
  }

  function PartsHeight(ps: Parts): nat {
    match ps
    case Empty => 0
    case More(first, rest) =>
      var a, b := Height(first), PartsHeight(rest);
      if a >= b then a else b
  }

  /** The head of each entity says what the entity is. */
  predicate Consistent(h: Headers, e: Entity) {
    match e
    case Leaf(head, _) => h.boundary(head) == None
    case Multi(head, boundary, _, parts, _) =>
      && h.boundary(head) == Some(boundary) && 0 < |boundary| < MAX_MIME_BLEN
      && h.isMessage(head) == Some(false)
      && parts.More? && PartsConsistent(h, parts)
    case Message(head, inner) =>
      h.boundary(head) == None && h.isMessage(head) == Some(true) && Consistent(h, inner)
  }

  predicate PartsConsistent(h: Headers, ps: Parts) {
    ps.More? ==> Consistent(h, ps.first) && PartsConsistent(h, ps.rest)
  }

  /** The last row of the entity is the head of a leaf without body. */
  predicate EndsBare(e: Entity) {
    match e
    case Leaf(_, body) => body == ""
    case Multi(_, _, _, parts, epilogue) => epilogue.None? && PartsEndBare(parts)
    case Message(_, inner) => EndsBare(inner)
  }

  predicate PartsEndBare(ps: Parts) {
    match ps
    case Empty => false
    case More(first, rest) => if rest.Empty? then EndsBare(first) else PartsEndBare(rest)
  }

  /** No head of a part directly follows the head of a leaf without body. */
  predicate Bodied(e: Entity) {
    match e
    case Leaf(_, _) => true
    case Multi(_, _, _, parts, _) => PartsBodied(parts)
    case Message(_, inner) => Bodied(inner)
  }

  predicate PartsBodied(ps: Parts) {
    match ps
    case Empty => true
    case More(first, rest) => Bodied(first) && PartsBodied(rest) && (rest.More? ==> !EndsBare(first))
  }

  // Closing delimiters are only written when the next row comes.

  /** The boundaries still open after the rows of the entity, outermost first. */
  function StillOpen(e: Entity): seq<string> {
    match e
    case Leaf(_, _) => []
    case Multi(_, boundary, _, parts, epilogue) =>
      if epilogue.Some? then [] else [boundary] + PartsStillOpen(parts)
    case Message(_, inner) => StillOpen(inner)
  }

  function PartsStillOpen(ps: Parts): seq<string> {
    match ps
    case Empty => []
    case More(first, rest) => if rest.Empty? then StillOpen(first) else PartsStillOpen(rest)
  }

  /**
   No multipart head directly follows the rows of a multipart that is still open:
   the row after a nested multipart is the head of a leaf or message, or an epilogue.
   */
  predicate Separated(e: Entity) {
    match e
    case Leaf(_, _) => true
    case Multi(_, _, _, parts, _) => PartsSeparated(parts)
    case Message(_, inner) => Separated(inner)
  }

  predicate PartsSeparated(ps: Parts) {
    match ps
    case Empty => true
    case More(first, rest) =>
      && Separated(first) && PartsSeparated(rest)
      && (rest.More? && StillOpen(first) != [] ==> !rest.first.Multi?)
  }

  /** Close delimiters from the innermost boundary outwards. */
  function CloseAll(open: seq<string>): string {
    if open == [] then "" else Close(open[|open| - 1]) + CloseAll(open[..|open| - 1])
  }

  /** The text of an entity up to the delimiters that are still to come. */
  function OpenText(e: Entity): string {
    match e
    case Leaf(head, body) => head + "\n" + body
    case Multi(head, boundary, prologue, parts, epilogue) =>
      var start := head + "\n" + TextOr(prologue) + OpenPartsText(parts, boundary, PlaceAfter(prologue));
      if epilogue.Some? then start + CloseAll([boundary] + PartsStillOpen(parts)) + epilogue.value else start
    case Message(head, inner) => head + "\n" + OpenText(inner)
  }

  function OpenPartsText(ps: Parts, boundary: string, place: Place): string {
    match ps
    case Empty => ""
    case More(first, rest) =>
      Delimiter(place, boundary) + OpenText(first) +
      if rest.Empty? then "" else CloseAll(StillOpen(first)) + OpenPartsText(rest, boundary, Later)
  }

  lemma {:induction false} CloseAllOuter(outer: string, inner: seq<string>)
    ensures CloseAll([outer] + inner) == CloseAll(inner) + Close(outer)
  {
    var all := [outer] + inner;
    if inner == [] {
      assert all[..0] == [];
      assert CloseAll(all) == Close(outer) + "";
    } else {
      var n := |inner| - 1;
      assert all[|all| - 1] == inner[n] && all[..|all| - 1] == [outer] + inner[..n];
      CloseAllOuter(outer, inner[..n]);
      Assoc(Close(inner[n]), CloseAll(inner[..n]), Close(outer));
    }
  }

  /** The text is the open text and the outstanding close delimiters. */
  lemma {:induction false} TextSplits(h: Headers, e: Entity)
    requires Consistent(h, e)
    ensures Text(e) == OpenText(e) + CloseAll(StillOpen(e))
  {
    match e
    case Leaf(head, body) =>
    case Message(head, inner) =>
      TextSplits(h, inner);
      Assoc(head + "\n", OpenText(inner), CloseAll(StillOpen(inner)));
    case Multi(head, boundary, prologue, parts, epilogue) =>
      var place := PlaceAfter(prologue);
      var front := head + "\n" + TextOr(prologue);
      var open, still := OpenPartsText(parts, boundary, place), PartsStillOpen(parts);
      PartsTextSplits(h, parts, boundary, place);
      CloseAllOuter(boundary, still);
      calc {
        front + PartsText(parts, boundary, place) + Close(boundary);
        front + (open + CloseAll(still)) + Close(boundary);
        { Assoc(front, open, CloseAll(still)); }
        front + open + CloseAll(still) + Close(boundary);
        { Assoc(front + open, CloseAll(still), Close(boundary)); }
        front + open + CloseAll([boundary] + still);
      }
  }

  lemma {:induction false} PartsTextSplits(h: Headers, ps: Parts, boundary: string, place: Place)
    requires PartsConsistent(h, ps) && ps.More?
    ensures PartsText(ps, boundary, place) == OpenPartsText(ps, boundary, place) + CloseAll(PartsStillOpen(ps))
  {
    var first, rest := ps.first, ps.rest;
    TextSplits(h, first);
    var front := Delimiter(place, boundary);
    assert DelimiterLine(place, boundary) == front;
    var closing := CloseAll(StillOpen(first));
    Assoc(front, OpenText(first), closing);
    if rest.More? {
      PartsTextSplits(h, rest, boundary, Later);
      var more, last := OpenPartsText(rest, boundary, Later), CloseAll(PartsStillOpen(rest));
      calc {
        front + OpenText(first) + closing + (more + last);
        { Assoc(front + OpenText(first) + closing, more, last); }
        front + OpenText(first) + closing + more + last;
        { Assoc(front + OpenText(first), closing, more); }
        front + OpenText(first) + (closing + more) + last;
      }
    }
  }

  /** What is still open is never part of the open text: the text is longer. */
  lemma {:induction false} CloseAllLength(open: seq<string>)
    ensures |CloseAll(open)| >= 6 * |open|
  {
    if open != [] {
      CloseAllLength(open[..|open| - 1]);
    }
  }
}
