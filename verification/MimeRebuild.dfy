/**
 Rebuilding a message from its stored lines (`_mime_retrieve`): boundaries are
 kept in a table indexed by depth, and delimiters are regenerated row by row.
 */
module MimeRebuild {
  import opened Basics
  import opened MimeTree

  datatype State = State(
    out: string, depth: nat, isHeader: bool, gotBoundary: bool, isMessage: bool,
    blist: seq<string>, boundary: string, rows: nat)

  function Slots(n: nat): seq<string> {
    seq(n, _ => "")
  }

  function Initial(): State {
    State("", 0, true, false, false, Slots(MAX_MIME_DEPTH + 1), "", 0)
  }

  function Slot(blist: seq<string>, i: nat): string {
    if i < |blist| then blist[i] else ""
  }

  function Cleared(blist: seq<string>, i: nat): seq<string> {
    if i < |blist| then blist[i := ""] else blist
  }

  function Truncated(boundary: string): string {
    if |boundary| < MAX_MIME_BLEN then boundary else boundary[..MAX_MIME_BLEN - 1]
  }

  predicate MustClose(blist: seq<string>, prev: nat, depth: nat) {
    prev > 0 && prev - 1 >= depth && Slot(blist, prev - 1) != ""
  }

  function ClosingText(blist: seq<string>, prev: nat, depth: nat): string
    decreases prev
  {
    if MustClose(blist, prev, depth)
    then Close(blist[prev - 1]) + ClosingText(Cleared(blist, prev - 1), prev - 1, depth)
    else ""
  }

  function ClosedSlots(blist: seq<string>, prev: nat, depth: nat): seq<string>
    decreases prev
  {
    if MustClose(blist, prev, depth) then ClosedSlots(Cleared(blist, prev - 1), prev - 1, depth) else blist
  }

  function DelimiterText(prevHeader: bool, prevIsMessage: bool, prevBoundary: bool, depth: nat,
                         boundary: string): string {
    if prevHeader && depth > 0 && !prevIsMessage then Open(boundary)
    else if !prevHeader || prevBoundary then "\n" + Open(boundary)
    else ""
  }

  /** The slots with the boundary of this line, if its head declares one. */
  function Declared(h: Headers, blist: seq<string>, line: Line): seq<string> {
    if line.isHeader && h.boundary(line.data).Some? && line.depth < |blist|
    then blist[line.depth := Truncated(h.boundary(line.data).value)]
    else blist
  }

  function DeclaredBoundary(h: Headers, current: string, line: Line): string {
    if line.isHeader && h.boundary(line.data).Some? then Truncated(h.boundary(line.data).value) else current
  }

  /** The boundary that delimits a row: its parent's, if that is open. */
  function Current(blist: seq<string>, depth: nat, own: string): string {
    if depth > 0 && Slot(blist, depth - 1) != "" then blist[depth - 1] else own
  }

  function Step(h: Headers, st: State, line: Line): State {
    if line.depth > MAX_MIME_DEPTH then st.(depth := line.depth) else
    var declared := Declared(h, st.blist, line);
    var blist := ClosedSlots(declared, st.depth, line.depth);
    var boundary := Current(blist, line.depth, DeclaredBoundary(h, st.boundary, line));
    var delimiter := if line.isHeader
      then DelimiterText(st.isHeader, st.isMessage, st.gotBoundary, line.depth, boundary) else "";
    var tail := if line.isHeader then line.data + "\n" else line.data;
    State(
      st.out + ClosingText(declared, st.depth, line.depth) + delimiter + tail,
      line.depth, line.isHeader,
      line.isHeader && h.boundary(line.data).Some?,
      if line.isHeader && h.isMessage(line.data).Some? then h.isMessage(line.data).value else st.isMessage,
      blist, boundary, st.rows + 1)
  }

  function Steps(h: Headers, st: State, lines: seq<Line>): State {
    if lines == [] then st else
    Step(h, Steps(h, st, lines[..|lines| - 1]), lines[|lines| - 1])
  }

  /** The last close delimiter, if the outermost boundary is still open. */
  function Finished(st: State): string {
    if st.rows > 2 && Slot(st.blist, 0) != "" then st.out + Close(st.blist[0]) else st.out
  }

  function Rebuilt(h: Headers, lines: seq<Line>): string {
    Finished(Steps(h, Initial(), lines))
  }

  /** The inner loop: close every level down to the depth of the row. */
  method CloseLevels(blist: array<string>, from: nat, depth: nat) returns (text: string)
    modifies blist
    ensures text == ClosingText(old(blist[..]), from, depth)
    ensures blist[..] == ClosedSlots(old(blist[..]), from, depth)
  {
    text := "";
    var prev: nat := from;
    while prev > 0 && prev - 1 >= depth && prev - 1 < blist.Length && blist[prev - 1] != ""
      invariant text + ClosingText(blist[..], prev, depth) == ClosingText(old(blist[..]), from, depth)
      invariant ClosedSlots(blist[..], prev, depth) == ClosedSlots(old(blist[..]), from, depth)
      decreases prev
    {
      ghost var before := blist[..];
      var line := "\n--" + blist[prev - 1] + "--\n";
      Assoc(text, line, ClosingText(Cleared(before, prev - 1), prev - 1, depth));
      text := text + line;
      blist[prev - 1] := "";
      assert blist[..] == Cleared(before, prev - 1);
      prev := prev - 1;
    }
    assert text + "" == text;
  }

  /** The slots and the current boundary for a row, and the delimiters it closes. */
  method Prepare(h: Headers, blist: array<string>, prevDepth: nat, line: Line, current: string)
    returns (boundary: string, got: bool, closing: string)
    requires line.depth < blist.Length
    modifies blist
    ensures got <==> line.isHeader && h.boundary(line.data).Some?
    ensures var declared := Declared(h, old(blist[..]), line);
            && blist[..] == ClosedSlots(declared, prevDepth, line.depth)
            && closing == ClosingText(declared, prevDepth, line.depth)
            && boundary == Current(blist[..], line.depth, DeclaredBoundary(h, current, line))
  {
    boundary, got := current, false;
    if line.isHeader {
      var found := h.boundary(line.data);
      if found.Some? {
        boundary, got := Truncated(found.value), true;
        blist[line.depth] := boundary;
      }
    }
    assert blist[..] == Declared(h, old(blist[..]), line);
    closing := CloseLevels(blist, prevDepth, line.depth);
    if line.depth > 0 && blist[line.depth - 1] != "" {
      boundary := blist[line.depth - 1];
    }
  }

  method Delimit(isHeader: bool, prevHeader: bool, prevIsMessage: bool, prevBoundary: bool, depth: nat,
                 boundary: string)
    returns (delimiter: string)
    ensures delimiter ==
            if isHeader then DelimiterText(prevHeader, prevIsMessage, prevBoundary, depth, boundary) else ""
  {
    delimiter := "";
    if isHeader {
      if prevHeader && depth > 0 && !prevIsMessage {
        delimiter := "--" + boundary + "\n";
      } else if !prevHeader || prevBoundary {
        delimiter := "\n" + ("--" + boundary + "\n");
      }
    }
  }

  lemma NextStep(h: Headers, lines: seq<Line>, i: nat)
    requires i < |lines|
    ensures Steps(h, Initial(), lines[..i + 1]) == Step(h, Steps(h, Initial(), lines[..i]), lines[i])
  {
    assert lines[..i + 1][..i] == lines[..i];
  }

  /** One row within the depth limit. */
  method HandleRow(h: Headers, blist: array<string>, ghost st: State, line: Line, before: string, prevDepth: nat,
                   prevHeader: bool, prevBoundary: bool, prevIsMessage: bool, current: string)
    returns (out: string, gotBoundary: bool, isMessage: bool, boundary: string)
    requires line.depth <= MAX_MIME_DEPTH < blist.Length
    requires st == State(before, prevDepth, prevHeader, prevBoundary, prevIsMessage, blist[..], current, st.rows)
    modifies blist
    ensures Step(h, st, line) ==
            State(out, line.depth, line.isHeader, gotBoundary, isMessage, blist[..], boundary, st.rows + 1)
  {
    isMessage := prevIsMessage;
    if line.isHeader && h.isMessage(line.data).Some? {
      isMessage := h.isMessage(line.data).value;
    }
    var closing;
    boundary, gotBoundary, closing := Prepare(h, blist, prevDepth, line, current);
    var delimiter := Delimit(line.isHeader, prevHeader, prevIsMessage, prevBoundary, line.depth, boundary);
    out := before + closing + delimiter + if line.isHeader then line.data + "\n" else line.data;
  }

  /** The loop over the result set. */
  method Retrieve(h: Headers, lines: seq<Line>) returns (text: Option<string>)
    ensures text.Some? ==> text.value == Rebuilt(h, lines)
    ensures text.None? <==> Steps(h, Initial(), lines).rows == 0
  {
    var blist := new string[MAX_MIME_DEPTH + 1](_ => "");
    assert blist[..] == Initial().blist;
    var out, boundary := "", "";
    var depth: nat, rows: nat := 0, 0;
    var isHeader, gotBoundary, isMessage := true, false, false;
    for i := 0 to |lines|
      invariant blist.Length == MAX_MIME_DEPTH + 1
      invariant Steps(h, Initial(), lines[..i]) ==
                State(out, depth, isHeader, gotBoundary, isMessage, blist[..], boundary, rows)
    {
      NextStep(h, lines, i);
      var line := lines[i];
      var prevDepth := depth;
      depth := line.depth;
      if depth > MAX_MIME_DEPTH {
        continue;
      }
      out, gotBoundary, isMessage, boundary := HandleRow(h, blist, Steps(h, Initial(), lines[..i]), line, out,
                                                         prevDepth, isHeader, gotBoundary, isMessage, boundary);
      isHeader := line.isHeader;
      rows := rows + 1;
    }
    assert lines[..|lines|] == lines;
    if rows > 2 && blist[0] != "" {
      out := out + ("\n--" + blist[0] + "--\n");
    }
    text := if rows == 0 then None else Some(out);
  }
}
