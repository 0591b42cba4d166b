/**
 The command tokenizer (`imap4_tokenizer_main`) on a fresh line: quoted strings,
 brackets that must match, atoms, and the announcement of a literal.
 */
module Tokenizer {
  import opened Basics

  const MAX_ARGS: nat := 512
  const MAX_LINESIZE: nat := 65536

  datatype Token = Quoted(text: string) | Bracket(c: char) | Atom(text: string)

  /** The result codes -1, 0 (a literal follows) and 1. */
  datatype Outcome = Fail | Literal | Ok(tokens: seq<Token>)

  predicate IsBracket(c: char) {
    c == '(' || c == ')' || c == '[' || c == ']'
  }

  predicate IsDigit(c: char) {
    '0' <= c <= '9'
  }

  /** A quote that is not escaped by a backslash. */
  predicate IsQuote(s: string, i: nat)
    requires i < |s|
  {
    s[i] == '"' && (i == 0 || s[i - 1] != '\\')
  }

  predicate InAtom(s: string, i: nat)
    requires i < |s|
  {
    s[i] != ' ' && !IsBracket(s[i]) && (s[i] == '"' ==> i > 0 && s[i - 1] == '\\')
  }

  function AtomEnd(s: string, i: nat): (j: nat)
    requires i <= |s|
    ensures i <= j <= |s|
    ensures i < |s| && InAtom(s, i) ==> i < j
    ensures forall k :: i <= k < j ==> InAtom(s, k)
    decreases |s| - i
  {
    if i < |s| && InAtom(s, i) then AtomEnd(s, i + 1) else i
  }

  function SkipDigits(s: string, i: nat): (j: nat)
    requires i <= |s|
    ensures i <= j <= |s|
    ensures forall k :: i <= k < j ==> IsDigit(s[k])
    ensures j < |s| ==> !IsDigit(s[j])
    decreases |s| - i
  {
    if i < |s| && IsDigit(s[i]) then SkipDigits(s, i + 1) else i
  }

  /** `{number}` or `{number+}` at the end of the line. */
  predicate LiteralAt(s: string, i: nat)
    requires i < |s|
  {
    s[i] == '{' &&
    var j := SkipDigits(s, i + 1);
    (j + 1 == |s| && s[j] == '}') || (j + 2 == |s| && s[j] == '+' && s[j + 1] == '}')
  }

  /** The brackets left open by one more bracket, or nothing if it does not match. */
  function Push(open: seq<char>, c: char): Option<seq<char>> {
    if c == '(' || c == '[' then Some(open + [c])
    else if open == [] then None
    else
      var top := open[|open| - 1];
      if (c == ')' && top == '(') || (c == ']' && top == '[') then Some(open[..|open| - 1]) else None
  }

  function Scan(s: string, i: nat, tokens: seq<Token>, open: seq<char>, quote: Option<nat>): Outcome
    requires i <= |s| && (quote.Some? ==> quote.value < i)
    decreases |s| - i, 1
  {
    if i == |s| || |tokens| >= MAX_ARGS - 1 then
      if open == [] then Ok(tokens) else Fail
    else if IsQuote(s, i) then
      if quote.Some? then Scan(s, i + 1, tokens + [Quoted(s[quote.value + 1..i])], open, None)
      else Scan(s, i + 1, tokens, open, Some(i))
    else if quote.Some? then Scan(s, i + 1, tokens, open, quote)
    else ScanPlain(s, i, tokens, open)
  }

  /** Outside quotes: a bracket, a space, a literal or an atom. */
  function ScanPlain(s: string, i: nat, tokens: seq<Token>, open: seq<char>): Outcome
    requires i < |s| && !IsQuote(s, i)
    decreases |s| - i, 0
  {
    if IsBracket(s[i]) then
      var next := Push(open, s[i]);
      if next.None? then Fail else Scan(s, i + 1, tokens + [Bracket(s[i])], next.value, None)
    else if s[i] == ' ' then Scan(s, i + 1, tokens, open, None)
    else if LiteralAt(s, i) then Literal
    else
      var j := AtomEnd(s, i);
      Scan(s, j, tokens + [Atom(s[i..j])], open, None)
  }

  function Tokenize(s: string): Outcome {
    Scan(s, 0, [], [], None)
  }

  // Nesting.

  /** The brackets left open by the tokens, if they match so far. */
  function Open(tokens: seq<Token>): Option<seq<char>> {
    if tokens == [] then Some([]) else
    var before := Open(tokens[..|tokens| - 1]);
    var t := tokens[|tokens| - 1];
    if before.None? || !t.Bracket? then before else Push(before.value, t.c)
  }

  /** Every bracket token is matched, over both kinds together. */
  predicate ProperlyNested(tokens: seq<Token>) {
    Open(tokens) == Some([])
  }

  /** Bracket tokens are brackets, and atoms are not. */
  predicate BracketOk(t: Token) {
    match t
    case Bracket(c) => IsBracket(c)
    case Atom(text) => text != "" && !IsBracket(text[0])
    case Quoted(_) => true
  }

  predicate BracketsOk(tokens: seq<Token>) {
    forall k :: 0 <= k < |tokens| ==> BracketOk(tokens[k])
  }

  lemma OpenSnoc(tokens: seq<Token>, t: Token)
    ensures Open(tokens + [t]) ==
            if Open(tokens).None? || !t.Bracket? then Open(tokens) else Push(Open(tokens).value, t.c)
  {
    assert (tokens + [t])[..|tokens|] == tokens;
  }

  /** The scanner's stack is what the tokens leave open; there is room for one more token. */
  predicate Sane(tokens: seq<Token>, open: seq<char>) {
    Open(tokens) == Some(open) && BracketsOk(tokens) && |open| <= |tokens| <= MAX_ARGS - 1
  }

  lemma SaneWord(tokens: seq<Token>, open: seq<char>, t: Token)
    requires Sane(tokens, open) && |tokens| < MAX_ARGS - 1 && !t.Bracket? && BracketOk(t)
    ensures Sane(tokens + [t], open)
  {
    OpenSnoc(tokens, t);
  }

  lemma SaneBracket(tokens: seq<Token>, open: seq<char>, c: char)
    requires Sane(tokens, open) && |tokens| < MAX_ARGS - 1 && IsBracket(c) && Push(open, c).Some?
    ensures Sane(tokens + [Bracket(c)], Push(open, c).value)
  {
    OpenSnoc(tokens, Bracket(c));
  }

  predicate Nests(r: Outcome) {
    r.Ok? ==> ProperlyNested(r.tokens) && BracketsOk(r.tokens) && |r.tokens| <= MAX_ARGS - 1
  }

  lemma {:induction false} ScanNests(s: string, i: nat, tokens: seq<Token>, open: seq<char>, quote: Option<nat>)
    requires i <= |s| && (quote.Some? ==> quote.value < i) && Sane(tokens, open)
    ensures Nests(Scan(s, i, tokens, open, quote))
    decreases |s| - i
  {
    if i < |s| && |tokens| < MAX_ARGS - 1 {
      if IsQuote(s, i) {
        if quote.Some? {
          var t := Quoted(s[quote.value + 1..i]);
          SaneWord(tokens, open, t);
          ScanNests(s, i + 1, tokens + [t], open, None);
        } else {
          ScanNests(s, i + 1, tokens, open, Some(i));
        }
      } else if quote.Some? {
        ScanNests(s, i + 1, tokens, open, quote);
      } else {
        ScanPlainNests(s, i, tokens, open);
      }
    }
  }

  lemma {:induction false} ScanPlainNests(s: string, i: nat, tokens: seq<Token>, open: seq<char>)
    requires i < |s| && |tokens| < MAX_ARGS - 1 && !IsQuote(s, i) && Sane(tokens, open)
    ensures Nests(ScanPlain(s, i, tokens, open))
    decreases |s| - i, 0
  {
    if IsBracket(s[i]) {
      if Push(open, s[i]).Some? {
        SaneBracket(tokens, open, s[i]);
        ScanNests(s, i + 1, tokens + [Bracket(s[i])], Push(open, s[i]).value, None);
      }
    } else if s[i] == ' ' {
      ScanNests(s, i + 1, tokens, open, None);
    } else if !LiteralAt(s, i) {
      var j := AtomEnd(s, i);
      SaneWord(tokens, open, Atom(s[i..j]));
      ScanNests(s, j, tokens + [Atom(s[i..j])], open, None);
    }
  }

  /** A line that tokenizes yields properly nested brackets and at most MAX_ARGS - 1 tokens. */
  lemma TokensNest(s: string)
    ensures Nests(Tokenize(s))
  {
    ScanNests(s, 0, [], [], None);
  }

  // Reading back a written line.

  predicate Delimiter(c: char) {
    c == ' ' || c == '(' || c == ')' || c == '[' || c == ']'
  }

  /** Every quote in the text has a backslash right before it. */
  predicate QuotesEscaped(text: string) {
    forall k :: 0 <= k < |text| && text[k] == '"' ==> k > 0 && text[k - 1] == '\\'
  }

  /** Tokens that can be written down as they are. */
  predicate Writable(t: Token) {
    match t
    case Quoted(text) => QuotesEscaped(text) && (text != "" ==> text[|text| - 1] != '\\')
    case Bracket(c) => c == '(' || c == ')' || c == '[' || c == ']'
    case Atom(text) => text != "" && QuotesEscaped(text) && forall k :: 0 <= k < |text| ==> !Delimiter(text[k])
  }

  predicate AllWritable(tokens: seq<Token>) {
    forall k :: 0 <= k < |tokens| ==> Writable(tokens[k])
  }

  /** Digits in braces, with an optional `+` after them. */
  predicate LiteralForm(text: string) {
    |text| >= 2 && text[0] == '{' && text[|text| - 1] == '}' &&
    var n := if |text| >= 3 && text[|text| - 2] == '+' then |text| - 2 else |text| - 1;
    forall k :: 1 <= k < n ==> '0' <= text[k] <= '9'
  }

  predicate LiteralLast(tokens: seq<Token>) {
    tokens != [] && var last := tokens[|tokens| - 1]; last.Atom? && LiteralForm(last.text)
  }

  /**
   What a line of these tokens yields: only the first MAX_ARGS - 1 count, a bracket that
   does not match or is left open is an error, and a literal at the end is announced.
   */
  function Verdict(tokens: seq<Token>): Outcome {
    Judged(Seen(tokens), Open(Seen(tokens)), |tokens| < MAX_ARGS && LiteralLast(tokens))
  }

  function Seen(tokens: seq<Token>): seq<Token> {
    if |tokens| <= 511 then tokens else tokens[..511]
  }

  function Judged(seen: seq<Token>, open: Option<seq<char>>, literal: bool): Outcome {
    if open.None? then Fail else if literal then Literal else if open.value == [] then Ok(seen) else Fail
  }

  function TokenText(t: Token): string {
    match t
    case Quoted(text) => "\"" + text + "\""
    case Bracket(c) => [c]
    case Atom(text) => text
  }

  function LineText(tokens: seq<Token>): string {
    if tokens == [] then ""
    else TokenText(tokens[0]) + if |tokens| == 1 then "" else " " + LineText(tokens[1..])
  }

  /** The line has this text at position i. */
  predicate Here(s: string, i: nat, text: string) {
    i + |text| <= |s| && s[i..i + |text|] == text
  }

  /** A token is written here, and the line ends or a space follows. */
  predicate Written(s: string, i: nat, t: Token) {
    Here(s, i, TokenText(t)) && (i + |TokenText(t)| < |s| ==> s[i + |TokenText(t)|] == ' ')
  }

  lemma HereAt(s: string, i: nat, text: string, k: nat)
    requires Here(s, i, text) && k < |text|
    ensures i + k < |s| && s[i + k] == text[k]
  {
    assert s[i..i + |text|][k] == s[i + k];
  }

  lemma {:induction false} AtomEndIs(s: string, i: nat, j: nat)
    requires i <= j <= |s| && (j < |s| ==> s[j] == ' ') && forall k :: i <= k < j ==> InAtom(s, k)
    ensures AtomEnd(s, i) == j
    decreases j - i
  {
    if i < j {
      AtomEndIs(s, i + 1, j);
    }
  }

  lemma {:induction false} InsideQuote(s: string, i: nat, j: nat, tokens: seq<Token>, open: seq<char>, q: nat)
    requires q < i <= j < |s| && |tokens| < MAX_ARGS - 1 && forall k :: i <= k < j ==> !IsQuote(s, k)
    ensures Scan(s, i, tokens, open, Some(q)) == Scan(s, j, tokens, open, Some(q))
    decreases j - i
  {
    if i < j {
      InsideQuote(s, i + 1, j, tokens, open, q);
    }
  }

  predicate Fresh(s: string, i: nat)
    requires i <= |s|
  {
    i == 0 || s[i - 1] == ' '
  }

  /** The brackets open after one more token. */
  function OpenAfter(open: seq<char>, t: Token): Option<seq<char>> {
    if t.Bracket? then Push(open, t.c) else Some(open)
  }

  /** One written token is read back. */
  lemma QuotedReads(s: string, i: nat, t: Token, tokens: seq<Token>, open: seq<char>)
    requires t.Quoted? && Writable(t) && Written(s, i, t) && Fresh(s, i) && |tokens| < MAX_ARGS - 1
    ensures Scan(s, i, tokens, open, None) ==
            Scan(s, i + |TokenText(t)|, tokens + [t], OpenAfter(open, t).value, None)
  {
    var text, all := t.text, TokenText(t);
    var j := i + 1 + |text|;
    HereAt(s, i, all, 0);
    HereAt(s, i, all, 1 + |text|);
    forall k | i < k < j
      ensures s[k] == text[k - i - 1]
    {
      HereAt(s, i, all, k - i);
    }
    assert s[i + 1..j] == text;
    if text != "" {
      assert s[j - 1] == text[|text| - 1];
    }
    assert IsQuote(s, i) && IsQuote(s, j);
    forall k | i < k < j
      ensures !IsQuote(s, k)
    {
      assert s[k] == text[k - i - 1];
      assert k > i + 1 ==> s[k - 1] == text[k - i - 2];
    }
    QuoteReads(s, i, j, tokens, open);
  }

  /** From one quote to the next. */
  lemma QuoteReads(s: string, i: nat, j: nat, tokens: seq<Token>, open: seq<char>)
    requires i < j < |s| && |tokens| < MAX_ARGS - 1 && IsQuote(s, i) && IsQuote(s, j)
    requires forall k :: i < k < j ==> !IsQuote(s, k)
    ensures Scan(s, i, tokens, open, None) == Scan(s, j + 1, tokens + [Quoted(s[i + 1..j])], open, None)
  {
    InsideQuote(s, i + 1, j, tokens, open, i);
  }

  /** A literal ends the line. */
  lemma LiteralEndsLine(s: string, i: nat, m: nat)
    requires i < m < |s| && s[m] == ' '
    ensures !LiteralAt(s, i)
  {
  }

  lemma LiteralExactly(s: string, i: nat, text: string)
    requires Here(s, i, text) && i + |text| == |s| && text != ""
    ensures LiteralAt(s, i) <==> LiteralForm(text)
  {
    forall k | 0 <= k < |text|
      ensures s[i + k] == text[k]
    {
      HereAt(s, i, text, k);
    }
    if LiteralForm(text) {
      var n := if |text| >= 3 && text[|text| - 2] == '+' then |text| - 2 else |text| - 1;
      assert s[i + n] == text[n];
      forall k | i + 1 <= k < i + n
        ensures IsDigit(s[k])
      {
        assert s[i + (k - i)] == text[k - i];
      }
      DigitsEnd(s, i + 1, i + n);
    }
  }

  lemma DigitsEnd(s: string, i: nat, j: nat)
    requires i <= j < |s| && !IsDigit(s[j]) && forall k :: i <= k < j ==> IsDigit(s[k])
    ensures SkipDigits(s, i) == j
  {
  }

  /** The token is read as a word or bracket, not as the announcement of a literal. */
  predicate NoLiteral(s: string, i: nat, t: Token) {
    t.Atom? && i + |t.text| == |s| ==> !LiteralForm(t.text)
  }

  lemma AtomReads(s: string, i: nat, t: Token, tokens: seq<Token>, open: seq<char>)
    requires t.Atom? && Writable(t) && Written(s, i, t) && NoLiteral(s, i, t) && |tokens| < MAX_ARGS - 1
    ensures Scan(s, i, tokens, open, None) ==
            Scan(s, i + |TokenText(t)|, tokens + [t], OpenAfter(open, t).value, None)
  {
    AtomChars(s, i, t);
    var j := i + |t.text|;
    assert !LiteralAt(s, i) by {
      if j < |s| {
        LiteralEndsLine(s, i, j);
      } else {
        LiteralExactly(s, i, t.text);
      }
    }
    AtomEndIs(s, i, j);
  }

  lemma AtomChars(s: string, i: nat, t: Token)
    requires t.Atom? && Writable(t) && Written(s, i, t)
    ensures i < |s| && s[i] != '"' && !Delimiter(s[i])
    ensures s[i..i + |t.text|] == t.text && forall k :: i <= k < i + |t.text| ==> InAtom(s, k)
  {
    HereAt(s, i, t.text, 0);
    forall k | i <= k < i + |t.text|
      ensures InAtom(s, k)
    {
      HereAt(s, i, t.text, k - i);
      if k > i {
        HereAt(s, i, t.text, k - i - 1);
      }
    }
  }

  lemma LiteralReads(s: string, i: nat, t: Token, tokens: seq<Token>, open: seq<char>)
    requires t.Atom? && Writable(t) && Written(s, i, t) && !NoLiteral(s, i, t) && |tokens| < MAX_ARGS - 1
    ensures Scan(s, i, tokens, open, None) == Literal
  {
    AtomChars(s, i, t);
    LiteralExactly(s, i, t.text);
  }

  /** Where the next token starts: after the space, if there is one. */
  function NextStart(s: string, j: nat): nat {
    if j < |s| then j + 1 else j
  }

  /** The space is skipped; once the argument list is full it makes no difference. */
  lemma GapReads(s: string, j: nat, tokens: seq<Token>, open: seq<char>, r: Outcome)
    requires j <= |s| && (j < |s| ==> s[j] == ' ') && Scan(s, NextStart(s, j), tokens, open, None) == r
    ensures Scan(s, j, tokens, open, None) == r
  {
  }

  lemma SaneAfter(tokens: seq<Token>, open: seq<char>, t: Token)
    requires Sane(tokens, open) && |tokens| < MAX_ARGS - 1 && Writable(t) && OpenAfter(open, t).Some?
    ensures Sane(tokens + [t], OpenAfter(open, t).value)
  {
    if t.Bracket? {
      SaneBracket(tokens, open, t.c);
    } else {
      SaneWord(tokens, open, t);
    }
  }

  lemma BracketReads(s: string, i: nat, t: Token, tokens: seq<Token>, open: seq<char>)
    requires t.Bracket? && Writable(t) && Written(s, i, t) && |tokens| < MAX_ARGS - 1 && OpenAfter(open, t).Some?
    ensures Scan(s, i, tokens, open, None) ==
            Scan(s, i + |TokenText(t)|, tokens + [t], OpenAfter(open, t).value, None)
  {
    HereAt(s, i, TokenText(t), 0);
    assert IsBracket(s[i]) && s[i] == t.c;
  }

  /** A bracket that does not match ends the scan. */
  lemma MismatchReads(s: string, i: nat, t: Token, tokens: seq<Token>, open: seq<char>)
    requires Writable(t) && Written(s, i, t) && |tokens| < MAX_ARGS - 1 && OpenAfter(open, t).None?
    ensures Scan(s, i, tokens, open, None) == Fail
  {
    HereAt(s, i, TokenText(t), 0);
    assert IsBracket(s[i]) && s[i] == t.c;
  }

  lemma TokenScan(s: string, i: nat, t: Token, tokens: seq<Token>, open: seq<char>)
    requires Writable(t) && Written(s, i, t) && Fresh(s, i) && |tokens| < MAX_ARGS - 1 && OpenAfter(open, t).Some?
    requires NoLiteral(s, i, t)
    ensures Scan(s, i, tokens, open, None) ==
            Scan(s, i + |TokenText(t)|, tokens + [t], OpenAfter(open, t).value, None)
  {
    if t.Quoted? {
      QuotedReads(s, i, t, tokens, open);
    } else if t.Atom? {
      AtomReads(s, i, t, tokens, open);
    } else {
      BracketReads(s, i, t, tokens, open);
    }
  }

  lemma LineHead(s: string, i: nat, rest: seq<Token>)
    requires i <= |s| && s[i..] == LineText(rest) && rest != []
    ensures Written(s, i, rest[0])
    ensures var next := NextStart(s, i + |TokenText(rest[0])|);
            next <= |s| && s[next..] == LineText(rest[1..]) && (|rest| > 1 ==> Fresh(s, next))
    ensures i + |TokenText(rest[0])| == |s| <==> |rest| == 1
  {
    var head := TokenText(rest[0]);
    if |rest| == 1 {
      assert rest[1..] == [] && s[i..] == head + "";
      CutHere(s, i, head, "");
    } else {
      var tail := LineText(rest[1..]);
      assert head + (" " + tail) == (head + " ") + tail;
      CutHere(s, i, head, " " + tail);
      CutHere(s, i, head + " ", tail);
      assert s[i + |head|..][0] == ' ';
    }
  }

  lemma CutHere(s: string, i: nat, head: string, tail: string)
    requires i <= |s| && s[i..] == head + tail
    ensures Here(s, i, head) && s[i + |head|..] == tail
  {
    assert s[i..i + |head|] == s[i..][..|head|];
    assert s[i + |head|..] == s[i..][|head|..];
  }

  lemma MoveOne(done: seq<Token>, rest: seq<Token>)
    requires rest != []
    ensures done + rest == (done + [rest[0]]) + rest[1..]
  {
  }

  // What the verdict is when the scan ends.

  lemma SeenPrefix(done: seq<Token>, rest: seq<Token>)
    requires rest != [] && |done| < MAX_ARGS - 1
    ensures |done| < |Seen(done + rest)| && Seen(done + rest)[..|done| + 1] == done + [rest[0]]
  {
  }

  lemma MismatchVerdict(done: seq<Token>, rest: seq<Token>, open: seq<char>)
    requires rest != [] && |done| < MAX_ARGS - 1 && Open(done) == Some(open) && OpenAfter(open, rest[0]).None?
    ensures Verdict(done + rest) == Fail
  {
    var seen := Seen(done + rest);
    assert Open(seen[..|done| + 1]).None? by {
      SeenPrefix(done, rest);
      OpenSnoc(done, rest[0]);
    }
    if Open(seen).Some? {
      PrefixOpen(seen, |done| + 1);
    }
  }

  lemma LiteralVerdict(done: seq<Token>, t: Token, open: seq<char>)
    requires |done| < MAX_ARGS - 1 && Open(done) == Some(open) && t.Atom? && LiteralForm(t.text)
    ensures Verdict(done + [t]) == Literal
  {
    OpenSnoc(done, t);
    LastOf(done, t);
  }

  lemma LastOf(done: seq<Token>, t: Token)
    requires |done| < MAX_ARGS - 1
    ensures Seen(done + [t]) == done + [t] && (t.Atom? ==> (LiteralLast(done + [t]) <==> LiteralForm(t.text)))
  {
  }

  lemma FullVerdict(done: seq<Token>, rest: seq<Token>, open: seq<char>)
    requires Open(done) == Some(open)
    requires (|done| == MAX_ARGS - 1 && rest != []) || (|done| < MAX_ARGS && rest == [] && !LiteralLast(done))
    ensures Verdict(done + rest) == if open == [] then Ok(done) else Fail
  {
    assert Seen(done + rest) == done;
    assert rest == [] ==> done + rest == done;
  }

  /** The scanner stands at the text of the remaining tokens. */
  predicate Reading(s: string, i: nat, done: seq<Token>, rest: seq<Token>, open: seq<char>) {
    && i <= |s| && s[i..] == LineText(rest) && (rest != [] ==> Fresh(s, i)) && AllWritable(rest)
    && Sane(done, open) && (rest == [] ==> !LiteralLast(done))
  }

  lemma ReadingStep(s: string, i: nat, done: seq<Token>, rest: seq<Token>, open: seq<char>)
    requires Reading(s, i, done, rest, open) && GoesOn(s, i, done, rest, open)
    ensures Written(s, i, rest[0])
    ensures Reading(s, NextStart(s, i + |TokenText(rest[0])|), done + [rest[0]], rest[1..],
                    OpenAfter(open, rest[0]).value)
  {
    LineHead(s, i, rest);
    SaneAfter(done, open, rest[0]);
  }

  lemma ReadingEnd(s: string, i: nat, done: seq<Token>, rest: seq<Token>, open: seq<char>)
    requires Reading(s, i, done, rest, open) && (rest == [] || |done| == MAX_ARGS - 1)
    ensures Scan(s, i, done, open, None) == Verdict(done + rest)
  {
    FullVerdict(done, rest, open);
  }

  /** If the line is read from the next token on, it is read from this one. */
  lemma FirstReads(s: string, i: nat, t: Token, tokens: seq<Token>, open: seq<char>, r: Outcome)
    requires Writable(t) && Written(s, i, t) && Fresh(s, i) && |tokens| < MAX_ARGS - 1 && OpenAfter(open, t).Some?
    requires NoLiteral(s, i, t)
    requires Scan(s, NextStart(s, i + |TokenText(t)|), tokens + [t], OpenAfter(open, t).value, None) == r
    ensures Scan(s, i, tokens, open, None) == r
  {
    GapReads(s, i + |TokenText(t)|, tokens + [t], OpenAfter(open, t).value, r);
    TokenScan(s, i, t, tokens, open);
  }

  /** The scan stops at this token. */
  lemma StopReads(s: string, i: nat, done: seq<Token>, rest: seq<Token>, open: seq<char>)
    requires Reading(s, i, done, rest, open) && rest != [] && |done| < MAX_ARGS - 1
    requires OpenAfter(open, rest[0]).None? || !NoLiteral(s, i, rest[0])
    ensures Scan(s, i, done, open, None) == Verdict(done + rest)
  {
    LineHead(s, i, rest);
    if OpenAfter(open, rest[0]).None? {
      MismatchReads(s, i, rest[0], done, open);
      MismatchVerdict(done, rest, open);
    } else {
      LiteralReads(s, i, rest[0], done, open);
      assert rest == [rest[0]];
      LiteralVerdict(done, rest[0], open);
    }
  }

  /** The scan goes on after this token. */
  predicate GoesOn(s: string, i: nat, done: seq<Token>, rest: seq<Token>, open: seq<char>) {
    rest != [] && |done| < MAX_ARGS - 1 && OpenAfter(open, rest[0]).Some? && NoLiteral(s, i, rest[0])
  }

  lemma EndReads(s: string, i: nat, done: seq<Token>, rest: seq<Token>, open: seq<char>)
    requires Reading(s, i, done, rest, open) && !GoesOn(s, i, done, rest, open)
    ensures Scan(s, i, done, open, None) == Verdict(done + rest)
  {
    if rest == [] || |done| == MAX_ARGS - 1 {
      ReadingEnd(s, i, done, rest, open);
    } else {
      StopReads(s, i, done, rest, open);
    }
  }

  /** The token at the front of the rest is written here and goes on the list. */
  predicate Next(s: string, i: nat, done: seq<Token>, rest: seq<Token>, open: seq<char>) {
    && GoesOn(s, i, done, rest, open)
    && Writable(rest[0]) && Written(s, i, rest[0]) && i <= |s| && Fresh(s, i)
  }

  lemma NextWritten(s: string, i: nat, done: seq<Token>, rest: seq<Token>, open: seq<char>)
    requires Reading(s, i, done, rest, open) && GoesOn(s, i, done, rest, open)
    ensures Next(s, i, done, rest, open)
  {
    LineHead(s, i, rest);
  }

  lemma StepReads(s: string, i: nat, done: seq<Token>, rest: seq<Token>, open: seq<char>, next: nat, r: Outcome)
    requires Next(s, i, done, rest, open) && next == NextStart(s, i + |TokenText(rest[0])|)
    requires Scan(s, next, done + [rest[0]], OpenAfter(open, rest[0]).value, None) == r
    ensures Scan(s, i, done, open, None) == r
  {
    FirstReads(s, i, rest[0], done, open, r);
  }

  lemma {:induction false} LineReads(s: string, i: nat, done: seq<Token>, rest: seq<Token>, open: seq<char>,
                                     all: seq<Token>, r: Outcome)
    requires Reading(s, i, done, rest, open) && all == done + rest && r == Verdict(all)
    ensures Scan(s, i, done, open, None) == r
    decreases |rest|
  {
    if GoesOn(s, i, done, rest, open) {
      var next := NextStart(s, i + |TokenText(rest[0])|);
      ReadingStep(s, i, done, rest, open);
      MoveOne(done, rest);
      LineReads(s, next, done + [rest[0]], rest[1..], OpenAfter(open, rest[0]).value, all, r);
      NextWritten(s, i, done, rest, open);
      StepReads(s, i, done, rest, open, next, r);
    } else {
      EndReads(s, i, done, rest, open);
    }
  }

  /**
   Writing tokens on a line and tokenizing it gives back as many of them as there is
   room for, unless their brackets do not match or a literal is announced at the end.
   */
  lemma TokensReadBack(tokens: seq<Token>)
    requires AllWritable(tokens)
    ensures Tokenize(LineText(tokens)) == Verdict(tokens)
  {
    var s := LineText(tokens);
    assert s[0..] == s && [] + tokens == tokens;
    LineReads(s, 0, [], tokens, [], tokens, Verdict(tokens));
  }

  lemma {:induction false} NeverClosed(s: string, i: nat, tokens: seq<Token>, q: nat)
    requires q < i <= |s| && forall k :: i <= k < |s| ==> !IsQuote(s, k)
    ensures Scan(s, i, tokens, [], Some(q)) == Ok(tokens)
    decreases |s| - i
  {
    if i < |s| && |tokens| < MAX_ARGS - 1 {
      NeverClosed(s, i + 1, tokens, q);
    }
  }

  /** A quoted string that is not closed is dropped without an error. */
  lemma UnclosedQuote(text: string)
    requires QuotesEscaped(text)
    ensures Tokenize("\"" + text) == Ok([])
  {
    var s := "\"" + text;
    forall k | 1 <= k < |s|
      ensures !IsQuote(s, k)
    {
      assert s[k] == text[k - 1] && (k > 1 ==> s[k - 1] == text[k - 2]);
    }
    NeverClosed(s, 1, [], 0);
  }

  // The walk over a parenthesised list.

  function ArgText(t: Token): string {
    if t.Bracket? then [t.c] else t.text
  }

  /** An open `(` is closed by some later `)`. */
  lemma {:induction false} OpenIsClosed(tokens: seq<Token>, k: nat)
    requires k <= |tokens| && BracketsOk(tokens) && ProperlyNested(tokens)
    requires Open(tokens[..k]).Some? && '(' in Open(tokens[..k]).value
    ensures exists j :: k <= j < |tokens| && tokens[j] == Bracket(')')
    decreases |tokens| - k
  {
    assert tokens[..|tokens|] == tokens;
    if k < |tokens| && tokens[k] != Bracket(')') {
      StaysOpen(tokens, k);
      OpenIsClosed(tokens, k + 1);
    }
  }

  lemma StaysOpen(tokens: seq<Token>, k: nat)
    requires k < |tokens| && BracketsOk(tokens) && ProperlyNested(tokens)
    requires Open(tokens[..k]).Some? && '(' in Open(tokens[..k]).value && tokens[k] != Bracket(')')
    ensures Open(tokens[..k + 1]).Some? && '(' in Open(tokens[..k + 1]).value
  {
    assert tokens[..k + 1][..k] == tokens[..k];
    PrefixOpen(tokens, k + 1);
    var open := Open(tokens[..k]).value;
    if tokens[k].Bracket? && tokens[k].c == ']' {
      var i :| 0 <= i < |open| && open[i] == '(';
      assert i < |open| - 1;
      assert open[..|open| - 1][i] == '(';
    } else if tokens[k].Bracket? {
      var i :| 0 <= i < |open| && open[i] == '(';
      assert (open + [tokens[k].c])[i] == '(';
    }
  }

  /** Prefixes of a nested word match so far. */
  lemma {:induction false} PrefixOpen(tokens: seq<Token>, k: nat)
    requires k <= |tokens| && Open(tokens).Some?
    ensures Open(tokens[..k]).Some?
  {
    if k < |tokens| {
      var n := |tokens| - 1;
      PrefixOpen(tokens[..n], k);
      assert tokens[..n][..k] == tokens[..k];
    } else {
      assert tokens[..k] == tokens;
    }
  }

  lemma JustOpened(tokens: seq<Token>, k: nat)
    requires k < |tokens| && ProperlyNested(tokens) && tokens[k] == Bracket('(')
    ensures Open(tokens[..k + 1]).Some? && '(' in Open(tokens[..k + 1]).value
  {
    PrefixOpen(tokens, k);
    assert tokens[..k + 1][..k] == tokens[..k];
    var open := Open(tokens[..k]).value;
    assert (open + ['('])[|open|] == '(';
  }

  // The loop.

  /** The part of the loop body that walks an atom to its end. */
  method WalkAtom(s: string, start: nat) returns (i: nat)
    requires start < |s|
    ensures i == AtomEnd(s, start)
  {
    i := start;
    while i < |s| && s[i] != ' ' && !IsBracket(s[i])
      invariant start <= i <= |s|
      invariant AtomEnd(s, i) == AtomEnd(s, start)
    {
      if s[i] == '"' {
        if i == 0 || s[i - 1] != '\\' {
          break;
        }
      }
      i := i + 1;
    }
  }

  /** The bracket stack of the tokenizer, of fixed size. */
  method CheckBracket(parlist: array<char>, paridx: nat, c: char) returns (ok: bool, idx: nat)
    requires IsBracket(c) && paridx < parlist.Length
    modifies parlist
    ensures ok <==> Push(old(parlist[..paridx]), c).Some?
    ensures ok ==> idx <= parlist.Length && parlist[..idx] == Push(old(parlist[..paridx]), c).value
  {
    ok, idx := true, paridx;
    if c == '(' || c == '[' {
      parlist[paridx] := c;
      idx := paridx + 1;
    } else if paridx == 0 || parlist[paridx - 1] != (if c == ')' then '(' else '[') {
      ok := false;
    } else {
      idx := paridx - 1;
    }
  }

  /** `imap4_tokenizer_main` on a fresh line whose end has been trimmed. */
  method TokenizeLine(s: string) returns (r: Outcome)
    ensures r == Tokenize(s)
  {
    var parlist := new char[MAX_LINESIZE];
    var paridx: nat, i: nat := 0, 0;
    var args: seq<Token> := [];
    var inquote, quotestart: nat := false, 0;
    while i < |s| && |args| < MAX_ARGS - 1
      invariant 0 <= i <= |s| && |args| <= MAX_ARGS - 1
      invariant paridx <= |args|
      invariant inquote ==> quotestart < i
      invariant Scan(s, i, args, parlist[..paridx], if inquote then Some(quotestart) else None) == Tokenize(s)
      decreases |s| - i
    {
      if IsQuote(s, i) {
        if inquote {
          args := args + [Quoted(s[quotestart + 1..i])];
          inquote := false;
        } else {
          inquote, quotestart := true, i;
        }
        i := i + 1;
      } else if inquote || s[i] == ' ' {
        i := i + 1;
      } else if IsBracket(s[i]) {
        var ok, idx := CheckBracket(parlist, paridx, s[i]);
        if !ok {
          return Fail;
        }
        args, paridx := args + [Bracket(s[i])], idx;
        i := i + 1;
      } else if LiteralAt(s, i) {
        return Literal;
      } else {
        var j := WalkAtom(s, i);
        args := args + [Atom(s[i..j])];
        i := j;
      }
    }
    if paridx != 0 {
      return Fail;
    }
    r := Ok(args);
  }

  /**
   The walk of `_imap_session_fetch_parse_partspec`, which looks at texts only: it
   stops at the first `)` from the given argument on, or runs past the last argument.
   */
  method WalkList(tokens: seq<Token>, start: nat) returns (idx: nat)
    requires start <= |tokens|
    ensures start <= idx <= |tokens| && (idx < |tokens| ==> ArgText(tokens[idx]) == ")")
    ensures forall j :: start <= j < idx ==> ArgText(tokens[j]) != ")"
  {
    idx := start;
    while idx < |tokens| && ArgText(tokens[idx]) != ")"
      invariant start <= idx <= |tokens|
      invariant forall j :: start <= j < idx ==> ArgText(tokens[j]) != ")"
    {
      idx := idx + 1;
    }
  }

  predicate ClosedLater(tokens: seq<Token>, start: nat) {
    exists j :: start <= j < |tokens| && ArgText(tokens[j]) == ")"
  }

  /** Some bracket `(` is open before the argument. */
  predicate InsideParenthesis(tokens: seq<Token>, start: nat)
    requires start <= |tokens|
  {
    Open(tokens[..start]).Some? && '(' in Open(tokens[..start]).value
  }

  /** Without an open `(` no bracket `)` can come before another bracket `(`. */
  lemma {:induction false} NothingToClose(tokens: seq<Token>, start: nat, j: nat)
    requires BracketsOk(tokens) && ProperlyNested(tokens) && start <= j < |tokens|
    requires !InsideParenthesis(tokens, start) && forall k :: start <= k < |tokens| ==> tokens[k] != Bracket('(')
    ensures tokens[j] != Bracket(')')
    decreases j - start
  {
    PrefixOpen(tokens, start);
    PrefixOpen(tokens, start + 1);
    assert tokens[..start + 1][..start] == tokens[..start];
    if start < j {
      NothingToClose(tokens, start + 1, j);
    }
  }

  /** A later argument opens a group, or is a `)` in quotes. */
  predicate Helps(t: Token) {
    t == Bracket('(') || t == Quoted(")")
  }

  lemma NestedWalk(tokens: seq<Token>, start: nat)
    requires BracketsOk(tokens) && ProperlyNested(tokens) && start <= |tokens|
    ensures ClosedLater(tokens, start) <==>
            InsideParenthesis(tokens, start) || exists j :: start <= j < |tokens| && Helps(tokens[j])
  {
    if InsideParenthesis(tokens, start) {
      OpenIsClosed(tokens, start);
    } else if j :| start <= j < |tokens| && Helps(tokens[j]) {
      if tokens[j] == Bracket('(') {
        JustOpened(tokens, j);
        OpenIsClosed(tokens, j + 1);
      }
    } else if ClosedLater(tokens, start) {
      var j :| start <= j < |tokens| && ArgText(tokens[j]) == ")";
      assert !Helps(tokens[j]) && BracketOk(tokens[j]);
      assert forall k :: start <= k < |tokens| ==> !Helps(tokens[k]);
      NothingToClose(tokens, start, j);
    }
  }

  /**
   On a line that tokenized the walk stays inside the arguments if and only if a
   bracket `(` is open where it starts, or a later argument is a bracket `(` or `")"`.
   */
  lemma WalkStaysInside(line: string, start: nat)
    requires Tokenize(line).Ok? && start <= |Tokenize(line).tokens|
    ensures var tokens := Tokenize(line).tokens;
            ClosedLater(tokens, start) <==>
            InsideParenthesis(tokens, start) || exists j :: start <= j < |tokens| && Helps(tokens[j])
  {
    TokensNest(line);
    NestedWalk(Tokenize(line).tokens, start);
  }

  /** So it does after a bracket `(`, which is what the walk relies on. */
  lemma WalkAfterBracket(line: string, start: nat)
    requires Tokenize(line).Ok? && 0 < start <= |Tokenize(line).tokens|
    requires Tokenize(line).tokens[start - 1] == Bracket('(')
    ensures ClosedLater(Tokenize(line).tokens, start)
  {
    TokensNest(line);
    JustOpened(Tokenize(line).tokens, start - 1);
    WalkStaysInside(line, start);
  }

  /** The arguments of `FETCH 1 BODY[HEADER.FIELDS "("]`. */
  function QuotedFetch(): seq<Token> {
    [Atom("1"), Atom("BODY"), Bracket('['), Atom("HEADER.FIELDS"), Quoted("("), Bracket(']')]
  }

  /** One bracket around words is nested. */
  lemma BracketedWords(before: seq<Token>, inside: seq<Token>)
    requires Words(before) && Words(inside)
    ensures ProperlyNested(before + [Bracket('[')] + inside + [Bracket(']')])
  {
    WordsOpenNothing([], before);
    assert [] + before == before;
    OpenSnoc(before, Bracket('['));
    WordsOpenNothing(before + [Bracket('[')], inside);
    OpenSnoc(before + [Bracket('[')] + inside, Bracket(']'));
  }

  predicate Words(tokens: seq<Token>) {
    forall k :: 0 <= k < |tokens| ==> !tokens[k].Bracket?
  }

  lemma {:induction false} WordsOpenNothing(tokens: seq<Token>, words: seq<Token>)
    requires Words(words)
    ensures Open(tokens + words) == Open(tokens)
  {
    if words == [] {
      assert tokens + words == tokens;
    } else {
      var n := |words| - 1;
      WordsOpenNothing(tokens, words[..n]);
      OpenSnoc(tokens + words[..n], words[n]);
      assert tokens + words == tokens + words[..n] + [words[n]];
    }
  }

  lemma PlainAtom(text: string)
    requires text != "" && forall k :: 0 <= k < |text| ==> !Delimiter(text[k]) && text[k] != '"'
    ensures Writable(Atom(text))
  {
  }

  lemma FetchWritable()
    ensures AllWritable(QuotedFetch())
  {
    PlainAtom("1");
    PlainAtom("BODY");
    PlainAtom("HEADER.FIELDS");
  }

  lemma FetchNested()
    ensures ProperlyNested(QuotedFetch())
  {
    var before, inside := [Atom("1"), Atom("BODY")], [Atom("HEADER.FIELDS"), Quoted("(")];
    BracketedWords(before, inside);
    assert QuotedFetch() == before + [Bracket('[')] + inside + [Bracket(']')];
  }

  /** A quoted `(` passes the test as well, and here nothing closes it. */
  lemma QuotedParenthesis()
    ensures Tokenize(LineText(QuotedFetch())) == Ok(QuotedFetch())
    ensures ArgText(QuotedFetch()[4]) == "(" && !ClosedLater(QuotedFetch(), 5)
  {
    FetchWritable();
    FetchNested();
    TokensReadBack(QuotedFetch());
  }
}
