/**
 Nesting without a stack: tokens are properly nested exactly if they are the text of
 a forest of words and groups, each group in brackets of one kind.
 */
module TokenForest {
  import opened Basics
  import opened Tokenizer

  /** A list of words and groups. */
  datatype Forest =
    | Empty
    | AddWord(before: Forest, word: Token)
    | AddGroup(before: Forest, round: bool, inside: Forest)

  function Opener(round: bool): Token {
    if round then Bracket('(') else Bracket('[')
  }

  function Closer(round: bool): Token {
    if round then Bracket(')') else Bracket(']')
  }

  function Flat(f: Forest): seq<Token> {
    match f
    case Empty => []
    case AddWord(before, word) => Flat(before) + [word]
    case AddGroup(before, round, inside) => Flat(before) + [Opener(round)] + Flat(inside) + [Closer(round)]
  }

  predicate Proper(f: Forest) {
    match f
    case Empty => true
    case AddWord(before, word) => Proper(before) && !word.Bracket?
    case AddGroup(before, _, inside) => Proper(before) && Proper(inside)
  }

  /** The text of a forest leaves open what was open before it. */
  lemma {:induction false} FlatOpensNothing(tokens: seq<Token>, f: Forest)
    requires Proper(f) && Open(tokens).Some?
    ensures Open(tokens + Flat(f)) == Open(tokens)
    decreases f, 0
  {
    match f
    case Empty =>
      assert tokens + [] == tokens;
    case AddWord(before, word) =>
      FlatOpensNothing(tokens, before);
      OpenSnoc(tokens + Flat(before), word);
      Assoc(tokens, Flat(before), [word]);
    case AddGroup(before, round, inside) =>
      FlatOpensNothing(tokens, before);
      GroupOpensNothing(tokens + Flat(before), round, inside);
      GroupText(tokens, before, round, inside);
  }

  lemma {:induction false} GroupOpensNothing(tokens: seq<Token>, round: bool, inside: Forest)
    requires Proper(inside) && Open(tokens).Some?
    ensures Open(tokens + [Opener(round)] + Flat(inside) + [Closer(round)]) == Open(tokens)
    decreases inside, 1
  {
    OpenSnoc(tokens, Opener(round));
    FlatOpensNothing(tokens + [Opener(round)], inside);
    OpenSnoc(tokens + [Opener(round)] + Flat(inside), Closer(round));
    var open := Open(tokens).value;
    assert (open + [Opener(round).c])[..|open|] == open;
  }

  lemma GroupText(tokens: seq<Token>, before: Forest, round: bool, inside: Forest)
    ensures tokens + Flat(AddGroup(before, round, inside)) ==
            tokens + Flat(before) + [Opener(round)] + Flat(inside) + [Closer(round)]
  {
  }

  // Reading a forest off the tokens.

  /** The forests between the brackets that are still open. */
  datatype Layers = Ground(top: Forest) | Above(below: Layers, round: bool, top: Forest)

  /** What stands before the top forest. */
  function Base(layers: Layers): seq<Token> {
    if layers.Ground? then [] else Base(layers.below) + Flat(layers.below.top) + [Opener(layers.round)]
  }

  function LayersText(layers: Layers): seq<Token> {
    Base(layers) + Flat(layers.top)
  }

  function StillOpen(layers: Layers): seq<char> {
    match layers
    case Ground(_) => []
    case Above(below, round, _) => StillOpen(below) + [Opener(round).c]
  }

  predicate ProperLayers(layers: Layers) {
    Proper(layers.top) && (layers.Above? ==> ProperLayers(layers.below))
  }

  /** The layers are those of the tokens. */
  predicate LayersOf(tokens: seq<Token>, layers: Layers) {
    ProperLayers(layers) && LayersText(layers) == tokens && Open(tokens) == Some(StillOpen(layers))
  }

  lemma NewTop(layers: Layers, top: Forest)
    requires ProperLayers(layers) && Proper(top)
    ensures var more := layers.(top := top);
            ProperLayers(more) && LayersText(more) == Base(layers) + Flat(top) && StillOpen(more) == StillOpen(layers)
  {
  }

  lemma AddWordToTop(tokens: seq<Token>, layers: Layers, t: Token) returns (more: Layers)
    requires LayersOf(tokens, layers) && !t.Bracket?
    ensures LayersOf(tokens + [t], more)
  {
    more := layers.(top := AddWord(layers.top, t));
    NewTop(layers, AddWord(layers.top, t));
    OpenSnoc(tokens, t);
    Assoc(Base(layers), Flat(layers.top), [t]);
  }

  lemma AddLayer(tokens: seq<Token>, layers: Layers, round: bool) returns (more: Layers)
    requires LayersOf(tokens, layers)
    ensures LayersOf(tokens + [Opener(round)], more)
  {
    more := Above(layers, round, Empty);
    OpenSnoc(tokens, Opener(round));
    assert Base(more) + [] == Base(more);
  }

  lemma TopCloses(layers: Layers, round: bool)
    requires Push(StillOpen(layers), Closer(round).c).Some?
    ensures layers.Above? && layers.round == round
    ensures Push(StillOpen(layers), Closer(round).c) == Some(StillOpen(layers.below))
  {
    var open := StillOpen(layers.below);
    assert (open + [Opener(layers.round).c])[..|open|] == open;
  }

  lemma ClosedText(below: Layers, round: bool, inside: Forest)
    ensures Base(below) + Flat(AddGroup(below.top, round, inside)) ==
            LayersText(Above(below, round, inside)) + [Closer(round)]
  {
    GroupText(Base(below), below.top, round, inside);
  }

  lemma CloseTop(tokens: seq<Token>, layers: Layers, round: bool) returns (fewer: Layers)
    requires LayersOf(tokens, layers) && Push(StillOpen(layers), Closer(round).c).Some?
    ensures LayersOf(tokens + [Closer(round)], fewer)
  {
    TopCloses(layers, round);
    OpenSnoc(tokens, Closer(round));
    var group := AddGroup(layers.below.top, round, layers.top);
    fewer := layers.below.(top := group);
    NewTop(layers.below, group);
    ClosedText(layers.below, round, layers.top);
  }

  lemma {:induction false} ReadLayers(tokens: seq<Token>) returns (layers: Layers)
    requires BracketsOk(tokens) && Open(tokens).Some?
    ensures LayersOf(tokens, layers)
  {
    if tokens == [] {
      layers := Ground(Empty);
    } else {
      var n := |tokens| - 1;
      var t := tokens[n];
      assert tokens == tokens[..n] + [t] && BracketOk(t);
      OpenSnoc(tokens[..n], t);
      var before := ReadLayers(tokens[..n]);
      if !t.Bracket? {
        layers := AddWordToTop(tokens[..n], before, t);
      } else if t.c == '(' || t.c == '[' {
        layers := AddLayer(tokens[..n], before, t.c == '(');
      } else {
        layers := CloseTop(tokens[..n], before, t.c == ')');
      }
    }
  }

  /** The tokens are the text of a forest. */
  ghost predicate IsForest(tokens: seq<Token>) {
    exists f :: Proper(f) && Flat(f) == tokens
  }

  /** The stack discipline means proper nesting. */
  lemma NestedExactly(tokens: seq<Token>)
    requires BracketsOk(tokens)
    ensures ProperlyNested(tokens) <==> IsForest(tokens)
  {
    if ProperlyNested(tokens) {
      var layers := ReadLayers(tokens);
      assert Proper(layers.top) && Flat(layers.top) == tokens;
    }
    if IsForest(tokens) {
      var f :| Proper(f) && Flat(f) == tokens;
      FlatOpensNothing([], f);
      assert [] + Flat(f) == tokens;
    }
  }

  /** A line that tokenizes yields the text of a forest, with at most 511 tokens. */
  lemma LineIsForest(line: string)
    requires Tokenize(line).Ok?
    ensures IsForest(Tokenize(line).tokens) && |Tokenize(line).tokens| <= 511
  {
    TokensNest(line);
    NestedExactly(Tokenize(line).tokens);
  }

  /** A forest of tokens that can be written and fit is read back; any other list is refused. */
  lemma ForestReadsBack(tokens: seq<Token>)
    requires AllWritable(tokens) && |tokens| < MAX_ARGS && !LiteralLast(tokens)
    ensures Tokenize(LineText(tokens)) == if IsForest(tokens) then Ok(tokens) else Fail
  {
    TokensReadBack(tokens);
    NestedExactly(tokens);
  }
}
