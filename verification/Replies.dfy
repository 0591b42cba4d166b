/**
 Base subjects group a thread: a reply or forward prefix in front of a subject does
 not change its base subject, except when the subject is nothing but forward
 trailers.
 */
module Replies {
  import opened BaseSubject
  import opened SubjectLaws

  /** A prefix word, in any case. */
  predicate Word(w: string) {
    Lower(w) == "re" || Lower(w) == "fw" || Lower(w) == "fwd"
  }

  predicate Blank(s: string) {
    forall c | c in s :: AsciiSpace(c)
  }

  /** A trimmed text that consists of forward trailers alone. */
  predicate OnlyTrailers(t: string)
    decreases |t|
  {
    || (|t| == 5 && Starts(t, "(fwd)"))
    || (Trailer(t) && (TrimShrinks(t[..|t| - 5]); OnlyTrailers(Trim(t[..|t| - 5]))))
  }

  /** The text `sp + t` that follows a prefix: blanks only in front of something. */
  predicate Body(sp: string, t: string) {
    Blank(sp) && Trim(t) == t && (t == "" ==> sp == "")
  }

  // Trimming around the prefix.

  lemma {:induction false} TrimLeftBlank(sp: string, t: string)
    requires Blank(sp) && (t == "" || !AsciiSpace(t[0]))
    ensures TrimLeft(sp + t) == t
  {
    if sp == "" {
      assert sp + t == t;
    } else {
      assert (sp + t)[0] == sp[0] && sp[0] in sp && (sp + t)[1..] == sp[1..] + t;
      TrimLeftBlank(sp[1..], t);
    }
  }

  lemma TrimBody(sp: string, t: string)
    requires Body(sp, t)
    ensures TrimRight(sp + t) == sp + t
    ensures Trim(sp + t) == t
  {
    if t == "" {
      assert sp + t == "";
    } else {
      TrimEnds(t);
      assert (sp + t)[|sp + t| - 1] == t[|t| - 1];
      TrimLeftBlank(sp, t);
    }
  }

  lemma WordChars(w: string)
    requires Word(w)
    ensures 2 <= |w| <= 3
    ensures !AsciiSpace(w[0]) && w[0] != '[' && LowerChar(w[0]) in {'r', 'f'}
    ensures forall c | c in w :: c != ' ' && c != '\t'
  {
    assert LowerChar(w[0]) == Lower(w)[0];
    assert LowerChar(w[1]) == Lower(w)[1];
    if |w| == 3 {
      assert LowerChar(w[2]) == Lower(w)[2];
    }
  }

  /** A prefixed text is trimmed already. */
  lemma TrimPrefixed(w: string, y: string)
    requires Word(w)
    ensures Trim(w + ":" + y) == w + ":" + TrimRight(y)
  {
    WordChars(w);
    TrimRightKeeps(w + ":", y);
    assert (w + ":" + TrimRight(y))[0] == w[0];
  }

  lemma HeadOf(w: string, z: string)
    requires Word(w)
    ensures HasHead(w + ":" + z) && HeadLength(w + ":" + z) == |w|
  {
    WordChars(w);
    var x := w + ":" + z;
    assert x[..|w|] == w && x[..3][|w|..] == (":" + z)[..3 - |w|];
    if |w| == 3 {
      StartsPrefix(x, "fwd", 2);
      assert "fwd"[..2] == "fw";
    } else {
      assert Lower(x[..3])[2] == ':';
    }
  }

  /** The prefix goes in one step, with the blanks behind it. */
  lemma PrefixGoes(w: string, sp: string, t: string)
    requires Word(w) && Body(sp, t)
    ensures RefWd(w + ":" + (sp + t)) == Stripped(t, t != "")
  {
    var x := w + ":" + (sp + t);
    HeadOf(w, sp + t);
    var y := ":" + (sp + t);
    assert x[|w|..] == y;
    assert y[1..] == sp + t;
    TrimColon(y);
    TrimBody(sp, t);
    assert Trim(y) == y && Blob(y) == y;
  }

  // The leaders.

  lemma NoBlob(s: string)
    requires s == "" || s[0] != '['
    ensures BlobLoop(s) == s
  {
  }

  lemma RefLoopThenLeaders(t: string)
    ensures LeaderLoop(RefLoop(t)) == LeaderLoop(t)
  {
    RefLoopShrinks(t);
    if HasHead(t) {
      assert t[0] != '[' by {
        if Starts(t, "re") { StartsChar(t, "re", 0); } else { StartsChar(t, "fw", 0); }
      }
      NoBlob(t);
      assert Leader(t) == RefLoop(t);
    } else {
      assert RefLoop(t) == t;
    }
  }

  lemma PrefixedLeaders(w: string, sp: string, t: string)
    requires Word(w) && Body(sp, t)
    ensures LeaderLoop(w + ":" + (sp + t)) == LeaderLoop(t)
  {
    var x := w + ":" + (sp + t);
    WordChars(w);
    assert x[0] == w[0];
    NoBlob(x);
    PrefixGoes(w, sp, t);
    assert Leader(x) == RefLoop(t);
    RefLoopShrinks(t);
    assert |RefLoop(t)| < |x|;
    RefLoopThenLeaders(t);
  }

  // The trailers.

  lemma SameTrailer(w: string, sp: string, t: string)
    requires Word(w) && Body(sp, t)
    ensures Trailer(w + ":" + (sp + t)) <==> |t| >= 5 && Starts(t[|t| - 5..], "(fwd)")
  {
    var x := w + ":" + (sp + t);
    WordChars(w);
    if |t| >= 5 {
      assert x[|x| - 5..] == t[|t| - 5..];
    } else if |x| > 5 {
      NoParenthesis(w, sp, t);
      assert Lower(x[|x| - 5..][..5])[0] == LowerChar(x[|x| - 5]);
    }
  }

  /** A short text cannot hold the trailer, whose parenthesis would be outside it. */
  lemma NoParenthesis(w: string, sp: string, t: string)
    requires Word(w) && Blank(sp) && |t| < 5
    requires |w + ":" + (sp + t)| > 5
    ensures (w + ":" + (sp + t))[|w + ":" + (sp + t)| - 5] != '('
  {
    var x := w + ":" + (sp + t);
    var k := |x| - 5;
    WordChars(w);
    if k < |w| {
      assert x[k] == w[k];
      assert LowerChar(w[k]) == Lower(w)[k];
    } else if k > |w| {
      assert x[k] == sp[k - |w| - 1] && x[k] in sp;
    }
  }

  lemma CutTrim(w: string, sp: string, t: string)
    requires Word(w) && Body(sp, t) && Trailer(t)
    ensures var x := w + ":" + (sp + t); Trim(x[..|x| - 5]) == w + ":" + (sp + Trim(t[..|t| - 5]))
    ensures Body(sp, Trim(t[..|t| - 5]))
  {
    var x := w + ":" + (sp + t);
    var z := t[..|t| - 5];
    assert x[..|x| - 5] == w + ":" + (sp + z);
    TrimEnds(t);
    BlankKept(sp, z);
    TrimPrefixed(w, sp + z);
    TrimTwice(z);
  }

  lemma CutPrefixed(w: string, sp: string, t: string)
    requires Word(w) && Body(sp, t) && Trailer(t)
    ensures Normal(w + ":" + (sp + t)) == Normal(w + ":" + (sp + Trim(t[..|t| - 5])))
  {
    var x := w + ":" + (sp + t);
    TrimBody(sp, t);
    TrimPrefixed(w, sp + t);
    SameTrailer(w, sp, t);
    CutAlone(x);
    CutTrim(w, sp, t);
  }

  lemma BlankKept(sp: string, z: string)
    requires z != "" && !AsciiSpace(z[0])
    ensures TrimRight(sp + z) == sp + Trim(z) && Trim(z) != ""
  {
    TrimRightKeeps(sp + [z[0]], z[1..]);
    TrimRightKeeps([z[0]], z[1..]);
    assert z == [z[0]] + z[1..];
    assert sp + z == (sp + [z[0]]) + z[1..];
    assert (sp + [z[0]]) + TrimRight(z[1..]) == sp + ([z[0]] + TrimRight(z[1..]));
  }

  lemma CutAlone(t: string)
    requires Trailer(t) && Trim(t) == t
    ensures Normal(t) == Normal(Trim(t[..|t| - 5]))
    ensures OnlyTrailers(t) == OnlyTrailers(Trim(t[..|t| - 5]))
  {
  }

  lemma AloneStays(t: string)
    requires |t| == 5 && Starts(t, "(fwd)") && Trim(t) == t
    ensures Normal(t) == t
  {
    StartsChar(t, "(fwd)", 0);
    assert t[0] == '(';
    PlainLeader(t);
    assert Lower(t[..5])[0] == '(';
    StableIsNormal(t);
  }

  lemma PlainLeader(t: string)
    requires |t| >= 2 && t[0] == '('
    ensures Leader(t) == t
  {
    NoBlob(t);
    assert Lower(t[..2])[0] == '(';
  }

  lemma BareWord(w: string)
    requires Word(w)
    ensures Normal(w + ":") == ""
  {
    assert w + ":" + ("" + "") == w + ":";
    TrimPrefixed(w, "");
    assert w + ":" + "" == w + ":";
    SameTrailer(w, "", "");
    PrefixedLeaders(w, "", "");
    assert LeaderLoop("") == "";
    assert Turn(w + ":") == Stripped("", true);
    StableIsNormal("");
  }

  lemma PeeledWord(w: string, sp: string, t: string)
    requires Word(w) && Body(sp, t) && |t| == 5 && Starts(t, "(fwd)")
    ensures Normal(w + ":" + (sp + t)) == ""
  {
    var x := w + ":" + (sp + t);
    TrimBody(sp, t);
    TrimPrefixed(w, sp + t);
    assert t[|t| - 5..] == t;
    SameTrailer(w, sp, t);
    CutAlone(x);
    assert x[..|x| - 5] == w + ":" + sp;
    TrimPrefixed(w, sp);
    BlankGone(sp);
    assert w + ":" + "" == w + ":";
    BareWord(w);
  }

  lemma {:induction false} BlankGone(sp: string)
    requires Blank(sp)
    ensures TrimRight(sp) == ""
  {
    if sp != "" {
      assert sp[|sp| - 1] in sp;
      BlankGone(sp[..|sp| - 1]);
    }
  }

  // The main result.

  lemma NoTrailerTurn(w: string, sp: string, t: string)
    requires Word(w) && Body(sp, t) && !(|t| >= 5 && Starts(t[|t| - 5..], "(fwd)"))
    ensures Normal(w + ":" + (sp + t)) == Normal(t)
  {
    var x := w + ":" + (sp + t);
    TrimBody(sp, t);
    TrimPrefixed(w, sp + t);
    PrefixedTurn(w, sp, t);
    TurnShrinks(t);
  }

  /** Without a trailer the prefix only adds another pass. */
  lemma PrefixedTurn(w: string, sp: string, t: string)
    requires Word(w) && Body(sp, t) && !(|t| >= 5 && Starts(t[|t| - 5..], "(fwd)"))
    ensures Turn(w + ":" + (sp + t)) == Stripped(Turn(t).text, true)
  {
    SameTrailer(w, sp, t);
    PrefixedLeaders(w, sp, t);
    LeaderLoopShrinks(t);
    LongerTail(LeaderLoop(t), |w + ":" + (sp + t)|, |t|);
  }

  lemma LongerTail(l: string, size: nat, shorter: nat)
    requires |l| <= shorter < size
    ensures Tail(l, size) == Stripped(Tail(l, shorter).text, true)
  {
    ColonsShrinks(l);
  }

  lemma {:induction false} Prefixed(w: string, sp: string, t: string)
    requires Word(w) && Body(sp, t)
    ensures !OnlyTrailers(t) ==> Normal(w + ":" + (sp + t)) == Normal(t)
    ensures OnlyTrailers(t) ==> Normal(w + ":" + (sp + t)) == "" && |Normal(t)| == 5
    decreases |t|
  {
    if Trailer(t) {
      var rest := Trim(t[..|t| - 5]);
      TrimShrinks(t[..|t| - 5]);
      CutTrim(w, sp, t);
      CutPrefixed(w, sp, t);
      CutAlone(t);
      Prefixed(w, sp, rest);
    } else if |t| == 5 && Starts(t, "(fwd)") {
      PeeledWord(w, sp, t);
      AloneStays(t);
    } else {
      if |t| == 5 { assert t[|t| - 5..] == t; }
      NoTrailerTurn(w, sp, t);
    }
  }

  lemma {:induction false} PackWord(w: string, v: string)
    requires forall c | c in w :: c != ' '
    ensures Pack(w + v, ' ') == w + Pack(v, ' ')
  {
    if w == "" {
      assert w + v == v && w + Pack(v, ' ') == Pack(v, ' ');
    } else {
      assert w[0] in w && (w + v)[0] == w[0] && (w + v)[1..] == w[1..] + v;
      assert forall c | c in w[1..] :: c in w;
      PackWord(w[1..], v);
      assert w + Pack(v, ' ') == [w[0]] + (w[1..] + Pack(v, ' '));
    }
  }

  lemma TrimAfterBlank(v: string)
    ensures Trim(" " + v) == Trim(v)
  {
    if TrimRight(v) == "" {
      AllTrimmed(v);
      assert Blank(" " + v);
      BlankGone(" " + v);
    } else {
      TrimRightBlank(v);
      assert (" " + TrimRight(v))[1..] == TrimRight(v);
    }
  }

  lemma {:induction false} AllTrimmed(v: string)
    requires TrimRight(v) == ""
    ensures Blank(v)
  {
    if v != "" {
      AllTrimmed(v[..|v| - 1]);
      assert v == v[..|v| - 1] + [v[|v| - 1]];
    }
  }

  lemma {:induction false} TrimRightBlank(v: string)
    requires TrimRight(v) != ""
    ensures TrimRight(" " + v) == " " + TrimRight(v)
  {
    if AsciiSpace(v[|v| - 1]) {
      assert (" " + v)[..|v|] == " " + v[..|v| - 1];
      TrimRightBlank(v[..|v| - 1]);
    }
  }

  /** Any text without trailing blanks is blanks and then its trimmed part. */
  lemma {:induction false} LeadingBlanks(y: string) returns (sp: string)
    requires TrimRight(y) == y
    ensures y == sp + TrimLeft(y) && Blank(sp)
    ensures TrimLeft(y) == "" ==> sp == ""
  {
    if y != "" && AsciiSpace(y[0]) {
      TrimRightTail(y);
      assert TrimRight(y[1..]) == y[1..];
      var rest := LeadingBlanks(y[1..]);
      sp := [y[0]] + rest;
      assert y == [y[0]] + y[1..];
    } else {
      sp := "";
    }
  }

  lemma NormalTrim(s: string)
    ensures Normal(Trim(s)) == Normal(s)
  {
    TrimTwice(s);
  }

  lemma PackedReply(w: string, s: string)
    requires Word(w)
    ensures PackSpaces(w + ": " + s) == w + ":" + Pack(" " + Untab(s), ' ')
    ensures Trim(Pack(" " + Untab(s), ' ')) == Trim(PackSpaces(s))
  {
    WordChars(w);
    var u := Untab(s);
    forall i | 0 <= i < |w| ensures Untab(w + ": " + s)[i] == w[i] {
      assert (w + ": " + s)[i] == w[i] && w[i] in w;
    }
    assert Untab(w + ": " + s) == (w + ":") + (" " + u);
    PackWord(w + ":", " " + u);
    var v := " " + u;
    assert v[1..] == u;
    if !(u != "" && u[0] == ' ') {
      TrimAfterBlank(Pack(u, ' '));
    }
  }

  /**
   A reply or forward has the base subject of its original, if and only if the
   original is not made of `(fwd)` trailers alone.
   */
  lemma ReplyKeepsBase(w: string, s: string)
    requires Word(w)
    ensures Base(w + ": " + s) == Base(s) <==> !OnlyTrailers(Trim(PackSpaces(s)))
  {
    var p := Pack(" " + Untab(s), ' ');
    PackedReply(w, s);
    var y := TrimRight(p);
    TrimRightTwice(p);
    var sp := LeadingBlanks(y);
    var t := TrimLeft(y);
    assert t == Trim(PackSpaces(s));
    TrimTwice(PackSpaces(s));
    TrimPrefixed(w, p);
    NormalTrim(w + ":" + p);
    NormalTrim(PackSpaces(s));
    Prefixed(w, sp, t);
  }
}
