/**
 The base subject removes nothing else: it is reached from the subject by the removals
 of section 2.1 of RFC 5256, one after the other, as the code applies them.
 */
module SubjectSteps {
  import opened BaseSubject
  import opened SubjectLaws
  import Replies

  // The removals.

  /** A blank at either end goes. */
  predicate BlankGoes(a: string, b: string) {
    a != "" && ((Blank(a[0]) && b == a[1..]) || (Blank(a[|a| - 1]) && b == a[..|a| - 1]))
  }

  predicate Blank(c: char) {
    c == ' ' || c == '\t' || c == '\n' || c == '\r' || c == 12 as char
  }

  /** Brackets around text without brackets go, and the blanks after them, if anything is left. */
  ghost predicate BlobGoes(a: string, b: string) {
    exists j, k :: 0 < j < k < |a| && BlobAt(a, j, k) && b == a[k..]
  }

  predicate BlobAt(a: string, j: nat, k: nat)
    requires j < k < |a|
  {
    && a[0] == '[' && a[j] == ']' && (forall i :: 0 < i < j ==> a[i] != '[' && a[i] != ']')
    && (forall i :: j < i < k ==> Spacing(a[i])) && !Spacing(a[k])
  }

  /** Blanks and the vertical tab. */
  predicate Spacing(c: char) {
    Blank(c) || c == 11 as char
  }

  /** The length of a reply or forward word at the front, or 0. */
  predicate WordLength(a: string, h: nat) {
    h <= |a| && (h == 0 || Replies.Word(a[..h]))
  }

  /** Blanks and a blob also go behind a reply word. */
  ghost predicate GapGoes(a: string, b: string) {
    exists h: nat ::
      && WordLength(a, h) && h <= |b| && a[..h] == b[..h]
      && (BlankGoes(a[h..], b[h..]) || BlobGoes(a[h..], b[h..]))
  }

  /** A reply word and its colon go. */
  ghost predicate ReplyGoes(a: string, b: string) {
    exists h: nat :: 0 < h < |a| && WordLength(a, h) && a[h] == ':' && b == a[h + 1..]
  }

  predicate TrailerGoes(a: string, b: string) {
    |a| > 5 && Lower(a[|a| - 5..]) == "(fwd)" && b == a[..|a| - 5]
  }

  predicate WrapperGoes(a: string, b: string) {
    |a| > 5 && Lower(a[..5]) == "[fwd:" && a[|a| - 1] == ']' && b == a[5..|a| - 1]
  }

  predicate ColonGoes(a: string, b: string) {
    |a| > 1 && a[0] == ':' && b == a[1..]
  }

  /** One of two adjacent blanks goes. */
  ghost predicate DoubleGoes(a: string, b: string) {
    exists i :: 0 <= i < |a| - 1 && DoubleAt(a, i) && b == a[..i] + a[i + 1..]
  }

  predicate DoubleAt(a: string, i: nat)
    requires i + 1 < |a|
  {
    a[i] == ' ' && a[i + 1] == ' '
  }

  ghost predicate Removal(a: string, b: string) {
    || GapGoes(a, b) || ReplyGoes(a, b) || TrailerGoes(a, b) || WrapperGoes(a, b)
    || ColonGoes(a, b) || DoubleGoes(a, b)
  }

  // Removals one after the other.

  ghost predicate Path(path: seq<string>) {
    path != [] && forall i :: 0 < i < |path| ==> Removal(path[i - 1], path[i])
  }

  ghost predicate Reaches(a: string, b: string) {
    exists path :: Path(path) && path[0] == a && path[|path| - 1] == b
  }

  lemma Stays(a: string)
    ensures Reaches(a, a)
  {
    var path := [a];
    assert Path(path);
  }

  lemma Goes(a: string, b: string)
    requires Removal(a, b)
    ensures Reaches(a, b)
  {
    var path := [a, b];
    assert Path(path);
  }

  lemma Joins(a: string, b: string, c: string)
    requires Reaches(a, b) && Reaches(b, c)
    ensures Reaches(a, c)
  {
    var p :| Path(p) && p[0] == a && p[|p| - 1] == b;
    var q :| Path(q) && q[0] == b && q[|q| - 1] == c;
    var path := p + q[1..];
    forall i | 0 < i < |path|
      ensures Removal(path[i - 1], path[i])
    {
      if i >= |p| {
        assert path[i] == q[i - |p| + 1] && path[i - 1] == q[i - |p|];
      }
    }
    assert Path(path);
  }

  // Blanks.

  /** Behind a word of length h, or at the front. */
  lemma GapStep(w: string, a: string, b: string)
    requires (w == "" || Replies.Word(w)) && (BlankGoes(a, b) || BlobGoes(a, b))
    ensures Reaches(w + a, w + b)
  {
    var h := |w|;
    assert (w + a)[..h] == w == (w + b)[..h] && (w + a)[h..] == a && (w + b)[h..] == b;
    assert WordLength(w + a, h);
    Goes(w + a, w + b);
  }

  lemma {:induction false} TrimLeftReaches(w: string, s: string)
    requires w == "" || Replies.Word(w)
    ensures Reaches(w + s, w + TrimLeft(s))
  {
    if s != "" && AsciiSpace(s[0]) {
      GapStep(w, s, s[1..]);
      TrimLeftReaches(w, s[1..]);
      Joins(w + s, w + s[1..], w + TrimLeft(s));
    } else {
      Stays(w + s);
    }
  }

  lemma {:induction false} TrimRightReaches(w: string, s: string)
    requires w == "" || Replies.Word(w)
    ensures Reaches(w + s, w + TrimRight(s))
  {
    if s != "" && AsciiSpace(s[|s| - 1]) {
      var t := s[..|s| - 1];
      GapStep(w, s, t);
      TrimRightReaches(w, t);
      Joins(w + s, w + t, w + TrimRight(s));
    } else {
      Stays(w + s);
    }
  }

  lemma TrimReachesBehind(w: string, s: string)
    requires w == "" || Replies.Word(w)
    ensures Reaches(w + s, w + Trim(s))
  {
    TrimRightReaches(w, s);
    TrimLeftReaches(w, TrimRight(s));
    Joins(w + s, w + TrimRight(s), w + Trim(s));
  }

  lemma TrimReaches(s: string)
    ensures Reaches(s, Trim(s))
  {
    TrimReachesBehind("", s);
    assert "" + s == s && "" + Trim(s) == Trim(s);
  }

  lemma DoubleStep(done: string, s: string)
    requires |s| > 1 && s[0] == ' ' && s[1] == ' '
    ensures Reaches(done + s, done + s[1..])
  {
    var a := done + s;
    assert DoubleAt(a, |done|) && done + s[1..] == a[..|done|] + a[|done| + 1..];
    Goes(a, done + s[1..]);
  }

  /** A run of blanks becomes one. */
  lemma {:induction false} PackReaches(done: string, s: string)
    ensures Reaches(done + s, done + Pack(s, ' '))
    decreases |s|
  {
    if s == "" {
      Stays(done + s);
    } else if s[0] == ' ' && |s| > 1 && s[1] == ' ' {
      DoubleStep(done, s);
      PackReaches(done, s[1..]);
      Joins(done + s, done + s[1..], done + Pack(s, ' '));
    } else {
      PackReaches(done + [s[0]], s[1..]);
      assert (done + [s[0]]) + s[1..] == done + s;
      assert (done + [s[0]]) + Pack(s[1..], ' ') == done + Pack(s, ' ');
    }
  }

  // Prefixes.

  lemma {:induction false} SkipBlanks(s: string)
    ensures |Skip(s)| <= |s| && Skip(s) == s[|s| - |Skip(s)|..]
    ensures forall i :: 0 <= i < |s| - |Skip(s)| ==> Spacing(s[i])
    ensures Skip(s) != "" ==> !Spacing(Skip(s)[0])
  {
    if s != "" && LocaleSpace(s[0]) {
      SkipBlanks(s[1..]);
      assert forall i :: 0 < i < |s| ==> s[i] == s[1..][i - 1];
    }
  }

  lemma {:induction false} BlobEndFree(s: string, i: nat)
    requires i <= |s|
    ensures forall k :: i <= k < BlobEnd(s, i) ==> s[k] != '[' && s[k] != ']'
    decreases |s| - i
  {
    if i < |s| && s[i] != ']' && s[i] != '[' {
      BlobEndFree(s, i + 1);
    }
  }

  /** The blanks after a blob. */
  lemma BlanksBehind(s: string, j: nat, k: int)
    requires j < |s| && k == |s| - |Skip(s[j + 1..])|
    ensures j < k <= |s| && s[k..] == Skip(s[j + 1..])
    ensures forall i :: j < i < k ==> Spacing(s[i])
    ensures k < |s| ==> !Spacing(s[k])
  {
    var rest := s[j + 1..];
    SkipBlanks(rest);
    assert s[k..] == rest[|rest| - |Skip(rest)|..];
    assert forall i :: j < i < |s| ==> s[i] == rest[i - j - 1];
  }

  lemma BlobIsRemoval(s: string)
    ensures Blob(s) == s || BlobGoes(s, Blob(s))
  {
    if Blob(s) != s {
      var j := BlobEnd(s, 1);
      var k := |s| - |Skip(s[j + 1..])|;
      BlobEndFree(s, 1);
      BlanksBehind(s, j, k);
      assert BlobAt(s, j, k);
    }
  }

  lemma BlobReachesBehind(w: string, s: string)
    requires w == "" || Replies.Word(w)
    ensures Reaches(w + s, w + Blob(s))
  {
    BlobIsRemoval(s);
    if Blob(s) == s {
      Stays(w + s);
    } else {
      GapStep(w, s, Blob(s));
    }
  }

  lemma HeadIsWord(s: string)
    requires HasHead(s)
    ensures HeadLength(s) <= |s| && Replies.Word(s[..HeadLength(s)])
  {
  }

  lemma GapReaches(w: string, y: string)
    requires Replies.Word(w)
    ensures Reaches(w + y, w + Blob(Trim(y)))
  {
    TrimReachesBehind(w, y);
    BlobReachesBehind(w, Trim(y));
    Joins(w + y, w + Trim(y), w + Blob(Trim(y)));
  }

  lemma ColonStep(w: string, t: string)
    requires Replies.Word(w) && t != "" && t[0] == ':'
    ensures Reaches(w + t, Trim(t[1..]))
  {
    var h := |w|;
    assert (w + t)[..h] == w && (w + t)[h] == ':' && (w + t)[h + 1..] == t[1..];
    assert WordLength(w + t, h);
    assert h > 0;
    Goes(w + t, t[1..]);
    TrimReaches(t[1..]);
    Joins(w + t, t[1..], Trim(t[1..]));
  }

  lemma RefWdReaches(s: string)
    ensures Reaches(s, RefWd(s).text)
  {
    if HasHead(s) {
      HeadIsWord(s);
      var w, y := s[..HeadLength(s)], s[HeadLength(s)..];
      var t := Blob(Trim(y));
      assert s == w + y;
      GapReaches(w, y);
      if t != "" && t[0] == ':' {
        ColonStep(w, t);
        Joins(s, w + t, Trim(t[1..]));
      }
    } else {
      Stays(s);
    }
  }

  // The loops.

  lemma {:induction false} BlobLoopReaches(s: string)
    ensures Reaches(s, BlobLoop(s))
    decreases |s|
  {
    BlobShrinks(s);
    if |Blob(s)| == |s| {
      Stays(s);
    } else {
      BlobReachesBehind("", s);
      assert "" + s == s && "" + Blob(s) == Blob(s);
      BlobLoopReaches(Blob(s));
      Joins(s, Blob(s), BlobLoop(s));
    }
  }

  lemma {:induction false} RefLoopReaches(s: string)
    ensures Reaches(s, RefLoop(s))
    decreases |s|
  {
    RefWdShrinks(s);
    RefWdReaches(s);
    if RefWd(s).more {
      RefLoopReaches(RefWd(s).text);
      Joins(s, RefWd(s).text, RefLoop(s));
    }
  }

  lemma {:induction false} LeaderLoopReaches(s: string)
    ensures Reaches(s, LeaderLoop(s))
    decreases |s|
  {
    LeaderShrinks(s);
    if |Leader(s)| == |s| {
      Stays(s);
    } else {
      BlobLoopReaches(s);
      RefLoopReaches(BlobLoop(s));
      Joins(s, BlobLoop(s), Leader(s));
      LeaderLoopReaches(Leader(s));
      Joins(s, Leader(s), LeaderLoop(s));
    }
  }

  lemma {:induction false} ColonsReach(s: string)
    ensures Reaches(s, Colons(s))
  {
    if |s| > 1 && s[0] == ':' {
      Goes(s, s[1..]);
      ColonsReach(s[1..]);
      Joins(s, s[1..], Colons(s));
    } else {
      Stays(s);
    }
  }

  lemma TailReaches(l: string, size: nat)
    ensures Reaches(l, Tail(l, size).text)
  {
    if Wrapped(l) {
      WrappedLength(l);
      Goes(l, Unwrapped(l));
      TrimReaches(Unwrapped(l));
      Joins(l, Unwrapped(l), Trim(Unwrapped(l)));
    } else {
      ColonsReach(l);
    }
  }

  lemma TurnReaches(t: string)
    ensures Reaches(t, Turn(t).text)
  {
    if Trailer(t) {
      var rest := t[..|t| - 5];
      assert t[|t| - 5..][..5] == t[|t| - 5..];
      Goes(t, rest);
      TrimReaches(rest);
      Joins(t, rest, Trim(rest));
    } else {
      LeaderLoopReaches(t);
      TailReaches(LeaderLoop(t), |t|);
      Joins(t, LeaderLoop(t), Turn(t).text);
    }
  }

  lemma {:induction false} NormalReaches(s: string)
    ensures Reaches(s, Normal(s))
    decreases |s|
  {
    TrimShrinks(s);
    TurnShrinks(Trim(s));
    TrimReaches(s);
    TurnReaches(Trim(s));
    var r := Turn(Trim(s)).text;
    Joins(s, Trim(s), r);
    if Turn(Trim(s)).more {
      NormalReaches(r);
      Joins(s, r, Normal(s));
    }
  }

  // Nothing is left to remove.

  lemma {:induction false} SkipStops(s: string, k: nat)
    requires k < |s| && !Spacing(s[k]) && forall i :: 0 <= i < k ==> Spacing(s[i])
    ensures Skip(s) == s[k..]
  {
    if k > 0 {
      SkipStops(s[1..], k - 1);
      assert s[1..][k - 1..] == s[k..];
    }
  }

  lemma {:induction false} BlobEndIs(s: string, i: nat, j: nat)
    requires i <= j < |s| && s[j] == ']' && forall k :: i <= k < j ==> s[k] != '[' && s[k] != ']'
    ensures BlobEnd(s, i) == j
    decreases j - i
  {
    if i < j {
      BlobEndIs(s, i + 1, j);
    }
  }

  /** Where the rule for blobs applies, the code applies it. */
  lemma BlobFound(a: string, b: string)
    requires BlobGoes(a, b)
    ensures Blob(a) == b && |b| < |a|
  {
    var j, k :| 0 < j < k < |a| && BlobAt(a, j, k) && b == a[k..];
    BlobEndIs(a, 1, j);
    var rest := a[j + 1..];
    assert forall i :: 0 <= i < |rest| ==> rest[i] == a[j + 1 + i];
    SkipStops(rest, k - j - 1);
    assert rest[k - j - 1..] == a[k..];
  }

  /** Neither blanks at its ends nor a blob in front. */
  predicate Tight(y: string) {
    (y != "" ==> !AsciiSpace(y[0]) && !AsciiSpace(y[|y| - 1])) && Blob(y) == y
  }

  lemma TightKeeps(y: string, b: string)
    requires Tight(y)
    ensures !BlankGoes(y, b) && !BlobGoes(y, b)
  {
    if BlobGoes(y, b) {
      BlobFound(y, b);
    }
  }

  /** Behind a word the code has cleared the gap, and there is no colon. */
  lemma BehindWord(r: string, h: nat)
    requires RefWd(r) == Stripped(r, false) && h > 0 && WordLength(r, h)
    ensures h == HeadLength(r) ==> Tight(r[h..]) && (h < |r| ==> r[h] != ':')
    ensures h != HeadLength(r) ==> h == 2 && |r| > 2 && LowerChar(r[2]) == 'd'
  {
    var w := r[..h];
    assert HasHead(r) by {
      WordStarts(r, h);
    }
    var y := r[HeadLength(r)..];
    if h == HeadLength(r) {
      TrimShrinks(y);
      BlobShrinks(Trim(y));
      var t := Blob(Trim(y));
      assert t == "" || t[0] != ':';
      assert r == r[..h] + y && r[..h] + t == r;
      assert t == y;
      if y != "" {
        TrimEnds(y);
      }
    } else {
      WordStarts(r, h);
    }
  }

  lemma WordStarts(r: string, h: nat)
    requires h > 0 && WordLength(r, h)
    ensures HasHead(r) && (h == HeadLength(r) || (h == 2 && |r| > 2 && LowerChar(r[2]) == 'd'))
  {
    var w := r[..h];
    assert |Lower(w)| == h;
    if Starts(r, "fwd") {
      assert Lower(r[..3])[2] == 'd' && r[..3][2] == r[2];
    }
    if h == 3 {
      assert Lower(w)[..2] == Lower(r[..2]);
    }
  }

  lemma GapStays(r: string, b: string)
    requires Tight(r) && RefWd(r) == Stripped(r, false)
    ensures !GapGoes(r, b) && !ReplyGoes(r, b)
  {
    if GapGoes(r, b) {
      var h: nat :| && WordLength(r, h) && h <= |b| && r[..h] == b[..h]
                    && (BlankGoes(r[h..], b[h..]) || BlobGoes(r[h..], b[h..]));
      NoGapBehind(r, h, b[h..]);
    }
    if ReplyGoes(r, b) {
      var h: nat :| 0 < h < |r| && WordLength(r, h) && r[h] == ':' && b == r[h + 1..];
      BehindWord(r, h);
    }
  }

  lemma NoGapBehind(r: string, h: nat, b: string)
    requires Tight(r) && RefWd(r) == Stripped(r, false) && WordLength(r, h)
    ensures !BlankGoes(r[h..], b) && !BlobGoes(r[h..], b)
  {
    if h == 0 {
      assert r[0..] == r;
      TightKeeps(r, b);
    } else {
      BehindWord(r, h);
      if h == HeadLength(r) {
        TightKeeps(r[h..], b);
      } else {
        assert r[h..][0] == r[2] && r[h..][|r| - h - 1] == r[|r| - 1];
      }
    }
  }

  /** No removal applies to a base subject. */
  lemma NothingLeft(s: string, b: string)
    ensures !Removal(Base(s), b)
  {
    var r := Base(s);
    BaseStable(s);
    BaseClean(s);
    StableHead(r);
    GapStays(r, b);
    assert !TrailerGoes(r, b) && !WrapperGoes(r, b) && !ColonGoes(r, b) by {
      assert |r| > 5 ==> r[|r| - 5..][..5] == r[|r| - 5..];
    }
    assert !DoubleGoes(r, b);
  }

  // The result.

  /** Tabs are blanks. */
  predicate Blanked(s: string, t: string) {
    |s| == |t| && forall i :: 0 <= i < |s| ==> t[i] == if s[i] == '\t' then ' ' else s[i]
  }

  /** Equal up to case, in lower case. */
  predicate Lowered(s: string, t: string) {
    |s| == |t| && forall i :: 0 <= i < |s| ==> t[i] == if 'A' <= s[i] <= 'Z' then s[i] - 'A' + 'a' else s[i]
  }

  /** The base subject is what removals leave of the subject, in lower case. */
  lemma BaseReached(s: string)
    ensures exists start, end :: Blanked(s, start) && Reaches(start, end) && Lowered(end, Base(s))
  {
    var start, packed := Untab(s), PackSpaces(s);
    PackReaches("", start);
    assert "" + start == start && "" + packed == packed;
    NormalReaches(packed);
    Joins(start, packed, Normal(packed));
    assert Blanked(s, start) && Lowered(Normal(packed), Base(s));
  }
}
