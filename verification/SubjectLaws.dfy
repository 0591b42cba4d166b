/**
 What the base subject promises (section 2.1 of RFC 5256): the result has nothing
 left to remove, and taking it twice changes nothing.
 */
module SubjectLaws {
  import opened BaseSubject

  // Nothing left to remove.

  /** A text the main loop leaves alone. */
  predicate Stable(t: string) {
    Trim(t) == t && !Trailer(t) && Leader(t) == t && !Wrapped(t) && Colons(t) == t
  }

  lemma {:induction false} TrimLeftTwice(s: string)
    ensures TrimLeft(TrimLeft(s)) == TrimLeft(s)
  {
    if s != "" && AsciiSpace(s[0]) {
      TrimLeftTwice(s[1..]);
    }
  }

  lemma {:induction false} TrimRightTwice(s: string)
    ensures TrimRight(TrimRight(s)) == TrimRight(s)
  {
    if s != "" && AsciiSpace(s[|s| - 1]) {
      TrimRightTwice(s[..|s| - 1]);
    }
  }

  lemma {:induction false} TrimRightTail(s: string)
    ensures TrimRight(s) == "" || !AsciiSpace(TrimRight(s)[|TrimRight(s)| - 1])
  {
    if s != "" && AsciiSpace(s[|s| - 1]) {
      TrimRightTail(s[..|s| - 1]);
    }
  }

  lemma TrimTwice(s: string)
    ensures Trim(Trim(s)) == Trim(s)
  {
    TrimRightTwice(s);
    var t := TrimRight(s);
    TrimLeftShrinks(t);
    TrimLeftTwice(t);
    var l := TrimLeft(t);
    TrimRightTail(s);
    if l != "" {
      assert l[|l| - 1] == t[|t| - 1];
    }
  }

  lemma StableTurn(t: string)
    ensures Trim(t) == t && !Turn(t).more ==> Stable(t)
    ensures Stable(t) ==> Turn(t) == Stripped(t, false)
  {
    LeaderLoopShrinks(t);
    TurnShrinks(t);
    if !Turn(t).more {
      TailShrinks(LeaderLoop(t), |t|);
    }
  }

  lemma {:induction false} NormalStable(s: string)
    ensures Stable(Normal(s))
    decreases |s|
  {
    TrimShrinks(s);
    TrimTwice(s);
    var t := Trim(s);
    TurnShrinks(t);
    if Turn(t).more {
      NormalStable(Turn(t).text);
    } else {
      StableTurn(t);
    }
  }

  lemma StableIsNormal(t: string)
    requires Stable(t)
    ensures Normal(t) == t
  {
    StableTurn(t);
  }

  // Case does not matter.

  lemma LowerSlice(s: string, i: nat, j: nat)
    requires i <= j <= |s|
    ensures Lower(s)[i..j] == Lower(s[i..j])
  {
  }

  lemma LowerDrop(s: string, i: nat)
    requires i <= |s|
    ensures Lower(s)[i..] == Lower(s[i..])
  {
  }

  lemma LowerTwice(s: string)
    ensures Lower(Lower(s)) == Lower(s)
  {
  }

  lemma LowerJoin(a: string, b: string)
    ensures Lower(a + b) == Lower(a) + Lower(b)
  {
  }

  lemma StartsLower(s: string, literal: string)
    ensures Starts(Lower(s), literal) <==> Starts(s, literal)
  {
    if |s| >= |literal| {
      LowerSlice(s, 0, |literal|);
      LowerTwice(s[..|literal|]);
    }
  }

  lemma {:induction false} TrimLeftLower(s: string)
    ensures TrimLeft(Lower(s)) == Lower(TrimLeft(s))
  {
    if s != "" && AsciiSpace(s[0]) {
      LowerDrop(s, 1);
      TrimLeftLower(s[1..]);
    }
  }

  lemma {:induction false} TrimRightLower(s: string)
    ensures TrimRight(Lower(s)) == Lower(TrimRight(s))
  {
    if s != "" && AsciiSpace(s[|s| - 1]) {
      LowerSlice(s, 0, |s| - 1);
      TrimRightLower(s[..|s| - 1]);
    }
  }

  lemma TrimLower(s: string)
    ensures Trim(Lower(s)) == Lower(Trim(s))
  {
    TrimRightLower(s);
    TrimLeftLower(TrimRight(s));
  }

  lemma {:induction false} SkipLower(s: string)
    ensures Skip(Lower(s)) == Lower(Skip(s))
  {
    if s != "" && LocaleSpace(s[0]) {
      LowerDrop(s, 1);
      SkipLower(s[1..]);
    }
  }

  lemma {:induction false} BlobEndLower(s: string, i: nat)
    requires i <= |s|
    ensures BlobEnd(Lower(s), i) == BlobEnd(s, i)
    decreases |s| - i
  {
    if i < |s| && s[i] != ']' && s[i] != '[' {
      BlobEndLower(s, i + 1);
    }
  }

  lemma BlobLower(s: string)
    ensures Blob(Lower(s)) == Lower(Blob(s))
  {
    if s != "" && s[0] == '[' {
      BlobEndLower(s, 1);
      var j := BlobEnd(s, 1);
      if j < |s| && s[j] == ']' {
        LowerDrop(s, j + 1);
        SkipLower(s[j + 1..]);
      }
    }
  }

  lemma HeadLower(s: string)
    ensures HasHead(Lower(s)) == HasHead(s)
    ensures HeadLength(Lower(s)) == HeadLength(s)
  {
    StartsLower(s, "re");
    StartsLower(s, "fw");
    StartsLower(s, "fwd");
  }

  lemma RefWdLower(s: string)
    ensures RefWd(Lower(s)) == Stripped(Lower(RefWd(s).text), RefWd(s).more)
  {
    HeadLower(s);
    if HasHead(s) {
      var h := HeadLength(s);
      LowerDrop(s, h);
      LowerSlice(s, 0, h);
      TrimLower(s[h..]);
      BlobLower(Trim(s[h..]));
      var t := Blob(Trim(s[h..]));
      if t == "" || t[0] != ':' {
        LowerJoin(s[..h], t);
      } else {
        LowerDrop(t, 1);
        TrimLower(t[1..]);
      }
    }
  }

  lemma {:induction false} BlobLoopLower(s: string)
    ensures BlobLoop(Lower(s)) == Lower(BlobLoop(s))
    decreases |s|
  {
    BlobShrinks(s);
    BlobLower(s);
    if |Blob(s)| != |s| {
      BlobLoopLower(Blob(s));
    }
  }

  lemma {:induction false} RefLoopLower(s: string)
    ensures RefLoop(Lower(s)) == Lower(RefLoop(s))
    decreases |s|
  {
    RefWdShrinks(s);
    RefWdLower(s);
    if RefWd(s).more {
      RefLoopLower(RefWd(s).text);
    }
  }

  lemma {:induction false} ColonsLower(s: string)
    ensures Colons(Lower(s)) == Lower(Colons(s))
  {
    if |s| > 1 && s[0] == ':' {
      LowerDrop(s, 1);
      ColonsLower(s[1..]);
    }
  }

  lemma StableLower(t: string)
    requires Stable(t)
    ensures Stable(Lower(t))
  {
    TrimLower(t);
    BlobLoopLower(t);
    RefLoopLower(BlobLoop(t));
    ColonsLower(t);
    StartsLower(t, "[fwd:");
    if |t| > 5 {
      LowerDrop(t, |t| - 5);
      StartsLower(t[|t| - 5..], "(fwd)");
    }
  }

  // Blanks stay packed.

  /** Neither tabs nor adjacent blanks. */
  predicate Packed(s: string) {
    forall i | 0 <= i < |s| :: s[i] != '\t' && (i > 0 && s[i] == ' ' ==> s[i - 1] != ' ')
  }

  lemma PackedSlice(s: string, i: nat, j: nat)
    requires Packed(s) && i <= j <= |s|
    ensures Packed(s[i..j])
  {
    forall k | 0 <= k < j - i
      ensures s[i..j][k] != '\t' && (k > 0 && s[i..j][k] == ' ' ==> s[i..j][k - 1] != ' ')
    {
      assert s[i..j][k] == s[i + k];
      if k > 0 {
        assert s[i..j][k - 1] == s[i + k - 1];
      }
    }
  }

  lemma PackedJoin(a: string, b: string)
    requires Packed(a) && Packed(b) && (b != "" && b[0] == ' ' ==> a == "" || Last(a) != ' ')
    ensures Packed(a + b)
  {
    var s := a + b;
    forall k | 0 <= k < |s|
      ensures s[k] != '\t' && (k > 0 && s[k] == ' ' ==> s[k - 1] != ' ')
    {
      if k < |a| {
        assert s[k] == a[k];
      } else {
        assert s[k] == b[k - |a|];
        if k > |a| { assert s[k - 1] == b[k - |a| - 1]; }
      }
    }
  }

  function Last(s: string): char
    requires s != ""
  {
    s[|s| - 1]
  }

  lemma {:induction false} PackMakesPacked(s: string)
    requires forall i | 0 <= i < |s| :: s[i] != '\t'
    ensures Packed(Pack(s, ' '))
    ensures s != "" ==> Pack(s, ' ') != "" && Pack(s, ' ')[0] == s[0]
  {
    if s != "" {
      PackMakesPacked(s[1..]);
      var rest := Pack(s[1..], ' ');
      if !(s[0] == ' ' && |s| > 1 && s[1] == ' ') {
        PackedJoin([s[0]], rest);
      }
    }
  }

  lemma {:induction false} PackKeeps(s: string)
    requires Packed(s)
    ensures Pack(s, ' ') == s
  {
    if s != "" {
      PackedSlice(s, 1, |s|);
      PackKeeps(s[1..]);
      assert s == [s[0]] + s[1..];
    }
  }

  lemma PackSpacesPacked(s: string)
    ensures Packed(PackSpaces(s))
    ensures Packed(s) ==> PackSpaces(s) == s
  {
    PackMakesPacked(Untab(s));
    if Packed(s) {
      assert Untab(s) == s;
      PackKeeps(s);
    }
  }

  lemma TrimPacked(s: string)
    requires Packed(s)
    ensures Packed(Trim(s))
  {
    TrimRightShrinks(s);
    var t := TrimRight(s);
    PackedSlice(s, 0, |t|);
    TrimLeftShrinks(t);
    PackedSlice(t, |t| - |TrimLeft(t)|, |t|);
  }

  lemma BlobPacked(s: string)
    requires Packed(s)
    ensures Packed(Blob(s))
  {
    if s != "" && s[0] == '[' {
      var j := BlobEnd(s, 1);
      if j < |s| && s[j] == ']' {
        var rest := s[j + 1..];
        PackedSlice(s, j + 1, |s|);
        SkipShrinks(rest);
        PackedSlice(rest, |rest| - |Skip(rest)|, |rest|);
      }
    }
  }

  lemma {:induction false} TrimLeftHead(s: string)
    ensures TrimLeft(s) == "" || !AsciiSpace(TrimLeft(s)[0])
  {
    if s != "" && AsciiSpace(s[0]) {
      TrimLeftHead(s[1..]);
    }
  }

  lemma {:induction false} SkipHead(s: string)
    ensures Skip(s) == "" || !LocaleSpace(Skip(s)[0])
  {
    if s != "" && LocaleSpace(s[0]) {
      SkipHead(s[1..]);
    }
  }

  lemma BlobHead(s: string)
    requires s == "" || s[0] != ' '
    ensures Blob(s) == "" || Blob(s)[0] != ' '
  {
    if s != "" && s[0] == '[' {
      var j := BlobEnd(s, 1);
      if j < |s| && s[j] == ']' {
        SkipHead(s[j + 1..]);
      }
    }
  }

  lemma RefWdPacked(s: string)
    requires Packed(s)
    ensures Packed(RefWd(s).text)
  {
    if HasHead(s) {
      var h := HeadLength(s);
      PackedSlice(s, h, |s|);
      PackedSlice(s, 0, h);
      TrimPacked(s[h..]);
      BlobPacked(Trim(s[h..]));
      TrimLeftHead(TrimRight(s[h..]));
      BlobHead(Trim(s[h..]));
      var t := Blob(Trim(s[h..]));
      if t == "" || t[0] != ':' {
        PackedJoin(s[..h], t);
      } else {
        PackedSlice(t, 1, |t|);
        TrimPacked(t[1..]);
      }
    }
  }

  lemma {:induction false} BlobLoopPacked(s: string)
    requires Packed(s)
    ensures Packed(BlobLoop(s))
    decreases |s|
  {
    BlobShrinks(s);
    BlobPacked(s);
    if |Blob(s)| != |s| {
      BlobLoopPacked(Blob(s));
    }
  }

  lemma {:induction false} RefLoopPacked(s: string)
    requires Packed(s)
    ensures Packed(RefLoop(s))
    decreases |s|
  {
    RefWdShrinks(s);
    RefWdPacked(s);
    if RefWd(s).more {
      RefLoopPacked(RefWd(s).text);
    }
  }

  lemma {:induction false} LeaderLoopPacked(s: string)
    requires Packed(s)
    ensures Packed(LeaderLoop(s))
    decreases |s|
  {
    LeaderShrinks(s);
    BlobLoopPacked(s);
    RefLoopPacked(BlobLoop(s));
    if |Leader(s)| != |s| {
      LeaderLoopPacked(Leader(s));
    }
  }

  lemma {:induction false} ColonsPacked(s: string)
    requires Packed(s)
    ensures Packed(Colons(s))
  {
    if |s| > 1 && s[0] == ':' {
      PackedSlice(s, 1, |s|);
      ColonsPacked(s[1..]);
    }
  }

  lemma TurnPacked(t: string)
    requires Packed(t)
    ensures Packed(Turn(t).text)
  {
    if Trailer(t) {
      PackedSlice(t, 0, |t| - 5);
      TrimPacked(t[..|t| - 5]);
    } else {
      var l := LeaderLoop(t);
      LeaderLoopPacked(t);
      if Wrapped(l) {
        WrappedLength(l);
        assert Unwrapped(l) == l[5..|l| - 1];
        PackedSlice(l, 5, |l| - 1);
        TrimPacked(Unwrapped(l));
      } else {
        ColonsPacked(l);
      }
    }
  }

  lemma {:induction false} NormalPacked(s: string)
    requires Packed(s)
    ensures Packed(Normal(s))
    decreases |s|
  {
    TrimShrinks(s);
    TrimPacked(s);
    TurnShrinks(Trim(s));
    TurnPacked(Trim(s));
    if Turn(Trim(s)).more {
      NormalPacked(Turn(Trim(s)).text);
    }
  }

  // The main results.

  /** Taking the base subject twice is taking it once. */
  lemma BaseIdempotent(s: string)
    ensures Base(Base(s)) == Base(s)
  {
    BaseStable(s);
    PackSpacesPacked(Base(s));
    StableIsNormal(Base(s));
  }

  lemma BaseStable(s: string)
    ensures Stable(Base(s)) && Packed(Base(s)) && Lower(Base(s)) == Base(s)
  {
    var packed := PackSpaces(s);
    PackSpacesPacked(s);
    NormalPacked(packed);
    NormalStable(packed);
    StableLower(Normal(packed));
    PackedLower(Normal(packed));
    LowerTwice(Normal(packed));
  }

  lemma PackedLower(r: string)
    requires Packed(r)
    ensures Packed(Lower(r))
  {
  }

  /** No reply or forward prefix, wrapper, trailer, outer blank or colon is left. */
  predicate Clean(r: string) {
    && !Starts(r, "re:") && !Starts(r, "fw:") && !Starts(r, "fwd:")
    && !Trailer(r) && !Wrapped(r)
    && (|r| > 1 ==> r[0] != ':')
    && (r != "" ==> !AsciiSpace(r[0]) && !AsciiSpace(r[|r| - 1]))
    && Blob(r) == r
    && Packed(r) && forall i :: 0 <= i < |r| ==> !('A' <= r[i] <= 'Z')
  }

  lemma StableHead(t: string)
    requires Stable(t)
    ensures Blob(t) == t && RefWd(t) == Stripped(t, false)
  {
    BlobLoopShrinks(t);
    RefLoopShrinks(BlobLoop(t));
    BlobShrinks(t);
    RefWdShrinks(t);
    if |Blob(t)| != |t| {
      BlobLoopShrinks(Blob(t));
    }
    if RefWd(t).more {
      RefLoopShrinks(RefWd(t).text);
    }
  }

  lemma StartsChar(s: string, literal: string, k: nat)
    requires Starts(s, literal) && k < |literal|
    ensures LowerChar(s[k]) == literal[k]
  {
    assert Lower(s[..|literal|])[k] == LowerChar(s[..|literal|][k]);
  }

  lemma StartsPrefix(s: string, literal: string, k: nat)
    requires Starts(s, literal) && k <= |literal|
    ensures Starts(s, literal[..k])
  {
    assert Lower(s[..|literal|])[..k] == Lower(s[..k]);
  }

  /** A head followed by a colon is always removed. */
  lemma HeadGoes(s: string, word: string)
    requires word in {"re", "fw", "fwd"} && Starts(s, word + ":")
    ensures |RefWd(s).text| < |s|
  {
    var h := |word|;
    StartsPrefix(s, word + ":", h);
    assert (word + ":")[..h] == word && (word + ":")[h] == ':';
    StartsChar(s, word + ":", h);
    if word == "fwd" {
      StartsPrefix(s, "fwd", 2);
      assert "fwd"[..2] == "fw";
    } else {
      assert Lower(s[..3])[2] == ':';
    }
    assert HasHead(s) && HeadLength(s) == h;
    var y := s[h..];
    assert y[0] == ':';
    TrimColon(y);
    var t := Trim(y);
    assert Blob(t) == t;
    TrimShrinks(t[1..]);
    TrimShrinks(y);
  }

  lemma {:induction false} TrimRightKeeps(a: string, b: string)
    requires a != "" && !AsciiSpace(a[|a| - 1])
    ensures TrimRight(a + b) == a + TrimRight(b)
  {
    if b == "" {
      assert a + b == a;
    } else if AsciiSpace(b[|b| - 1]) {
      assert (a + b)[..|a + b| - 1] == a + b[..|b| - 1];
      TrimRightKeeps(a, b[..|b| - 1]);
    }
  }

  lemma TrimColon(y: string)
    requires y != "" && y[0] == ':'
    ensures Trim(y) == [':'] + TrimRight(y[1..])
  {
    TrimRightKeeps([':'], y[1..]);
    assert y == [':'] + y[1..];
  }

  lemma StableClean(r: string)
    requires Stable(r)
    ensures !Starts(r, "re:") && !Starts(r, "fw:") && !Starts(r, "fwd:")
    ensures |r| > 1 ==> r[0] != ':'
  {
    StableHead(r);
    if Starts(r, "re:") { HeadGoes(r, "re"); }
    if Starts(r, "fw:") { HeadGoes(r, "fw"); }
    if Starts(r, "fwd:") { HeadGoes(r, "fwd"); }
    if |r| > 1 && r[0] == ':' { ColonsShrinks(r[1..]); }
  }

  /** The result of the main loop leaves nothing that the rules would remove. */
  lemma BaseClean(s: string)
    ensures Clean(Base(s))
  {
    BaseStable(s);
    var r := Base(s);
    StableHead(r);
    StableClean(r);
    if r != "" {
      TrimEnds(r);
    }
    LowerHasNoCapitals(r);
  }

  lemma LowerHasNoCapitals(r: string)
    requires Lower(r) == r
    ensures forall i :: 0 <= i < |r| ==> !('A' <= r[i] <= 'Z')
  {
    assert forall i :: 0 <= i < |r| ==> LowerChar(r[i]) == Lower(r)[i];
  }

  lemma TrimEnds(r: string)
    requires Trim(r) == r && r != ""
    ensures !AsciiSpace(r[0]) && !AsciiSpace(r[|r| - 1])
  {
    TrimRightShrinks(r);
    TrimLeftShrinks(TrimRight(r));
    TrimLeftHead(TrimRight(r));
    if AsciiSpace(r[|r| - 1]) {
      TrimRightShrinks(r[..|r| - 1]);
    }
  }
}
