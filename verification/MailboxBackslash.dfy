/**
 Mailbox names with a backslash. The patterns do not escape it, so it escapes what
 follows: another character is taken without its backslash, and a backslash in front
 of an escaped underscore turns the underscore into a wildcard.
 */
module MailboxBackslash {
  import opened MailboxMatch

  /** Every backslash stands at the end or in front of an underscore. */
  predicate Harmless(name: string) {
    if name == "" then true
    else if name[0] == '\\' then |name| == 1 || (name[1] == '_' && Harmless(name[2..]))
    else Harmless(name[1..])
  }

  /** What the patterns of a harmless name mean: an underscore after a backslash is any character. */
  predicate LooseFrom(name: string, prev: char, before: bool, stored: string) {
    if name == "" then stored == ""
    else
      var v := Verbatim(name[0], prev, before);
      if name[0] == '\\' && |name| > 1
      then |stored| > 1 && stored[0] == '\\' && LooseFrom(name[2..], '_', v, stored[2..])
      else stored != "" && SameChar(name[0], stored[0], !v) && LooseFrom(name[1..], name[0], v, stored[1..])
  }

  // The patterns of a harmless name.

  lemma BackslashStep(rest: string, prev: char, before: bool)
    ensures var v := Verbatim('\\', prev, before);
            && Sensitive("\\\\_" + rest, prev, before) == "\\\\_" + Sensitive(rest, '_', v)
            && Insensitive("\\\\_" + rest, prev, before) == "\\\\_" + Insensitive(rest, '_', v)
  {
    var v := Verbatim('\\', prev, before);
    var e := "\\\\_" + rest;
    assert e[0] == '\\' && e[1..] == "\\_" + rest;
    UnderscoreStep(rest, '\\', v);
    assert Verbatim('_', '\\', v) == v;
    assert ['\\'] + ("\\_" + Sensitive(rest, '_', v)) == "\\\\_" + Sensitive(rest, '_', v);
    assert ['\\'] + ("\\_" + Insensitive(rest, '_', v)) == "\\\\_" + Insensitive(rest, '_', v);
  }

  lemma LikeBackslash(rest: string, stored: string, fold: bool)
    ensures Like("\\\\_" + rest, stored, fold) <==>
            |stored| > 1 && stored[0] == '\\' && Like(rest, stored[2..], fold)
  {
    var p := "\\\\_" + rest;
    assert p[0] == '\\' && p[1] == '\\' && p[2..] == "_" + rest;
    if stored != "" {
      assert SameChar('\\', stored[0], fold) <==> stored[0] == '\\';
      LikePlain('_', rest, stored[1..], fold);
      if |stored| > 1 {
        assert stored[1..][1..] == stored[2..];
      }
    }
  }

  lemma LikeLast(stored: string, fold: bool)
    ensures Like("\\", stored, fold) <==> stored == "\\"
  {
    if stored != "" {
      assert "\\"[1..] == "";
      assert SameChar('\\', stored[0], fold) <==> stored[0] == '\\';
      assert stored == [stored[0]] + stored[1..];
    }
  }

  lemma EscapedPair(name: string)
    requires |name| > 1 && name[0] == '\\' && name[1] == '_'
    ensures Escaped(name) == "\\\\_" + Escaped(name[2..])
  {
    assert name[1..][0] == '_' && name[1..][1..] == name[2..];
    assert Escaped(name[1..]) == "\\_" + Escaped(name[2..]);
    assert ['\\'] + ("\\_" + Escaped(name[2..])) == "\\\\_" + Escaped(name[2..]);
  }

  ghost predicate BothMatch(name: string, prev: char, before: bool, stored: string) {
    && Like(Sensitive(Escaped(name), prev, before), stored, false)
    && Like(Insensitive(Escaped(name), prev, before), stored, true)
  }

  lemma AloneKept(prev: char, before: bool)
    ensures Escaped("\\") == Sensitive("\\", prev, before) == Insensitive("\\", prev, before) == "\\"
  {
    var name := "\\";
    assert name[0] == '\\' && name[1..] == "";
    assert Escaped(name) == [name[0]] + Escaped("");
    var v := Verbatim(name[0], prev, before);
    assert Sensitive(name, prev, before) == [name[0]] + Sensitive("", name[0], v);
    assert Insensitive(name, prev, before) == [name[0]] + Insensitive("", name[0], v);
  }

  lemma SingleBackslash(prev: char, before: bool, stored: string)
    ensures BothMatch("\\", prev, before, stored) <==> LooseFrom("\\", prev, before, stored)
  {
    AloneKept(prev, before);
    LikeLast(stored, false);
    LikeLast(stored, true);
    if stored != "" {
      assert stored == [stored[0]] + stored[1..];
    }
  }

  lemma {:induction false} LoosePatterns(name: string, prev: char, before: bool, stored: string)
    requires Harmless(name) && '%' !in name
    ensures BothMatch(name, prev, before, stored) <==> LooseFrom(name, prev, before, stored)
    decreases |name|
  {
    if name != "" {
      var c, v := name[0], Verbatim(name[0], prev, before);
      if name == "\\" {
        SingleBackslash(prev, before, stored);
      } else if c == '\\' {
        var rest := Escaped(name[2..]);
        EscapedPair(name);
        BackslashStep(rest, prev, before);
        LikeBackslash(Sensitive(rest, '_', v), stored, false);
        LikeBackslash(Insensitive(rest, '_', v), stored, true);
        if |stored| > 1 {
          LoosePatterns(name[2..], '_', v, stored[2..]);
        }
      } else {
        LooseOther(name, prev, before, stored);
        if stored != "" {
          LoosePatterns(name[1..], c, v, stored[1..]);
        }
      }
    }
  }

  /** A character other than a backslash. */
  lemma LooseOther(name: string, prev: char, before: bool, stored: string)
    requires name != "" && !Kept(name[0])
    ensures var v := Verbatim(name[0], prev, before);
            BothMatch(name, prev, before, stored) <==>
            stored != "" && SameChar(name[0], stored[0], !v) && BothMatch(name[1..], name[0], v, stored[1..])
  {
    var c, rest := name[0], Escaped(name[1..]);
    var v := Verbatim(c, prev, before);
    var s, i := Sensitive(rest, c, v), Insensitive(rest, c, v);
    if c == '_' {
      UnderscoreStep(rest, prev, before);
      LikeEscaped(s, stored, false);
      LikeEscaped(i, stored, true);
    } else {
      var e := [c] + rest;
      assert e[0] == c && e[1..] == rest;
      LikePlain(if v then c else '_', s, stored, false);
      LikePlain(if v then '_' else c, i, stored, true);
    }
  }

  /** Without a case-sensitive part the sensitive pattern would not change the answer. */
  lemma {:induction false} SensitiveImplied(name: string, prev: char, stored: string)
    requires Harmless(name) && '%' !in name && '&' !in name
    requires Like(Insensitive(Escaped(name), prev, false), stored, true)
    ensures Like(Sensitive(Escaped(name), prev, false), stored, false)
    decreases |name|
  {
    if name != "" {
      var c := name[0];
      if name == "\\" {
        AloneKept(prev, false);
        LikeLast(stored, true);
        LikeLast(stored, false);
      } else if c == '\\' {
        var rest := Escaped(name[2..]);
        EscapedPair(name);
        BackslashStep(rest, prev, false);
        LikeBackslash(Sensitive(rest, '_', false), stored, false);
        LikeBackslash(Insensitive(rest, '_', false), stored, true);
        SensitiveImplied(name[2..], '_', stored[2..]);
      } else {
        SensitiveOther(name, prev, stored);
        SensitiveImplied(name[1..], c, stored[1..]);
      }
    }
  }

  lemma SensitiveOther(name: string, prev: char, stored: string)
    requires name != "" && !Kept(name[0]) && name[0] != '&'
    requires Like(Insensitive(Escaped(name), prev, false), stored, true)
    ensures stored != "" && Like(Insensitive(Escaped(name[1..]), name[0], false), stored[1..], true)
    ensures Like(Sensitive(Escaped(name[1..]), name[0], false), stored[1..], false) ==>
            Like(Sensitive(Escaped(name), prev, false), stored, false)
  {
    var c, rest := name[0], Escaped(name[1..]);
    var s, i := Sensitive(rest, c, false), Insensitive(rest, c, false);
    if c == '_' {
      UnderscoreStep(rest, prev, false);
      LikeEscaped(s, stored, false);
      LikeEscaped(i, stored, true);
    } else {
      var e := [c] + rest;
      assert e[0] == c && e[1..] == rest;
      LikePlain('_', s, stored, false);
      LikePlain(c, i, stored, true);
    }
  }

  /** The names that the query for a harmless name selects. */
  lemma HarmlessSelects(name: string, stored: string)
    requires Harmless(name) && '%' !in name
    ensures Selects(PatternsOf(name), stored) <==> LooseFrom(name, '\0', false, stored)
  {
    EscapedAmpersand(name);
    LoosePatterns(name, '\0', false, stored);
    if '&' !in name && Like(PatternsOf(name).insensitive, stored, true) {
      SensitiveImplied(name, '\0', stored);
    }
  }

  // Lengths: every other backslash swallows the character after it.

  function Tokens(p: string): nat {
    if p == "" then 0 else 1 + Tokens(if p[0] == '\\' && |p| > 1 then p[2..] else p[1..])
  }

  lemma {:induction false} LikeLength(p: string, s: string, fold: bool)
    requires '%' !in p && Like(p, s, fold)
    ensures |s| == Tokens(p)
    decreases |p|
  {
    if p != "" {
      assert p[0] in p;
      var rest := if p[0] == '\\' && |p| > 1 then p[2..] else p[1..];
      assert forall c :: c in rest ==> c in p;
      LikeLength(rest, s[1..], fold);
    }
  }

  lemma {:induction false} InsensitiveTokens(e: string, prev: char, before: bool)
    ensures |Insensitive(e, prev, before)| == |e| && Tokens(Insensitive(e, prev, before)) == Tokens(e)
    ensures '%' in Insensitive(e, prev, before) ==> '%' in e
    decreases |e|
  {
    if e != "" {
      var v := Verbatim(e[0], prev, before);
      var i := Insensitive(e, prev, before);
      InsensitiveTokens(e[1..], e[0], v);
      assert i[1..] == Insensitive(e[1..], e[0], v);
      if e[0] == '\\' && |e| > 1 {
        var w := Verbatim(e[1], e[0], v);
        assert e[1..][0] == e[1] && e[1..][1..] == e[2..];
        InsensitiveTokens(e[2..], e[1], w);
        assert i[2..] == Insensitive(e[2..], e[1], w);
      }
    }
  }

  function NameTokens(name: string): nat {
    if name == "" then 0
    else if name[0] == '\\' && |name| > 1 then (if name[1] == '_' then 2 else 1) + NameTokens(name[2..])
    else 1 + NameTokens(name[1..])
  }

  lemma {:induction false} EscapedTokens(name: string)
    ensures Tokens(Escaped(name)) == NameTokens(name)
    ensures '%' in Escaped(name) ==> '%' in name
    decreases |name|
  {
    if name != "" {
      EscapedTokens(name[1..]);
      if name[0] == '\\' && |name| > 1 {
        EscapedTokens(name[2..]);
        BackslashTokens(name);
      } else if name[0] == '_' {
        assert Escaped(name)[2..] == Escaped(name[1..]);
      } else {
        assert Escaped(name)[1..] == Escaped(name[1..]);
        assert |name| == 1 ==> Escaped(name[1..]) == "";
      }
    }
  }

  lemma BackslashTokens(name: string)
    requires |name| > 1 && name[0] == '\\'
    ensures Tokens(Escaped(name)) == (if name[1] == '_' then 2 else 1) + Tokens(Escaped(name[2..]))
  {
    var rest := Escaped(name[2..]);
    if name[1] == '_' {
      EscapedPair(name);
      var e := "\\\\_" + rest;
      assert e[2..] == "_" + rest && ("_" + rest)[1..] == rest;
    } else {
      assert name[1..][1..] == name[2..];
      assert Escaped(name[1..]) == [name[1]] + rest;
      var e := ['\\'] + ([name[1]] + rest);
      assert Escaped(name) == e && e[2..] == rest;
    }
  }

  lemma {:induction false} TokensExactly(name: string)
    ensures NameTokens(name) <= |name|
    ensures NameTokens(name) == |name| <==> Harmless(name)
    decreases |name|
  {
    if name != "" {
      TokensExactly(if name[0] == '\\' && |name| > 1 then name[2..] else name[1..]);
    }
  }

  lemma {:induction false} LooseSelf(name: string, prev: char, before: bool)
    requires Harmless(name)
    ensures LooseFrom(name, prev, before, name)
    decreases |name|
  {
    if name != "" {
      var v := Verbatim(name[0], prev, before);
      if name[0] == '\\' && |name| > 1 {
        LooseSelf(name[2..], '_', v);
      } else {
        LooseSelf(name[1..], name[0], v);
      }
    }
  }

  /** A name is selected by its own patterns if and only if its backslashes are harmless. */
  lemma SelfMatchExactly(name: string)
    requires '%' !in name
    ensures Selects(PatternsOf(name), name) <==> Harmless(name)
  {
    if Harmless(name) {
      HarmlessSelects(name, name);
      LooseSelf(name, '\0', false);
    } else if Selects(PatternsOf(name), name) {
      EscapedTokens(name);
      InsensitiveTokens(Escaped(name), '\0', false);
      LikeLength(PatternsOf(name).insensitive, name, true);
      TokensExactly(name);
    }
  }

  // When the promise holds.

  /** No backslash, except perhaps at the end. */
  predicate OnlyAtEnd(name: string) {
    forall i :: 0 <= i < |name| - 1 ==> name[i] != '\\'
  }

  lemma {:induction false} AtEndIsExact(name: string, prev: char, before: bool, stored: string)
    requires OnlyAtEnd(name)
    ensures Harmless(name)
    ensures LooseFrom(name, prev, before, stored) <==> MatchFrom(name, prev, before, stored)
  {
    if name != "" {
      var v := Verbatim(name[0], prev, before);
      assert forall i :: 0 <= i < |name[1..]| - 1 ==> name[1..][i] == name[i + 1];
      AtEndIsExact(name[1..], name[0], v, if stored == "" then "" else stored[1..]);
    }
  }

  /** Behind an earlier backslash any character is accepted for the underscore. */
  lemma {:induction false} LooseOne(name: string, prev: char, before: bool) returns (stored: string, k: nat)
    requires Harmless(name) && !OnlyAtEnd(name)
    ensures LooseFrom(name, prev, before, stored) && |stored| == |name|
    ensures k < |name| && name[k] == '_' && stored[k] == 'x'
    decreases |name|
  {
    var v := Verbatim(name[0], prev, before);
    if name[0] == '\\' {
      stored, k := "\\x" + name[2..], 1;
      LooseSelf(name[2..], '_', v);
      assert stored[2..] == name[2..];
    } else {
      assert !OnlyAtEnd(name[1..]) by {
        var i :| 0 <= i < |name| - 1 && name[i] == '\\';
        assert name[1..][i - 1] == '\\';
      }
      var rest, j := LooseOne(name[1..], name[0], v);
      stored, k := [name[0]] + rest, j + 1;
      assert stored[1..] == rest;
    }
  }

  /**
   For a name without `%`, the query selects exactly the names of the same mailbox if
   and only if no backslash stands before the last character.
   */
  lemma MeansExactly(name: string)
    requires '%' !in name
    ensures (forall stored :: Selects(PatternsOf(name), stored) <==> SameMailbox(name, stored)) <==> OnlyAtEnd(name)
  {
    if OnlyAtEnd(name) {
      forall stored
        ensures Selects(PatternsOf(name), stored) <==> SameMailbox(name, stored)
      {
        AtEndIsExact(name, '\0', false, stored);
        HarmlessSelects(name, stored);
        MatchIsSame(name, stored);
      }
    } else if Harmless(name) {
      var stored, k := LooseOne(name, '\0', false);
      HarmlessSelects(name, stored);
      assert !SameMailbox(name, stored) by {
        assert !SameChar(name[k], stored[k], !InRun(name, k));
      }
    } else {
      SelfMatchExactly(name);
      assert SameMailbox(name, name);
    }
  }
}
