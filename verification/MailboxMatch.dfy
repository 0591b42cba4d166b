/**
 Matching a mailbox name in SQL (`mailbox_match_new`): the name becomes one LIKE
 pattern for the case-sensitive parts and one for the rest.
 */
module MailboxMatch {
  import opened Basics

  // LIKE with `_`, `%` and the escape character `\`.

  function Lower(c: char): char {
    if 'A' <= c <= 'Z' then (c as int + 32) as char else c
  }

  predicate SameChar(a: char, b: char, fold: bool) {
    if fold then Lower(a) == Lower(b) else a == b
  }

  predicate Like(pattern: string, s: string, fold: bool)
    decreases |pattern| + |s|
  {
    if pattern == "" then s == ""
    else if pattern[0] == '%' then Like(pattern[1..], s, fold) || (s != "" && Like(pattern, s[1..], fold))
    else if pattern[0] == '\\' && |pattern| > 1 then
      s != "" && SameChar(pattern[1], s[0], fold) && Like(pattern[2..], s[1..], fold)
    else if pattern[0] == '_' then s != "" && Like(pattern[1..], s[1..], fold)
    else s != "" && SameChar(pattern[0], s[0], fold) && Like(pattern[1..], s[1..], fold)
  }

  // What the code builds.

  function Escaped(name: string): string {
    if name == "" then "" else
    (if name[0] == '_' then "\\_" else [name[0]]) + Escaped(name[1..])
  }

  /** Whether a character is taken verbatim, given its predecessor and the state before it. */
  predicate Verbatim(c: char, prev: char, before: bool) {
    c == '&' || (prev != '-' && before)
  }

  predicate Kept(c: char) {
    c == '\\' || c == '%'
  }

  function Sensitive(e: string, prev: char, before: bool): string {
    if e == "" then "" else
    var v := Verbatim(e[0], prev, before);
    [if v || Kept(e[0]) then e[0] else '_'] + Sensitive(e[1..], e[0], v)
  }

  function Insensitive(e: string, prev: char, before: bool): string {
    if e == "" then "" else
    var v := Verbatim(e[0], prev, before);
    [if !v || Kept(e[0]) then e[0] else '_'] + Insensitive(e[1..], e[0], v)
  }

  datatype Patterns = Patterns(sensitive: Option<string>, insensitive: string)

  function PatternsOf(name: string): Patterns {
    var e := Escaped(name);
    Patterns(if '&' in e then Some(Sensitive(e, '\0', false)) else None, Insensitive(e, '\0', false))
  }

  /** The WHERE clause of `db_findmailbox_owner`. */
  predicate Selects(p: Patterns, stored: string) {
    (p.sensitive.Some? ==> Like(p.sensitive.value, stored, false)) && Like(p.insensitive, stored, true)
  }

  // What it should mean.

  /** Position i lies in a run of modified BASE64: after an `&` that no `-` has ended. */
  predicate InRun(name: string, i: nat)
    requires i < |name|
  {
    exists j :: 0 <= j <= i && name[j] == '&' && forall k :: j < k < i ==> name[k] != '-'
  }

  predicate SameMailbox(name: string, stored: string) {
    |stored| == |name| &&
    forall i :: 0 <= i < |name| ==> SameChar(name[i], stored[i], !InRun(name, i))
  }

  predicate NoWildcards(name: string) {
    forall i :: 0 <= i < |name| ==> name[i] != '\\' && name[i] != '%'
  }

  /** The comparison character by character, with the scanner's state. */
  predicate MatchFrom(name: string, prev: char, before: bool, stored: string) {
    if name == "" then stored == "" else
    var v := Verbatim(name[0], prev, before);
    stored != "" && SameChar(name[0], stored[0], !v) && MatchFrom(name[1..], name[0], v, stored[1..])
  }

  lemma UnderscoreStep(rest: string, prev: char, before: bool)
    ensures var v := Verbatim('_', prev, before);
            && Sensitive("\\_" + rest, prev, before) == "\\_" + Sensitive(rest, '_', v)
            && Insensitive("\\_" + rest, prev, before) == "\\_" + Insensitive(rest, '_', v)
  {
    var e := "\\_" + rest;
    assert e[0] == '\\' && e[1..] == "_" + rest;
    assert ("_" + rest)[0] == '_' && ("_" + rest)[1..] == rest;
    var v := Verbatim('_', prev, before);
    assert Verbatim('\\', prev, before) == v && Verbatim('_', '\\', v) == v;
    assert Sensitive(e, prev, before) == ['\\'] + (['_'] + Sensitive(rest, '_', v));
    assert Insensitive(e, prev, before) == ['\\'] + (['_'] + Insensitive(rest, '_', v));
  }

  lemma LikeEscaped(rest: string, stored: string, fold: bool)
    ensures Like("\\_" + rest, stored, fold) <==> stored != "" && stored[0] == '_' && Like(rest, stored[1..], fold)
  {
    var p := "\\_" + rest;
    assert p[2..] == rest;
  }

  lemma LikePlain(c: char, rest: string, stored: string, fold: bool)
    requires !Kept(c)
    ensures Like([c] + rest, stored, fold) <==>
            stored != "" && (c == '_' || SameChar(c, stored[0], fold)) && Like(rest, stored[1..], fold)
  {
    var p := [c] + rest;
    assert p[1..] == rest;
  }

  /** Both patterns together compare character by character. */
  lemma {:induction false} PatternsMatch(name: string, prev: char, before: bool, stored: string)
    requires NoWildcards(name)
    ensures var e := Escaped(name);
            Like(Sensitive(e, prev, before), stored, false) && Like(Insensitive(e, prev, before), stored, true) <==>
            MatchFrom(name, prev, before, stored)
  {
    if name != "" {
      var c, rest := name[0], Escaped(name[1..]);
      var v := Verbatim(c, prev, before);
      var s, i := Sensitive(rest, c, v), Insensitive(rest, c, v);
      if stored != "" {
        PatternsMatch(name[1..], c, v, stored[1..]);
      }
      if c == '_' {
        UnderscoreStep(rest, prev, before);
        LikeEscaped(s, stored, false);
        LikeEscaped(i, stored, true);
      } else {
        var e := [c] + rest;
        assert e[0] == c && e[1..] == rest;
        LikePlain(if v then c else '_', s, stored, false);
        LikePlain(if v then '_' else c, i, stored, true);
      }
    }
  }

  // From the scanner's state to the runs.

  predicate StateAt(name: string, i: nat)
    requires i < |name|
  {
    Verbatim(name[i], if i == 0 then '\0' else name[i - 1], i > 0 && StateAt(name, i - 1))
  }

  lemma {:induction false} StateIsRun(name: string, i: nat)
    requires i < |name|
    ensures StateAt(name, i) <==> InRun(name, i)
  {
    if i > 0 {
      StateIsRun(name, i - 1);
      RunStep(name, i);
    }
  }

  lemma RunStep(name: string, i: nat)
    requires 0 < i < |name|
    ensures InRun(name, i) <==> name[i] == '&' || (name[i - 1] != '-' && InRun(name, i - 1))
  {
    if InRun(name, i) && name[i] != '&' {
      var j :| 0 <= j <= i && name[j] == '&' && forall k :: j < k < i ==> name[k] != '-';
      assert forall k :: j < k < i - 1 ==> name[k] != '-';
    }
    if name[i - 1] != '-' && InRun(name, i - 1) {
      var j :| 0 <= j <= i - 1 && name[j] == '&' && forall k :: j < k < i - 1 ==> name[k] != '-';
      assert forall k :: j < k < i ==> name[k] != '-';
    }
  }

  lemma {:induction false} MatchFromIndex(name: string, stored: string, i: nat)
    requires i <= |name| && i <= |stored|
    ensures MatchFrom(name[i..], if i == 0 then '\0' else name[i - 1], i > 0 && StateAt(name, i - 1), stored[i..]) <==>
            |stored| == |name| && forall k :: i <= k < |name| ==> SameChar(name[k], stored[k], !StateAt(name, k))
    decreases |name| - i
  {
    if i < |name| && i < |stored| {
      assert name[i..][0] == name[i] && name[i..][1..] == name[i + 1..];
      assert stored[i..][0] == stored[i] && stored[i..][1..] == stored[i + 1..];
      MatchFromIndex(name, stored, i + 1);
    }
  }

  /** The comparison with the scanner's state is the comparison by runs. */
  lemma MatchIsSame(name: string, stored: string)
    ensures MatchFrom(name, '\0', false, stored) <==> SameMailbox(name, stored)
  {
    assert name[0..] == name && stored[0..] == stored;
    MatchFromIndex(name, stored, 0);
    forall i | 0 <= i < |name|
      ensures StateAt(name, i) <==> InRun(name, i)
    {
      StateIsRun(name, i);
    }
  }

  /** Without a case-sensitive part the sensitive pattern asks for nothing the other does not. */
  lemma {:induction false} SensitiveIdle(name: string, prev: char, stored: string)
    requires NoWildcards(name) && '&' !in name
    ensures Like(Insensitive(Escaped(name), prev, false), stored, true) <==> MatchFrom(name, prev, false, stored)
  {
    if name != "" {
      var c, rest := name[0], Escaped(name[1..]);
      var i := Insensitive(rest, c, false);
      if stored != "" {
        SensitiveIdle(name[1..], c, stored[1..]);
      }
      if c == '_' {
        UnderscoreStep(rest, prev, false);
        LikeEscaped(i, stored, true);
      } else {
        var e := [c] + rest;
        assert e[0] == c && e[1..] == rest;
        LikePlain(c, i, stored, true);
      }
    }
  }

  lemma {:induction false} EscapedAmpersand(name: string)
    ensures '&' in Escaped(name) <==> '&' in name
  {
    if name != "" {
      EscapedAmpersand(name[1..]);
      assert name == [name[0]] + name[1..];
    }
  }

  /**
   For a name without wildcards the query selects exactly the names of equal length
   that are identical inside every `&`...`-` run and equal up to case elsewhere.
   */
  lemma PatternsMean(name: string, stored: string)
    requires NoWildcards(name)
    ensures Selects(PatternsOf(name), stored) <==> SameMailbox(name, stored)
  {
    EscapedAmpersand(name);
    if '&' in name {
      PatternsMatch(name, '\0', false, stored);
    } else {
      SensitiveIdle(name, '\0', stored);
    }
    MatchIsSame(name, stored);
  }

  // The loops over the two buffers.

  method CountUnderscores(name: string) returns (n: nat)
    ensures n + |name| == |Escaped(name)|
  {
    n := 0;
    var i := 0;
    assert name[0..] == name;
    while i < |name|
      invariant 0 <= i <= |name|
      invariant n + i + |Escaped(name[i..])| == |Escaped(name)|
    {
      assert name[i..][1..] == name[i + 1..];
      if name[i] == '_' {
        n := n + 1;
      }
      i := i + 1;
    }
  }

  function EscapedChar(c: char): string {
    if c == '_' then "\\_" else [c]
  }

  lemma EscapedStep(name: string, i: nat, done: string)
    requires i < |name| && done + Escaped(name[i..]) == Escaped(name)
    ensures done + EscapedChar(name[i]) + Escaped(name[i + 1..]) == Escaped(name)
    ensures |done| + |EscapedChar(name[i])| <= |Escaped(name)|
  {
    assert name[i..][1..] == name[i + 1..];
    assert Escaped(name[i..]) == EscapedChar(name[i]) + Escaped(name[i + 1..]);
    Assoc(done, EscapedChar(name[i]), Escaped(name[i + 1..]));
  }

  /** The escaped copy of the name. */
  method Escape(name: string) returns (buffer: array<char>)
    ensures fresh(buffer) && buffer[..] == Escaped(name)
  {
    var extra := CountUnderscores(name);
    buffer := new char[|name| + extra];
    var i, j := 0, 0;
    ghost var done := "";
    assert name[0..] == name;
    while i < |name|
      invariant 0 <= i <= |name| && 0 <= j <= buffer.Length
      invariant buffer[..j] == done
      invariant done + Escaped(name[i..]) == Escaped(name)
    {
      EscapedStep(name, i, done);
      if name[i] == '_' {
        buffer[j] := '\\';
        buffer[j + 1] := '_';
        j := j + 2;
      } else {
        buffer[j] := name[i];
        j := j + 1;
      }
      done := done + EscapedChar(name[i]);
      i := i + 1;
    }
    assert done + "" == done;
    assert buffer[..j] == buffer[..];
  }

  /**
   One position of the scan. The previous character is read from the buffer that
   is being overwritten; where it has been replaced, the state was off anyway.
   */
  method ScanStep(sensitive: array<char>, insensitive: array<char>, i: nat, verbatim: bool, ghost e: string)
    returns (v: bool)
    requires i < sensitive.Length == insensitive.Length == |e| && sensitive != insensitive
    requires sensitive[i] == insensitive[i] == e[i]
    requires i > 0 ==> sensitive[i - 1] == e[i - 1] || (sensitive[i - 1] == '_' && !verbatim)
    modifies sensitive, insensitive
    ensures v == Verbatim(e[i], if i == 0 then '\0' else e[i - 1], verbatim)
    ensures sensitive[..] == old(sensitive[..])[i := if v || Kept(e[i]) then e[i] else '_']
    ensures insensitive[..] == old(insensitive[..])[i := if !v || Kept(e[i]) then e[i] else '_']
  {
    v := verbatim;
    var c := sensitive[i];
    var p := '\0';
    if i > 0 {
      p := sensitive[i - 1];
    }
    if p == '-' {
      v := false;
    }
    if c == '&' {
      v := true;
    }
    if v {
      if insensitive[i] != '\\' && insensitive[i] != '%' {
        insensitive[i] := '_';
      }
    } else {
      if sensitive[i] != '\\' && sensitive[i] != '%' {
        sensitive[i] := '_';
      }
    }
  }

  function Previous(e: string, i: nat): char
    requires i <= |e|
  {
    if i == 0 then '\0' else e[i - 1]
  }

  /** The finished parts of both buffers after `i` positions. */
  predicate Scanned(e: string, i: nat, s: string, t: string, verbatim: bool)
    requires i <= |e|
  {
    && |s| == |t| == i
    && s + Sensitive(e[i..], Previous(e, i), verbatim) == Sensitive(e, '\0', false)
    && t + Insensitive(e[i..], Previous(e, i), verbatim) == Insensitive(e, '\0', false)
    && (i > 0 ==> s[i - 1] == e[i - 1] || (s[i - 1] == '_' && !verbatim))
  }

  lemma ScannedStep(e: string, i: nat, s: string, t: string, verbatim: bool)
    requires i < |e| && Scanned(e, i, s, t, verbatim)
    ensures var v := Verbatim(e[i], Previous(e, i), verbatim);
            Scanned(e, i + 1, s + [if v || Kept(e[i]) then e[i] else '_'],
                    t + [if !v || Kept(e[i]) then e[i] else '_'], v)
  {
    var v := Verbatim(e[i], Previous(e, i), verbatim);
    var x, y := if v || Kept(e[i]) then e[i] else '_', if !v || Kept(e[i]) then e[i] else '_';
    assert e[i..][0] == e[i] && e[i..][1..] == e[i + 1..];
    assert s + ([x] + Sensitive(e[i + 1..], e[i], v)) == s + [x] + Sensitive(e[i + 1..], e[i], v);
    assert t + ([y] + Insensitive(e[i + 1..], e[i], v)) == t + [y] + Insensitive(e[i + 1..], e[i], v);
  }

  lemma ScannedEnd(e: string, s: string, t: string, verbatim: bool)
    requires Scanned(e, |e|, s, t, verbatim)
    ensures s == Sensitive(e, '\0', false) && t == Insensitive(e, '\0', false)
  {
    assert e[|e|..] == "";
    assert s + "" == s && t + "" == t;
  }

  lemma ScannedStart(e: string)
    ensures Scanned(e, 0, "", "", false)
  {
    assert e[0..] == e;
    assert "" + Sensitive(e, '\0', false) == Sensitive(e, '\0', false);
    assert "" + Insensitive(e, '\0', false) == Insensitive(e, '\0', false);
  }

  lemma AmpersandStep(e: string, i: nat)
    requires i < |e|
    ensures AmpersandBefore(e, i + 1) <==> AmpersandBefore(e, i) || e[i] == '&'
  {
  }

  lemma UpdateNext(s: string, e: string, i: nat, x: char)
    requires |s| == i < |e|
    ensures (s + e[i..])[i] == e[i]
    ensures (s + e[i..])[i := x] == (s + [x]) + e[i + 1..]
  {
  }

  predicate AmpersandBefore(e: string, i: nat)
    requires i <= |e|
  {
    exists k :: 0 <= k < i && e[k] == '&'
  }

  /** Both buffers hold what is written so far and then the rest of the text. */
  predicate Scanning(e: string, i: nat, s: string, t: string, verbatim: bool, sensitive: string, insensitive: string) {
    && i <= |e| == |sensitive| == |insensitive|
    && Scanned(e, i, s, t, verbatim) && sensitive == s + e[i..] && insensitive == t + e[i..]
  }

  lemma ScanningAt(e: string, i: nat, s: string, t: string, verbatim: bool, sensitive: string, insensitive: string)
    requires Scanning(e, i, s, t, verbatim, sensitive, insensitive) && i < |e|
    ensures sensitive[i] == insensitive[i] == e[i]
    ensures i > 0 ==> sensitive[i - 1] == e[i - 1] || (sensitive[i - 1] == '_' && !verbatim)
  {
  }

  lemma ScanningNext(e: string, i: nat, s: string, t: string, verbatim: bool, sensitive: string, insensitive: string)
    requires Scanning(e, i, s, t, verbatim, sensitive, insensitive) && i < |e|
    ensures var v := Verbatim(e[i], Previous(e, i), verbatim);
            var x, y := if v || Kept(e[i]) then e[i] else '_', if !v || Kept(e[i]) then e[i] else '_';
            Scanning(e, i + 1, s + [x], t + [y], v, sensitive[i := x], insensitive[i := y])
  {
    var v := Verbatim(e[i], Previous(e, i), verbatim);
    var x, y := if v || Kept(e[i]) then e[i] else '_', if !v || Kept(e[i]) then e[i] else '_';
    ScannedStep(e, i, s, t, verbatim);
    UpdateNext(s, e, i, x);
    UpdateNext(t, e, i, y);
  }

  lemma ScanningEnd(e: string, s: string, t: string, verbatim: bool, sensitive: string, insensitive: string)
    requires Scanning(e, |e|, s, t, verbatim, sensitive, insensitive)
    ensures sensitive == Sensitive(e, '\0', false) && insensitive == Insensitive(e, '\0', false)
  {
    ScannedEnd(e, s, t, verbatim);
    assert e[|e|..] == "" && s + "" == s && t + "" == t;
  }

  /** The scan over both buffers. */
  method Scan(sensitive: array<char>, insensitive: array<char>) returns (hasSensitive: bool)
    requires sensitive != insensitive && sensitive[..] == insensitive[..]
    modifies sensitive, insensitive
    ensures sensitive[..] == Sensitive(old(sensitive[..]), '\0', false)
    ensures insensitive[..] == Insensitive(old(sensitive[..]), '\0', false)
    ensures hasSensitive <==> '&' in old(sensitive[..])
  {
    ghost var e := sensitive[..];
    ghost var s, t := "", "";
    var verbatim, i := false, 0;
    hasSensitive := false;
    assert |sensitive[..]| == |insensitive[..]| && "" + e[0..] == e;
    ScannedStart(e);
    while i < sensitive.Length
      invariant 0 <= i <= sensitive.Length == insensitive.Length == |e|
      invariant Scanning(e, i, s, t, verbatim, sensitive[..], insensitive[..])
      invariant hasSensitive <==> AmpersandBefore(e, i)
    {
      ScanningAt(e, i, s, t, verbatim, sensitive[..], insensitive[..]);
      ScanningNext(e, i, s, t, verbatim, sensitive[..], insensitive[..]);
      AmpersandStep(e, i);
      if sensitive[i] == '&' {
        hasSensitive := true;
      }
      verbatim := ScanStep(sensitive, insensitive, i, verbatim, e);
      s := s + [if verbatim || Kept(e[i]) then e[i] else '_'];
      t := t + [if !verbatim || Kept(e[i]) then e[i] else '_'];
      i := i + 1;
    }
    ScanningEnd(e, s, t, verbatim, sensitive[..], insensitive[..]);
  }

  /** `mailbox_match_new`. */
  method BuildPatterns(name: string) returns (p: Patterns)
    requires forall i :: 0 <= i < |name| ==> name[i] != '\0'
    ensures p == PatternsOf(name)
  {
    var sensitive := Escape(name);
    var insensitive := Escape(name);
    var hasSensitive := Scan(sensitive, insensitive);
    p := Patterns(if hasSensitive then Some(sensitive[..]) else None, insensitive[..]);
  }
}
