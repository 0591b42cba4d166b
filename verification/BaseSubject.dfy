/**
 The base subject used for threading and sorting (`dm_base_subject`): tabs and
 runs of blanks collapse, then trailers, reply prefixes, bracketed blobs and
 forward wrappers are removed until nothing changes, and the rest is lower-cased.
 Strings are ASCII text; decoding of encoded words has already happened.
 */
module BaseSubject {

  const VT: char := 11 as char
  const FF: char := 12 as char

  // Characters.

  predicate AsciiSpace(c: char) {
    c == ' ' || c == '\t' || c == '\n' || c == '\r' || c == FF
  }

  predicate LocaleSpace(c: char) {
    AsciiSpace(c) || c == VT
  }

  function LowerChar(c: char): char {
    if 'A' <= c <= 'Z' then (c as int + 32) as char else c
  }

  function Lower(s: string): string {
    seq(|s|, i requires 0 <= i < |s| => LowerChar(s[i]))
  }

  /** `strncasecmp` with a lower-case literal. */
  predicate Starts(s: string, literal: string) {
    |s| >= |literal| && Lower(s[..|literal|]) == literal
  }

  // Blanks.

  function TrimLeft(s: string): string {
    if s != "" && AsciiSpace(s[0]) then TrimLeft(s[1..]) else s
  }

  function TrimRight(s: string): string {
    if s != "" && AsciiSpace(s[|s| - 1]) then TrimRight(s[..|s| - 1]) else s
  }

  /** `g_strstrip`. */
  function Trim(s: string): string {
    TrimLeft(TrimRight(s))
  }

  function Skip(s: string): string {
    if s != "" && LocaleSpace(s[0]) then Skip(s[1..]) else s
  }

  /** `pack_char`: a run of `c` becomes one. */
  function Pack(s: string, c: char): string {
    if s == "" then ""
    else if s[0] == c && |s| > 1 && s[1] == c then Pack(s[1..], c)
    else [s[0]] + Pack(s[1..], c)
  }

  function Untab(s: string): string {
    seq(|s|, i requires 0 <= i < |s| => if s[i] == '\t' then ' ' else s[i])
  }

  /** `dm_pack_spaces`. */
  function PackSpaces(s: string): string {
    Pack(Untab(s), ' ')
  }

  // Prefixes.

  /** Where the scan inside a blob stops. */
  function BlobEnd(s: string, i: nat): (j: nat)
    requires i <= |s|
    ensures i <= j <= |s|
    decreases |s| - i
  {
    if i < |s| && s[i] != ']' && s[i] != '[' then BlobEnd(s, i + 1) else i
  }

  /** `_strip_blob_prefix`: the blob goes only when text is left. */
  function Blob(s: string): string {
    if s == "" || s[0] != '[' then s
    else
      var j := BlobEnd(s, 1);
      if j == |s| || s[j] != ']' then s
      else
        var rest := Skip(s[j + 1..]);
        if rest == "" then s else rest
  }

  function HeadLength(s: string): nat {
    if Starts(s, "fwd") then 3 else 2
  }

  predicate HasHead(s: string) {
    Starts(s, "re") || Starts(s, "fw")
  }

  /** What a step leaves, and whether to go on. */
  datatype Stripped = Stripped(text: string, more: bool)

  /** `_strip_refwd`: the new text and whether to try again. */
  function RefWd(s: string): Stripped {
    if !HasHead(s) then Stripped(s, false)
    else
      var h := HeadLength(s);
      var t := Blob(Trim(s[h..]));
      if t == "" || t[0] != ':' then Stripped(s[..h] + t, false)
      else var u := Trim(t[1..]); Stripped(u, u != "")
  }

  lemma {:induction false} TrimLeftShrinks(s: string)
    ensures |TrimLeft(s)| <= |s|
    ensures TrimLeft(s) == s[|s| - |TrimLeft(s)|..]
  {
    if s != "" && AsciiSpace(s[0]) {
      TrimLeftShrinks(s[1..]);
    }
  }

  lemma {:induction false} TrimRightShrinks(s: string)
    ensures |TrimRight(s)| <= |s|
    ensures TrimRight(s) == s[..|TrimRight(s)|]
  {
    if s != "" && AsciiSpace(s[|s| - 1]) {
      TrimRightShrinks(s[..|s| - 1]);
    }
  }

  lemma {:induction false} SkipShrinks(s: string)
    ensures |Skip(s)| <= |s|
    ensures Skip(s) == s[|s| - |Skip(s)|..]
  {
    if s != "" && LocaleSpace(s[0]) {
      SkipShrinks(s[1..]);
    }
  }

  lemma TrimShrinks(s: string)
    ensures |Trim(s)| <= |s|
    ensures |Trim(s)| == |s| ==> Trim(s) == s
  {
    TrimRightShrinks(s);
    TrimLeftShrinks(TrimRight(s));
  }

  lemma BlobShrinks(s: string)
    ensures |Blob(s)| <= |s|
    ensures |Blob(s)| == |s| ==> Blob(s) == s
  {
    if s != "" && s[0] == '[' {
      var j := BlobEnd(s, 1);
      if j < |s| && s[j] == ']' {
        SkipShrinks(s[j + 1..]);
      }
    }
  }

  lemma RefWdShrinks(s: string)
    ensures |RefWd(s).text| <= |s|
    ensures |RefWd(s).text| == |s| ==> RefWd(s).text == s
    ensures RefWd(s).more ==> |RefWd(s).text| < |s|
  {
    if HasHead(s) {
      var h := HeadLength(s);
      var t0 := Trim(s[h..]);
      TrimShrinks(s[h..]);
      BlobShrinks(t0);
      var t := Blob(t0);
      if t == "" || t[0] != ':' {
        assert s == s[..h] + s[h..];
      } else {
        TrimShrinks(t[1..]);
      }
    }
  }

  // The nested loops.

  function BlobLoop(s: string): string
    decreases |s|
  {
    BlobShrinks(s);
    if |Blob(s)| == |s| then s else BlobLoop(Blob(s))
  }

  function RefLoop(s: string): string
    decreases |s|
  {
    RefWdShrinks(s);
    var Stripped(t, more) := RefWd(s);
    if more then RefLoop(t) else t
  }

  /** `_strip_sub_leader`. */
  function Leader(s: string): string {
    RefLoop(BlobLoop(s))
  }

  lemma {:induction false} BlobLoopShrinks(s: string)
    ensures |BlobLoop(s)| <= |s|
    ensures |BlobLoop(s)| == |s| ==> BlobLoop(s) == s
    decreases |s|
  {
    BlobShrinks(s);
    if |Blob(s)| != |s| {
      BlobLoopShrinks(Blob(s));
    }
  }

  lemma {:induction false} RefLoopShrinks(s: string)
    ensures |RefLoop(s)| <= |s|
    ensures |RefLoop(s)| == |s| ==> RefLoop(s) == s
    decreases |s|
  {
    RefWdShrinks(s);
    if RefWd(s).more {
      RefLoopShrinks(RefWd(s).text);
    }
  }

  /** Removing leaders shortens the text or leaves it alone. */
  lemma LeaderShrinks(s: string)
    ensures |Leader(s)| <= |s|
    ensures |Leader(s)| == |s| ==> Leader(s) == s
  {
    BlobLoopShrinks(s);
    RefLoopShrinks(BlobLoop(s));
  }

  function LeaderLoop(s: string): string
    decreases |s|
  {
    LeaderShrinks(s);
    if |Leader(s)| == |s| then s else LeaderLoop(Leader(s))
  }

  lemma {:induction false} LeaderLoopShrinks(s: string)
    ensures |LeaderLoop(s)| <= |s|
    ensures |LeaderLoop(s)| == |s| ==> LeaderLoop(s) == s
    ensures Leader(LeaderLoop(s)) == LeaderLoop(s)
    decreases |s|
  {
    LeaderShrinks(s);
    if |Leader(s)| != |s| {
      LeaderLoopShrinks(Leader(s));
    }
  }

  function Colons(s: string): string {
    if |s| > 1 && s[0] == ':' then Colons(s[1..]) else s
  }

  lemma {:induction false} ColonsShrinks(s: string)
    ensures |Colons(s)| <= |s|
    ensures |Colons(s)| == |s| ==> Colons(s) == s
  {
    if |s| > 1 && s[0] == ':' {
      ColonsShrinks(s[1..]);
    }
  }

  predicate Trailer(s: string) {
    |s| > 5 && Starts(s[|s| - 5..], "(fwd)")
  }

  predicate Wrapped(s: string) {
    s != "" && s[|s| - 1] == ']' && Starts(s, "[fwd:")
  }

  lemma WrappedLength(s: string)
    requires Wrapped(s)
    ensures |s| > 5
  {
    assert Lower(s[..5])[4] == ':' && s[..5][4] == s[4];
  }

  function Unwrapped(s: string): string
    requires Wrapped(s)
  {
    WrappedLength(s);
    s[5..|s| - 1]
  }

  /** What is left of a trimmed text once its leaders are gone, and whether to go on. */
  function Tail(l: string, size: nat): Stripped {
    if Wrapped(l) then Stripped(Trim(Unwrapped(l)), true)
    else Stripped(Colons(l), |Colons(l)| != size)
  }

  /** One pass of the main loop over a trimmed text. */
  function Turn(t: string): Stripped {
    if Trailer(t) then Stripped(Trim(t[..|t| - 5]), true) else Tail(LeaderLoop(t), |t|)
  }

  lemma TailShrinks(l: string, size: nat)
    requires |l| <= size
    ensures Tail(l, size).more ==> |Tail(l, size).text| < size
    ensures !Tail(l, size).more ==> !Wrapped(l) && Colons(l) == l && |l| == size
  {
    if Wrapped(l) {
      WrappedLength(l);
      TrimShrinks(Unwrapped(l));
    } else {
      ColonsShrinks(l);
    }
  }

  lemma TurnShrinks(t: string)
    ensures Turn(t).more ==> |Turn(t).text| < |t|
    ensures !Turn(t).more ==> Turn(t).text == t
  {
    if Trailer(t) {
      TrimShrinks(t[..|t| - 5]);
    } else {
      LeaderLoopShrinks(t);
      TailShrinks(LeaderLoop(t), |t|);
    }
  }

  /** The main loop of `dm_base_subject`. */
  function Normal(s: string): string
    decreases |s|
  {
    TrimShrinks(s);
    TurnShrinks(Trim(s));
    var Stripped(r, more) := Turn(Trim(s));
    if more then Normal(r) else r
  }

  /** `dm_base_subject`. */
  function Base(s: string): string {
    Lower(Normal(PackSpaces(s)))
  }

  // The code.

  /** `pack_char` works in place on a terminated buffer. */
  method PackChar(a: array<char>, n: nat, c: char) returns (x: nat)
    requires n < a.Length && a[n] == '\0' && c != '\0'
    requires forall i | 0 <= i < n :: a[i] != '\0'
    modifies a
    ensures x <= n && a[x] == '\0'
    ensures a[..x] == Pack(old(a[..n]), c)
  {
    ghost var s := a[..n];
    var i := 0;
    x := 0;
    assert s[0..] == s;
    while a[i] != '\0'
      invariant 0 <= x <= i <= n
      invariant forall k | i <= k < n :: a[k] == s[k]
      invariant a[n] == '\0'
      invariant a[..x] + Pack(s[i..], c) == Pack(s, c)
      decreases n - i
    {
      assert i < n;
      PackStep(s, i, c, a[..x]);
      if a[i] == c && a[i + 1] == c {
      } else {
        ghost var done := a[..x];
        a[x] := a[i];
        assert a[..x + 1] == done + [s[i]];
        x := x + 1;
      }
      i := i + 1;
    }
    assert s[i..] == "" && a[..x] + "" == a[..x];
    a[x] := '\0';
  }

  lemma PackStep(s: string, i: nat, c: char, done: string)
    requires i < |s| && done + Pack(s[i..], c) == Pack(s, c)
    ensures s[i] == c && i + 1 < |s| && s[i + 1] == c ==> done + Pack(s[i + 1..], c) == Pack(s, c)
    ensures !(s[i] == c && i + 1 < |s| && s[i + 1] == c) ==> (done + [s[i]]) + Pack(s[i + 1..], c) == Pack(s, c)
  {
    assert s[i..][0] == s[i] && s[i..][1..] == s[i + 1..];
    assert done + ([s[i]] + Pack(s[i + 1..], c)) == (done + [s[i]]) + Pack(s[i + 1..], c);
  }

  method StripBlobPrefix(subject: string) returns (r: string)
    ensures r == Blob(subject)
  {
    if subject == "" || subject[0] != '[' {
      return subject;
    }
    var tmp := 1;
    while tmp < |subject| && subject[tmp] != ']' && subject[tmp] != '['
      invariant 1 <= tmp <= |subject| && BlobEnd(subject, tmp) == BlobEnd(subject, 1)
    {
      tmp := tmp + 1;
    }
    if tmp == |subject| || subject[tmp] != ']' {
      return subject;
    }
    var rest := subject[tmp + 1..];
    while rest != "" && LocaleSpace(rest[0])
      invariant Skip(rest) == Skip(subject[tmp + 1..])
      decreases |rest|
    {
      rest := rest[1..];
    }
    r := if |rest| > 0 then rest else subject;
  }

  method StripSubLeader(subject: string) returns (r: string)
    ensures r == Leader(subject)
  {
    r := subject;
    while true
      invariant BlobLoop(r) == BlobLoop(subject)
      decreases |r|
    {
      var len := |r|;
      var next := StripBlobPrefix(r);
      BlobShrinks(r);
      if |next| == len { break; }
      r := next;
    }
    assert r == BlobLoop(subject);
    ghost var start := r;
    while true
      invariant RefLoop(r) == RefLoop(start)
      decreases |r|
    {
      RefWdShrinks(r);
      var Stripped(t, more) := RefWd(r);
      r := t;
      if !more { break; }
    }
  }

  method StripLeaders(subject: string) returns (r: string)
    ensures r == LeaderLoop(subject)
  {
    r := subject;
    while true
      invariant LeaderLoop(r) == LeaderLoop(subject)
      decreases |r|
    {
      var len := |r|;
      var next := StripSubLeader(r);
      LeaderShrinks(r);
      if |next| == len { break; }
      r := next;
    }
  }

  method StripColons(subject: string) returns (r: string)
    ensures r == Colons(subject)
  {
    r := subject;
    while |r| > 1 && r[0] == ':'
      invariant Colons(r) == Colons(subject)
    {
      r := r[1..];
    }
  }

  /** One pass of the main loop. */
  method Pass(t: string) returns (r: string, more: bool)
    ensures Stripped(r, more) == Turn(t)
  {
    if Trailer(t) {
      return Trim(t[..|t| - 5]), true;
    }
    r := StripLeaders(t);
    if Wrapped(r) {
      return Trim(Unwrapped(r)), true;
    }
    r := StripColons(r);
    more := |r| != |t|;
  }

  /** `dm_base_subject`, past the decoding: the loops end on every text. */
  method DmBaseSubject(subject: string) returns (r: string)
    ensures r == Base(subject)
  {
    r := PackSpaces(subject);
    ghost var packed := r;
    var more := true;
    while more
      invariant Normal(packed) == if more then Normal(r) else r
      decreases more, |r|
    {
      TrimShrinks(r);
      TurnShrinks(Trim(r));
      r, more := Pass(Trim(r));
    }
    r := Lower(r);
  }
}
