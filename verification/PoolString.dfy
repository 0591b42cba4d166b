/**
 Pool strings (`dm_string.c`): a resizable, terminated character buffer that is
 appended to, cut and unescaped in place, refining plain sequences.
 */
module PoolString {

  const STRLEN: nat := 255

  // Backslash escapes.

  predicate Special(c: char) {
    c == '"' || c == '\\'
  }

  function Escaped(t: string): string {
    if t == "" then ""
    else (if t[0] == '"' || t[0] == '\\' then ['\\', t[0]] else [t[0]]) + Escaped(t[1..])
  }

  /** The scan of `p_string_unescape`; `literal` holds right after a dropped backslash. */
  function Unescaped(s: string, literal: bool): string {
    if s == "" then ""
    else if !literal && |s| > 1 && s[0] == '\\' && Special(s[1]) then Unescaped(s[1..], true)
    else [s[0]] + Unescaped(s[1..], false)
  }

  lemma {:induction false} UnescapeUndoesEscape(t: string)
    ensures Unescaped(Escaped(t), false) == t
  {
    if t != "" {
      var rest := Escaped(t[1..]);
      UnescapeUndoesEscape(t[1..]);
      assert t == [t[0]] + t[1..];
      if Special(t[0]) {
        var s := ['\\', t[0]] + rest;
        assert Escaped(t) == s && s[1..] == [t[0]] + rest;
        assert ([t[0]] + rest)[0] == t[0] && ([t[0]] + rest)[1..] == rest;
      } else {
        assert ([t[0]] + rest)[0] == t[0] && ([t[0]] + rest)[1..] == rest;
      }
    }
  }

  predicate PairAt(s: string, i: nat) {
    i + 1 < |s| && s[i] == '\\' && (s[i + 1] == '"' || s[i + 1] == '\\')
  }

  /** Only text with an escape pair changes, and it always gets shorter. */
  lemma {:induction false} UnescapeChanges(s: string)
    ensures |Unescaped(s, false)| <= |s|
    ensures Unescaped(s, false) == s <==> forall i: nat :: !PairAt(s, i)
    ensures Unescaped(s, false) != s ==> |Unescaped(s, false)| < |s|
  {
    if s != "" {
      if PairAt(s, 0) {
        assert s[1..][1..] == s[2..];
        UnescapeChanges(s[2..]);
      } else {
        UnescapeChanges(s[1..]);
        assert s == [s[0]] + s[1..];
        forall i: nat ensures PairAt(s[1..], i) == PairAt(s, i + 1) {
        }
        if exists i: nat :: PairAt(s, i) {
          var i: nat :| PairAt(s, i);
          assert PairAt(s[1..], i - 1);
        }
      }
    }
  }

  predicate NulFree(s: string) {
    forall i | 0 <= i < |s| :: s[i] != '\0'
  }

  class PString {
    var str: array<char>
    var len: nat
    var used: nat

    ghost predicate Valid()
      reads this, str
    {
      str.Length == len + 1 && used <= len && str[used] == '\0'
    }

    ghost function Text(): string
      requires Valid()
      reads this, str
    {
      str[..used]
    }

    constructor (s: string)
      ensures Valid() && fresh(str) && Text() == s && len == |s|
    {
      str := new char[|s| + 1](i requires 0 <= i <= |s| => if i < |s| then s[i] else '\0');
      len, used := |s|, |s|;
    }

    /** `mempool_resize` keeps the old bytes. */
    method Resize(size: nat)
      requires str.Length == len + 1 && used <= len && len <= size
      modifies this
      ensures fresh(str) && str.Length == size + 1 && len == size && used == old(used)
      ensures str[..used] == old(str[..used])
      ensures str[used] == old(str[used])
    {
      var was := str;
      var now := new char[size + 1](i requires 0 <= i <= size reads was => if i < was.Length then was[i] else '\0');
      str := now;
      len := size;
    }

    /** `vsnprintf` at the end of the text, cut to the room there is. */
    method Format(f: string)
      requires str.Length == len + 1 && used <= len
      modifies str
      ensures str[..used] == old(str[..used])
      ensures used + |f| < len ==> str[used..used + |f|] == f && str[used + |f|] == '\0'
    {
      var room := len - used;
      if room > 0 {
        var n := if |f| < room then |f| else room - 1;
        forall i | 0 <= i < n {
          str[used + i] := f[i];
        }
        str[used + n] := '\0';
      }
    }

    /** `append`: at most two formats, and the second always fits. */
    method Append(f: string) returns (formats: nat)
      requires Valid()
      modifies this, str
      ensures Valid() && Text() == old(Text()) + f
      ensures str == old(str) || fresh(str)
      ensures formats == if old(used) + |f| < old(len) then 1 else 2
    {
      formats := 1;
      Format(f);
      if used + |f| >= len {
        Resize(len + STRLEN + |f|);
        formats := 2;
        Format(f);
      }
      assert str[..used + |f|] == str[..used] + str[used..used + |f|];
      used := used + |f|;
    }

    method AppendLen(s: string)
      requires Valid()
      modifies this, str
      ensures Valid() && Text() == old(Text()) + s
      ensures str == old(str) || fresh(str)
    {
      if used + |s| > len {
        Resize(len + |s|);
      }
      forall i | 0 <= i < |s| {
        str[used + i] := s[i];
      }
      assert str[..used + |s|] == str[..used] + str[used..used + |s|];
      used := used + |s|;
      str[used] := '\0';
    }

    /** `p_string_erase`: a negative length erases to the end. */
    method Erase(pos: nat, length: int)
      requires Valid() && pos <= used && (length >= 0 ==> pos + length <= used)
      modifies this, str
      ensures Valid() && str == old(str)
      ensures Text() == old(Text())[..pos] + if length < 0 then "" else old(Text())[pos + length..]
    {
      ghost var text := Text();
      var cut := if length < 0 then used - pos else length;
      if length >= 0 && pos + length < used {
        forall i | pos <= i < used - length {
          str[i] := str[i + length];
        }
      }
      used := used - cut;
      str[used] := '\0';
      assert str[..used] == text[..pos] + text[pos + cut..];
    }

    method Truncate(l: nat)
      requires Valid()
      modifies this, str
      ensures Valid() && str == old(str)
      ensures Text() == if l >= old(used) then old(Text()) else old(Text())[..l]
    {
      if l < used {
        str[l] := '\0';
        used := l;
      }
    }

    /** `p_string_unescape`: two cursors over one buffer. */
    method Unescape()
      requires Valid() && NulFree(Text())
      modifies this, str
      ensures Valid() && str == old(str)
      ensures Text() == Unescaped(old(Text()), false)
    {
      ghost var s := Text();
      var n := used;
      var head, here, found := 0, 0, false;
      ghost var done := "";
      assert s[0..] == s;
      while str[here] != '\0'
        invariant 0 <= head <= here <= n <= len && str == old(str) && str.Length == len + 1 && len == old(len)
        invariant used == head + (n - here)
        invariant str[n] == '\0' && forall k | here <= k < n :: str[k] == s[k]
        invariant found ==> here < n
        invariant str[..head] == done && done + Unescaped(s[here..], found) == Unescaped(s, false)
        decreases n - here
      {
        assert here < n;
        UnescapeStep(s, here, found, done);
        if !found && str[here + 1] != '\0' && str[here] == '\\' && Special(str[here + 1]) {
          found := true;
          used := used - 1;
          here := here + 1;
        } else {
          found := false;
          str[head] := str[here];
          done := done + [s[here]];
          head, here := head + 1, here + 1;
        }
      }
      assert s[here..] == "" && done + "" == done;
      str[head] := '\0';
    }
  }

  lemma UnescapeStep(s: string, i: nat, found: bool, done: string)
    requires i < |s| && done + Unescaped(s[i..], found) == Unescaped(s, false)
    ensures !found && PairAt(s, i) ==> done + Unescaped(s[i + 1..], true) == Unescaped(s, false)
    ensures found || !PairAt(s, i) ==> (done + [s[i]]) + Unescaped(s[i + 1..], false) == Unescaped(s, false)
  {
    assert s[i..][0] == s[i] && s[i..][1..] == s[i + 1..];
    if found || !PairAt(s, i) {
      assert done + ([s[i]] + Unescaped(s[i + 1..], false)) == (done + [s[i]]) + Unescaped(s[i + 1..], false);
    }
  }
}
