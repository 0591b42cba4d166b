/**
 Line endings on the wire: bare LF becomes CRLF and, for POP3, a dot at the start
 of a line is doubled (`get_crlf_encoded_opt`); sizes are computed separately
 (`imap_part_get_sizes`).
 */
module Crlf {
  import opened Basics

  const CR: char := '\r'
  const LF: char := '\n'

  function LineFeeds(s: string): nat {
    if s == "" then 0 else (if s[0] == LF then 1 else 0) + LineFeeds(s[1..])
  }

  function Last(s: string): char {
    if s == "" then '\0' else s[|s| - 1]
  }

  /** What is written for one character after its predecessor. */
  function Piece(c: char, prev: char, dots: bool): string {
    (if c == LF && prev != CR then [CR] else "") +
    (if dots && c == '.' && prev == LF then "." else "") + [c]
  }

  function Encoded(s: string, prev: char, dots: bool): string {
    if s == "" then "" else Piece(s[0], prev, dots) + Encoded(s[1..], s[0], dots)
  }

  /** The second pass starts with the last character of the first in `prev`. */
  function Encode(s: string, dots: bool): string {
    Encoded(s, Last(s), dots)
  }

  // The buffer is large enough.

  function One(b: bool): nat {
    if b then 1 else 0
  }

  /** Each LF costs at most one CR, and allows at most one dot after it. */
  lemma {:induction false} EncodedLength(s: string, prev: char, dots: bool)
    requires s != ""
    ensures |Encoded(s, prev, dots)| <= |s| + LineFeeds(s) + One(prev == LF) + LineFeeds(s) - One(Last(s) == LF)
  {
    if |s| == 1 {
      assert s[1..] == "" && Encoded(s[1..], s[0], dots) == "";
    } else {
      EncodedLength(s[1..], s[0], dots);
    }
  }

  lemma OutputFits(s: string, dots: bool)
    ensures |Encode(s, dots)| <= |s| + 2 * LineFeeds(s)
  {
    if s != "" {
      EncodedLength(s, Last(s), dots);
    }
  }

  // Encoding twice.

  lemma {:induction false} LastEncoded(s: string, prev: char, dots: bool)
    requires s != ""
    ensures Encoded(s, prev, dots) != "" && Last(Encoded(s, prev, dots)) == Last(s)
  {
    if |s| == 1 {
      assert s[1..] == "" && Encoded(s[1..], s[0], dots) == "";
    } else {
      LastEncoded(s[1..], s[0], dots);
    }
  }

  lemma EncodedFirst(c: char, prev: char, rest: string)
    requires !(c == LF && prev != CR)
    ensures Encoded([c] + rest, prev, false) == [c] + Encoded(rest, c, false)
  {
    assert ([c] + rest)[0] == c && ([c] + rest)[1..] == rest;
  }

  lemma EncodedPiece(c: char, prev: char, rest: string)
    ensures Encoded(Piece(c, prev, false) + rest, prev, false) == Piece(c, prev, false) + Encoded(rest, c, false)
  {
    if c == LF && prev != CR {
      assert Piece(c, prev, false) + rest == [CR] + ([LF] + rest);
      EncodedFirst(CR, prev, [LF] + rest);
      EncodedFirst(LF, CR, rest);
      assert [CR] + ([LF] + Encoded(rest, LF, false)) == Piece(c, prev, false) + Encoded(rest, LF, false);
    } else {
      EncodedFirst(c, prev, rest);
    }
  }

  lemma {:induction false} EncodedTwice(s: string, prev: char)
    ensures Encoded(Encoded(s, prev, false), prev, false) == Encoded(s, prev, false)
  {
    if s != "" {
      EncodedTwice(s[1..], s[0]);
      EncodedPiece(s[0], prev, Encoded(s[1..], s[0], false));
    }
  }

  /** Encoding line ends is idempotent. */
  lemma EncodeIdempotent(s: string)
    ensures Encode(Encode(s, false), false) == Encode(s, false)
  {
    if s != "" {
      LastEncoded(s, Last(s), false);
      EncodedTwice(s, Last(s));
    }
  }

  // Nothing but line ends changes.

  /** The text with bare LFs for line ends. */
  function Bare(s: string): string {
    if s == "" then ""
    else if s[0] == CR && |s| > 1 && s[1] == LF then Bare(s[1..])
    else [s[0]] + Bare(s[1..])
  }

  lemma BareFirst(c: char, rest: string)
    ensures Bare([c] + rest) == if c == CR && rest != "" && rest[0] == LF then Bare(rest) else [c] + Bare(rest)
  {
    assert ([c] + rest)[1..] == rest;
  }

  lemma EncodedHead(s: string, prev: char)
    requires s != ""
    ensures Encoded(s, prev, false) != ""
    ensures Encoded(s, prev, false)[0] == if s[0] == LF && prev != CR then CR else s[0]
  {
  }

  lemma BarePiece(s: string, prev: char)
    requires s != ""
    ensures var rest := Encoded(s[1..], s[0], false);
            Bare(Encoded(s, prev, false)) == if s[0] == CR && rest != "" && rest[0] == LF then Bare(rest)
                                             else [s[0]] + Bare(rest)
  {
    var rest := Encoded(s[1..], s[0], false);
    if s[0] == LF && prev != CR {
      assert Encoded(s, prev, false) == [CR] + ([LF] + rest);
      BareFirst(CR, [LF] + rest);
    }
    BareFirst(s[0], rest);
  }

  lemma {:induction false} BareEncoded(s: string, prev: char)
    ensures Bare(Encoded(s, prev, false)) == Bare(s)
  {
    if s != "" {
      BareEncoded(s[1..], s[0]);
      BarePiece(s, prev);
      if |s| > 1 {
        EncodedHead(s[1..], s[0]);
      }
    }
  }

  /** Up to line ends the encoding is the text. */
  lemma ContentKept(s: string)
    ensures Bare(Encode(s, false)) == Bare(s)
  {
    BareEncoded(s, Last(s));
  }

  /** Every LF comes right after a CR, given what stands before the text. */
  predicate CrBeforeLf(out: string, prev: char) {
    forall k :: 0 <= k < |out| && out[k] == LF ==> Before(out, k, prev) == CR
  }

  function Before(out: string, k: nat, prev: char): char
    requires k < |out|
  {
    if k == 0 then prev else out[k - 1]
  }

  lemma CrBeforeFirst(c: char, rest: string, prev: char)
    requires (c == LF ==> prev == CR) && CrBeforeLf(rest, c)
    ensures CrBeforeLf([c] + rest, prev)
  {
    var out := [c] + rest;
    forall k | 0 <= k < |out| && out[k] == LF
      ensures Before(out, k, prev) == CR
    {
      if k > 0 {
        assert rest[k - 1] == LF && Before(rest, k - 1, c) == CR;
      }
    }
  }

  lemma {:induction false} EncodedLines(s: string, prev: char)
    ensures CrBeforeLf(Encoded(s, prev, false), prev)
  {
    if s != "" {
      var rest := Encoded(s[1..], s[0], false);
      EncodedLines(s[1..], s[0]);
      if s[0] == LF && prev != CR {
        CrBeforeFirst(LF, rest, CR);
        CrBeforeFirst(CR, [LF] + rest, prev);
        assert Encoded(s, prev, false) == [CR] + ([LF] + rest);
      } else {
        CrBeforeFirst(s[0], rest, prev);
      }
    }
  }

  /** Every LF of the output has its CR, unless the text starts with LF and ends with CR. */
  lemma LinesExactly(s: string)
    ensures CrBeforeLf(Encode(s, false), '\0') <==> !(s != "" && s[0] == LF && Last(s) == CR)
  {
    var out := Encode(s, false);
    EncodedLines(s, Last(s));
    if s != "" {
      EncodedHead(s, Last(s));
      if s[0] == LF && Last(s) == CR {
        assert out[0] == LF && Before(out, 0, '\0') != CR;
      } else {
        assert forall k :: 0 < k < |out| ==> Before(out, k, '\0') == Before(out, k, Last(s));
      }
    }
  }

  // Dots.

  /** A dot right after LF is always followed by another dot. */
  predicate Stuffed(out: string, prev: char) {
    out != "" ==>
      if prev == LF && out[0] == '.'
      then |out| > 1 && out[1] == '.' && Stuffed(out[2..], '.')
      else Stuffed(out[1..], out[0])
  }

  lemma {:induction false} EncodedStuffed(s: string, prev: char)
    ensures Stuffed(Encoded(s, prev, true), prev)
  {
    if s != "" {
      EncodedStuffed(s[1..], s[0]);
      StuffedPiece(s[0], prev, Encoded(s[1..], s[0], true));
    }
  }

  lemma StuffedPiece(c: char, prev: char, rest: string)
    requires Stuffed(rest, c)
    ensures Stuffed(Piece(c, prev, true) + rest, prev)
  {
    var out := Piece(c, prev, true) + rest;
    if c == LF && prev != CR {
      assert out[0] == CR && out[1..] == [LF] + rest;
      assert ([LF] + rest)[1..] == rest;
      assert Stuffed([LF] + rest, CR);
    } else if c == '.' && prev == LF {
      assert out[0] == '.' && out[1] == '.' && out[2..] == rest;
    } else {
      assert out[0] == c && out[1..] == rest;
    }
  }

  predicate EndMarkAt(out: string, k: nat) {
    k + 3 < |out| && out[k] == LF && out[k + 1] == '.' && out[k + 2] == CR && out[k + 3] == LF
  }

  lemma {:induction false} StuffedNoMark(out: string, prev: char, k: nat)
    requires Stuffed(out, prev)
    ensures !EndMarkAt(out, k)
  {
    if out != "" {
      if prev == LF && out[0] == '.' {
        if k >= 2 {
          StuffedNoMark(out[2..], '.', k - 2);
        }
      } else if k >= 1 {
        StuffedNoMark(out[1..], out[0], k - 1);
      } else if out[0] == LF && |out| > 1 && out[1] == '.' {
        assert out[1..][0] == '.';
      }
    }
  }

  /** The dotted text never contains the end-of-message mark (section 3 of RFC 1939). */
  lemma NoEndMark(s: string, k: nat)
    ensures !EndMarkAt(Encode(s, true), k)
  {
    EncodedStuffed(s, Last(s));
    StuffedNoMark(Encode(s, true), Last(s), k);
  }

  /** The receiver drops one dot at the start of a line. */
  function Unstuffed(out: string, prev: char): string {
    if out == "" then ""
    else if prev == LF && out[0] == '.' then
      if |out| == 1 then "" else [out[1]] + Unstuffed(out[2..], out[1])
    else [out[0]] + Unstuffed(out[1..], out[0])
  }

  lemma UnstuffedPiece(c: char, prev: char, q: char, rest: string)
    requires c == '.' ==> (prev == LF <==> q == LF)
    ensures Unstuffed(Piece(c, prev, true) + rest, q) == Piece(c, prev, false) + Unstuffed(rest, c)
  {
    var out := Piece(c, prev, true) + rest;
    if c == LF && prev != CR {
      assert out[0] == CR && out[1..] == [LF] + rest;
      assert ([LF] + rest)[0] == LF && ([LF] + rest)[1..] == rest;
      assert Unstuffed([LF] + rest, CR) == [LF] + Unstuffed(rest, LF);
      assert Unstuffed(out, q) == [CR] + ([LF] + Unstuffed(rest, LF));
    } else if c == '.' && prev == LF {
      assert out[0] == '.' && out[1] == '.' && out[2..] == rest;
    } else {
      assert out[0] == c && out[1..] == rest;
    }
  }

  lemma {:induction false} UnstuffedEncoded(s: string, prev: char, q: char)
    requires s != "" && s[0] == '.' ==> (prev == LF <==> q == LF)
    ensures Unstuffed(Encoded(s, prev, true), q) == Encoded(s, prev, false)
  {
    if s != "" {
      UnstuffedEncoded(s[1..], s[0], s[0]);
      UnstuffedPiece(s[0], prev, q, Encoded(s[1..], s[0], true));
    }
  }

  /**
   The receiver, who starts at the beginning of a line, gets the text back exactly
   unless it starts with a dot and does not end with LF.
   */
  lemma DotsUndone(s: string)
    ensures Unstuffed(Encode(s, true), LF) == Encode(s, false) <==> !(s != "" && s[0] == '.' && Last(s) != LF)
  {
    if s != "" && s[0] == '.' && Last(s) != LF {
      var rest := Encoded(s[1..], '.', true);
      assert Encode(s, true) == ['.'] + rest;
      assert Encode(s, false) == ['.'] + Encoded(s[1..], '.', false);
      UnstuffedEncoded(s[1..], '.', '.');
      DotLost(rest);
    } else {
      UnstuffedEncoded(s, Last(s), LF);
    }
  }

  /** A lone dot at the start is taken for a stuffed one. */
  lemma DotLost(rest: string)
    ensures Unstuffed(['.'] + rest, LF) == Unstuffed(rest, '.')
  {
    var out := ['.'] + rest;
    if rest != "" {
      assert out[1] == rest[0] && out[2..] == rest[1..];
    }
  }

  // Sizes.

  /** The size that `imap_part_get_sizes` announces. */
  function Announced(s: string, prev: char): nat {
    if s == "" then 0 else 1 + One(s[0] == LF && prev != CR) + Announced(s[1..], s[0])
  }

  lemma {:induction false} AnnouncedIsLength(s: string, prev: char)
    ensures |Encoded(s, prev, false)| == Announced(s, prev)
  {
    if s != "" {
      AnnouncedIsLength(s[1..], s[0]);
    }
  }

  /** The announced size is the encoded length unless the text starts with LF and ends with CR. */
  lemma SizeExactly(s: string)
    ensures |Encode(s, false)| == Announced(s, '\0') <==> !(s != "" && s[0] == LF && Last(s) == CR)
  {
    AnnouncedIsLength(s, Last(s));
  }

  // The loops.

  method CountLineFeeds(s: string) returns (nl: nat, last: char)
    ensures nl == LineFeeds(s) && last == Last(s)
  {
    nl, last := 0, '\0';
    var i := 0;
    assert s[0..] == s;
    while i < |s|
      invariant 0 <= i <= |s|
      invariant nl + LineFeeds(s[i..]) == LineFeeds(s)
      invariant last == if i == 0 then '\0' else s[i - 1]
    {
      assert s[i..][1..] == s[i + 1..];
      if s[i] == LF {
        nl := nl + 1;
      }
      last := s[i];
      i := i + 1;
    }
  }

  /** The body of the second pass. */
  method PutPiece(out: array<char>, from: nat, curr: char, prev: char, dots: bool) returns (t: nat)
    requires from + |Piece(curr, prev, dots)| <= out.Length
    modifies out
    ensures t == from + |Piece(curr, prev, dots)|
    ensures out[..t] == old(out[..from]) + Piece(curr, prev, dots)
  {
    t := from;
    if curr == LF && prev != CR {
      out[t] := CR;
      t := t + 1;
    }
    if dots && curr == '.' && prev == LF {
      out[t] := '.';
      t := t + 1;
    }
    out[t] := curr;
    t := t + 1;
  }

  /** `get_crlf_encoded_opt`: the output never exceeds the buffer, terminator included. */
  method EncodeBuffer(s: string, dots: bool) returns (out: array<char>, t: nat)
    ensures fresh(out) && out.Length == |s| + 2 * LineFeeds(s) + 1
    ensures t < out.Length && out[..t] == Encode(s, dots)
  {
    var nl, prev := CountLineFeeds(s);
    out := new char[|s| + 2 * nl + 1](_ => '\0');
    t := 0;
    var i := 0;
    OutputFits(s, dots);
    assert s[0..] == s;
    ghost var written := "";
    while i < |s|
      invariant 0 <= i <= |s| && t < out.Length
      invariant out[..t] == written
      invariant written + Encoded(s[i..], prev, dots) == Encode(s, dots)
      invariant fresh(out)
    {
      PieceStep(s, i, prev, dots, written);
      var curr := s[i];
      t := PutPiece(out, t, curr, prev, dots);
      written := written + Piece(curr, prev, dots);
      prev := curr;
      i := i + 1;
    }
    assert written + "" == written;
  }

  lemma PieceStep(s: string, i: nat, prev: char, dots: bool, written: string)
    requires i < |s| && written + Encoded(s[i..], prev, dots) == Encode(s, dots)
    ensures (written + Piece(s[i], prev, dots)) + Encoded(s[i + 1..], s[i], dots) == Encode(s, dots)
    ensures |written| + |Piece(s[i], prev, dots)| <= |Encode(s, dots)|
  {
    assert s[i..][0] == s[i] && s[i..][1..] == s[i + 1..];
    Assoc(written, Piece(s[i], prev, dots), Encoded(s[i + 1..], s[i], dots));
  }

  /** `imap_part_get_sizes`. */
  method GetSizes(v: string) returns (size: nat, lines: nat)
    ensures size == Announced(v, '\0') && lines == 1 + LineFeeds(v)
  {
    size, lines := |v|, 1;
    var prev, i := '\0', 0;
    assert v[0..] == v;
    while i < |v|
      invariant 0 <= i <= |v|
      invariant size - (|v| - i) + Announced(v[i..], prev) == Announced(v, '\0')
      invariant lines + LineFeeds(v[i..]) == 1 + LineFeeds(v)
    {
      assert v[i..][0] == v[i] && v[i..][1..] == v[i + 1..];
      if v[i] == LF {
        lines := lines + 1;
      }
      if v[i] == LF && prev != CR {
        size := size + 1;
      }
      prev := v[i];
      i := i + 1;
    }
  }
}
