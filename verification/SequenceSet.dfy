/**
 Sequence sets: the text of a set is cut into ranges, and each range is collected
 from the UID or MSN tree of the mailbox view (`MailboxState_get_set`).
 */
module SequenceSet {
  import opened Basics
  import opened SortedSets
  import opened MailboxView
  import Trees = GTreeMerge

  const INT64_MAX: nat := 0x7fff_ffff_ffff_ffff
  const OUTLOOK_STAR: nat := 0xffff_ffff

  // Numbers (`dm_strtoull` on text without blanks and signs).

  predicate IsDigit(c: char) {
    '0' <= c <= '9'
  }

  function DigitPrefix(s: string): nat {
    if s == "" || !IsDigit(s[0]) then 0 else 1 + DigitPrefix(s[1..])
  }

  lemma DigitPrefixBound(s: string)
    ensures DigitPrefix(s) <= |s|
  {
  }

  function Value(digits: string): nat {
    if digits == "" then 0 else
    var last := digits[|digits| - 1];
    10 * Value(digits[..|digits| - 1]) + if IsDigit(last) then (last - '0') as nat else 0
  }

  /** The number at the front, 0 if there is none or it does not fit in 63 bits. */
  function Number(s: string): nat {
    DigitPrefixBound(s);
    var n := Value(s[..DigitPrefix(s)]);
    if n > INT64_MAX then 0 else n
  }

  function AfterNumber(s: string): string {
    DigitPrefixBound(s);
    s[DigitPrefix(s)..]
  }

  // One segment between commas.

  datatype Segment = Stop | Bad | Range(l: nat, r: nat)

  function OrTop(n: nat, top: nat): nat {
    if n == OUTLOOK_STAR then top else n
  }

  /** The right end, after the left end has been read and `rest` remains. */
  function RightEnd(l: nat, rest: string, top: nat): Segment {
    if rest == "" || rest[0] != ':' then
      if l == 0 then Stop else Range(l, l)
    else
      var tail := if |rest| > 1 then rest[1..] else rest;
      if tail[0] == '*' then
        if l == 0 || top == 0 then Stop else Range(l, top)
      else
        var n := Number(tail);
        if n == 0 then Bad
        else if l == 0 || OrTop(n, top) == 0 then Stop else Range(l, OrTop(n, top))
  }

  function ParseSegment(s: string, top: nat, uid: bool): Segment {
    if s == "" then Stop
    else if s[0] == '*' then RightEnd(top, if |s| > 1 then s[1..] else s, top)
    else
      var n := Number(s);
      if n == 0 then Bad
      else RightEnd(if uid then OrTop(n, top) else Max(OrTop(n, top), 1), AfterNumber(s), top)
  }

  // Splitting at commas (`g_strsplit`).

  function CommaIndex(s: string): nat {
    if s == "" || s[0] == ',' then 0 else 1 + CommaIndex(s[1..])
  }

  lemma CommaIndexBound(s: string)
    ensures CommaIndex(s) <= |s|
    ensures CommaIndex(s) < |s| ==> s[CommaIndex(s)] == ','
  {
  }

  function SplitRest(s: string): seq<string>
    decreases |s|
  {
    CommaIndexBound(s);
    var i := CommaIndex(s);
    if i == |s| then [s] else [s[..i]] + SplitRest(s[i + 1..])
  }

  function Split(s: string): seq<string> {
    if s == "" then [] else SplitRest(s)
  }

  // The result.

  /** The number by which the set selects a message. */
  function Selector(v: View, uid: bool, u: nat): nat
    requires u in v.ids
  {
    if uid then u else v.ids[u]
  }

  /** The messages of a range, as UID to MSN pairs. */
  function RangeTree(v: View, l: nat, r: nat, uid: bool): map<nat, nat> {
    map u | u in v.ids && Min(l, r) <= Selector(v, uid, u) <= Max(l, r) :: v.ids[u]
  }

  /** What the segments collect on a non-empty mailbox; `None` is an error. */
  function Collect(v: View, segments: seq<string>, top: nat, uid: bool, found: map<nat, nat>): Option<map<nat, nat>> {
    if segments == [] then Some(found) else
    match ParseSegment(segments[0], top, uid)
    case Stop => Some(found)
    case Bad => None
    case Range(l, r) => Collect(v, segments[1..], top, uid, Trees.Merged(found, RangeTree(v, l, r, uid), Trees.Or))
  }

  /** What `*` stands for. */
  ghost function Top(v: View, uid: bool): nat {
    if uid then (if v.ids == map[] then 0 else Order(v)[|v.ids| - 1]) else Exists(v)
  }

  /** On an empty mailbox a segment is only checked. */
  predicate EmptySegmentOk(s: string)
    requires s != ""
  {
    s[0] == '*' ||
    (Number(s) != 0 &&
     var rest := AfterNumber(s);
     rest == "" || (rest[0] == ':' && ((|rest| > 1 && rest[1] == '*') || Number(rest[1..]) != 0)))
  }

  function CollectEmpty(segments: seq<string>, uidnext: nat, found: map<nat, nat>): Option<map<nat, nat>> {
    if segments == [] || segments[0] == "" then Some(found)
    else if !EmptySegmentOk(segments[0]) then None
    else CollectEmpty(segments[1..], uidnext, found[1 := uidnext])
  }

  ghost function GetSet(v: View, text: string, uid: bool): Option<map<nat, nat>> {
    if v.ids == map[] then CollectEmpty(Split(text), v.uidnext, map[])
    else Collect(v, Split(text), Top(v, uid), uid, map[])
  }

  // Well-formed sets (`sequence-set` in section 9 of RFC 3501).

  datatype Num = Star | N(value: nat)

  datatype Item = One(a: Num) | Span(a: Num, b: Num)

  predicate NumOk(n: Num) {
    n.N? ==> 1 <= n.value <= INT64_MAX
  }

  predicate ItemOk(item: Item) {
    NumOk(item.a) && (item.Span? ==> NumOk(item.b))
  }

  predicate AllOk(items: seq<Item>) {
    forall i :: 0 <= i < |items| ==> ItemOk(items[i])
  }

  function Digit(n: nat): char
    requires n < 10
  {
    '0' + n as char
  }

  function Decimal(n: nat): string {
    if n < 10 then [Digit(n)] else Decimal(n / 10) + [Digit(n % 10)]
  }

  function NumText(n: Num): string {
    if n.Star? then "*" else Decimal(n.value)
  }

  function ItemText(item: Item): string {
    if item.One? then NumText(item.a) else NumText(item.a) + (":" + NumText(item.b))
  }

  function SetText(items: seq<Item>): string {
    if items == [] then "" else
    if |items| == 1 then ItemText(items[0]) else ItemText(items[0]) + ("," + SetText(items[1..]))
  }

  /** `*`, and the 32-bit maximum that some clients send for it, name the top message. */
  function NumValue(n: Num, top: nat): nat {
    if n.Star? || n.value == 0xffff_ffff then top else n.value
  }

  predicate InItem(item: Item, x: nat, top: nat) {
    match item
    case One(a) => x == NumValue(a, top)
    case Span(a, b) => Min(NumValue(a, top), NumValue(b, top)) <= x <= Max(NumValue(a, top), NumValue(b, top))
  }

  /** Membership in the union of the ranges; the ends of a range come in any order. */
  predicate InSet(items: seq<Item>, x: nat, top: nat) {
    exists i :: 0 <= i < |items| && InItem(items[i], x, top)
  }

  // Reading back what was written.

  predicate AllDigits(s: string) {
    forall i :: 0 <= i < |s| ==> IsDigit(s[i])
  }

  lemma {:induction false} DecimalReads(n: nat)
    ensures Decimal(n) != "" && AllDigits(Decimal(n)) && Value(Decimal(n)) == n
  {
    if n < 10 {
      var d := Decimal(n);
      assert d[..0] == "" && Value(d[..0]) == 0;
    } else {
      DecimalReads(n / 10);
      var d := Decimal(n);
      assert d[..|d| - 1] == Decimal(n / 10);
    }
  }

  lemma {:induction false} PrefixIsDigits(digits: string, rest: string)
    requires AllDigits(digits) && (rest == "" || !IsDigit(rest[0]))
    ensures DigitPrefix(digits + rest) == |digits|
  {
    if digits == "" {
      assert digits + rest == rest;
    } else {
      assert (digits + rest)[1..] == digits[1..] + rest;
      PrefixIsDigits(digits[1..], rest);
    }
  }

  lemma NumberReads(n: nat, rest: string)
    requires 1 <= n <= INT64_MAX && (rest == "" || !IsDigit(rest[0]))
    ensures var s := Decimal(n) + rest;
            s != "" && IsDigit(s[0]) && Number(s) == n && AfterNumber(s) == rest
  {
    DecimalReads(n);
    PrefixIsDigits(Decimal(n), rest);
    var s := Decimal(n) + rest;
    assert s[..|Decimal(n)|] == Decimal(n) && s[|Decimal(n)|..] == rest;
  }

  lemma RightEndReads(l: nat, b: Num, top: nat)
    requires l > 0 && top > 0 && NumOk(b)
    ensures RightEnd(l, ":" + NumText(b), top) == Range(l, NumValue(b, top))
  {
    var rest := ":" + NumText(b);
    if b.N? {
      NumberReads(b.value, "");
      assert Decimal(b.value) + "" == Decimal(b.value);
    }
    assert rest[1..] == NumText(b);
  }

  lemma SegmentReads(item: Item, top: nat, uid: bool)
    requires ItemOk(item) && top > 0
    ensures ParseSegment(ItemText(item), top, uid) ==
            Range(NumValue(item.a, top), if item.One? then NumValue(item.a, top) else NumValue(item.b, top))
  {
    if item.Span? {
      LeftEndReads(item.a, ":" + NumText(item.b), top, uid);
      RightEndReads(NumValue(item.a, top), item.b, top);
    } else {
      assert NumText(item.a) + "" == NumText(item.a);
      LeftEndReads(item.a, "", top, uid);
    }
  }

  lemma LeftEndReads(a: Num, rest: string, top: nat, uid: bool)
    requires NumOk(a) && top > 0 && (rest == "" || rest[0] == ':')
    ensures ParseSegment(NumText(a) + rest, top, uid) ==
            RightEnd(NumValue(a, top), if a.Star? && rest == "" then "*" else rest, top)
  {
    var s := NumText(a) + rest;
    if a.N? {
      NumberReads(a.value, rest);
    } else {
      assert s[1..] == rest;
      assert rest == "" ==> s == "*";
    }
  }

  predicate NoComma(s: string) {
    forall i :: 0 <= i < |s| ==> s[i] != ','
  }

  lemma ItemNoComma(item: Item)
    ensures NoComma(ItemText(item)) && ItemText(item) != ""
  {
    if item.a.N? { DecimalReads(item.a.value); }
    if item.Span? && item.b.N? { DecimalReads(item.b.value); }
  }

  lemma {:induction false} CommaAfter(p: string, q: string)
    requires NoComma(p) && (q == "" || q[0] == ',')
    ensures CommaIndex(p + q) == |p|
  {
    if p == "" {
      assert p + q == q;
    } else {
      assert (p + q)[1..] == p[1..] + q;
      CommaAfter(p[1..], q);
    }
  }

  function ItemTexts(items: seq<Item>): seq<string> {
    if items == [] then [] else [ItemText(items[0])] + ItemTexts(items[1..])
  }

  lemma SplitFirst(p: string, rest: string)
    requires NoComma(p)
    ensures SplitRest(p + ("," + rest)) == [p] + SplitRest(rest)
  {
    var q := "," + rest;
    CommaAfter(p, q);
    assert (p + q)[..|p|] == p && (p + q)[|p| + 1..] == rest;
  }

  lemma {:induction false} SplitReads(items: seq<Item>)
    requires items != []
    ensures SplitRest(SetText(items)) == ItemTexts(items) && SetText(items) != ""
  {
    var p := ItemText(items[0]);
    ItemNoComma(items[0]);
    if |items| == 1 {
      CommaAfter(p, "");
      assert p + "" == p;
      assert ItemTexts(items[1..]) == [];
    } else {
      SplitFirst(p, SetText(items[1..]));
      SplitReads(items[1..]);
    }
  }

  // The theorem.

  predicate PartOf(found: map<nat, nat>, v: View) {
    found.Keys <= v.ids.Keys && forall u :: u in found ==> found[u] == v.ids[u]
  }

  predicate Picked(v: View, items: seq<Item>, top: nat, uid: bool, found: map<nat, nat>, u: nat)
    requires u in v.ids
  {
    u in found || InSet(items, Selector(v, uid, u), top)
  }

  function Chosen(v: View, items: seq<Item>, top: nat, uid: bool, found: map<nat, nat>): map<nat, nat> {
    map u | u in v.ids && Picked(v, items, top, uid, found, u) :: v.ids[u]
  }

  /** The messages selected by a set, with their MSNs. */
  function Members(v: View, items: seq<Item>, top: nat, uid: bool): map<nat, nat> {
    map u | u in v.ids && InSet(items, Selector(v, uid, u), top) :: v.ids[u]
  }

  lemma InSetStep(items: seq<Item>, x: nat, top: nat)
    requires items != []
    ensures InSet(items, x, top) <==> InItem(items[0], x, top) || InSet(items[1..], x, top)
  {
    if InSet(items[1..], x, top) {
      var i :| 0 <= i < |items[1..]| && InItem(items[1..][i], x, top);
      assert items[i + 1] == items[1..][i];
    }
    if InSet(items, x, top) && !InItem(items[0], x, top) {
      var i :| 0 <= i < |items| && InItem(items[i], x, top);
      assert items[1..][i - 1] == items[i];
    }
  }

  /** The tree after the first item of the set. */
  function WithFirst(v: View, item: Item, top: nat, uid: bool, found: map<nat, nat>): map<nat, nat> {
    var r := if item.One? then NumValue(item.a, top) else NumValue(item.b, top);
    Trees.Merged(found, RangeTree(v, NumValue(item.a, top), r, uid), Trees.Or)
  }

  lemma WithFirstAt(v: View, item: Item, top: nat, uid: bool, found: map<nat, nat>, u: nat)
    requires PartOf(found, v)
    ensures var more := WithFirst(v, item, top, uid, found);
            && (u in more <==> u in v.ids && (u in found || InItem(item, Selector(v, uid, u), top)))
            && (u in more ==> more[u] == v.ids[u])
  {
  }

  lemma PickedStep(v: View, items: seq<Item>, top: nat, uid: bool, found: map<nat, nat>, u: nat)
    requires items != [] && PartOf(found, v) && u in v.ids
    ensures Picked(v, items, top, uid, found, u) <==>
            Picked(v, items[1..], top, uid, WithFirst(v, items[0], top, uid, found), u)
  {
    InSetStep(items, Selector(v, uid, u), top);
    WithFirstAt(v, items[0], top, uid, found, u);
  }

  lemma ChosenStep(v: View, items: seq<Item>, top: nat, uid: bool, found: map<nat, nat>)
    requires items != [] && PartOf(found, v)
    ensures var more := WithFirst(v, items[0], top, uid, found);
            PartOf(more, v) && Chosen(v, items, top, uid, found) == Chosen(v, items[1..], top, uid, more)
  {
    var more := WithFirst(v, items[0], top, uid, found);
    forall u | u in more
      ensures u in v.ids && more[u] == v.ids[u]
    {
      WithFirstAt(v, items[0], top, uid, found, u);
    }
    forall u | u in v.ids
      ensures Picked(v, items, top, uid, found, u) <==> Picked(v, items[1..], top, uid, more, u)
    {
      PickedStep(v, items, top, uid, found, u);
    }
  }

  lemma {:induction false} CollectReads(v: View, items: seq<Item>, top: nat, uid: bool, found: map<nat, nat>)
    requires AllOk(items) && top > 0 && PartOf(found, v)
    ensures Collect(v, ItemTexts(items), top, uid, found) == Some(Chosen(v, items, top, uid, found))
  {
    if items == [] {
      assert Chosen(v, items, top, uid, found) == found;
    } else {
      SegmentReads(items[0], top, uid);
      ChosenStep(v, items, top, uid, found);
      CollectReads(v, items[1..], top, uid, WithFirst(v, items[0], top, uid, found));
      assert ItemTexts(items)[1..] == ItemTexts(items[1..]);
    }
  }

  lemma TopPositive(v: View, uid: bool)
    requires v.ids != map[] && 0 !in v.ids
    ensures Top(v, uid) > 0
  {
    if uid {
      assert Order(v)[|v.ids| - 1] in Elements(Order(v));
    }
  }

  /** `*` is the largest UID, or the EXISTS count. */
  predicate IsTop(v: View, uid: bool, top: nat) {
    if uid then top in v.ids && forall u :: u in v.ids ==> u <= top else top == Exists(v)
  }

  lemma TopIsTop(v: View, uid: bool, top: nat)
    requires v.ids != map[] && IsTop(v, uid, top)
    ensures Top(v, uid) == top
  {
    if uid {
      var r := Order(v);
      assert top in Elements(r) && r[|v.ids| - 1] in Elements(r);
    }
  }

  /**
   On a non-empty mailbox a well-formed set yields exactly the messages whose UID
   (or MSN) lies in the union of its ranges, each with its MSN.
   */
  lemma SetMeaning(v: View, items: seq<Item>, uid: bool, top: nat)
    requires v.ids != map[] && 0 !in v.ids && items != [] && AllOk(items) && IsTop(v, uid, top)
    ensures GetSet(v, SetText(items), uid) == Some(Members(v, items, top, uid))
  {
    TopPositive(v, uid);
    TopIsTop(v, uid, top);
    SplitReads(items);
    CollectReads(v, items, top, uid, map[]);
    assert Chosen(v, items, top, uid, map[]) == Members(v, items, top, uid);
  }

  // Any text: when a set is refused.

  /** A number from 1 to 2^63 - 1 takes the first k characters. */
  predicate NumberAt(s: string, k: nat) {
    && 0 < k <= |s| && (forall i :: 0 <= i < k ==> IsDigit(s[i])) && (k < |s| ==> !IsDigit(s[k]))
    && 1 <= Value(s[..k]) <= 0x7fff_ffff_ffff_ffff
  }

  /** A colon with neither `*` nor a number after it. */
  ghost predicate BadTail(rest: string) {
    rest != "" && rest[0] == ':' && (|rest| == 1 || (rest[1] != '*' && forall k: nat :: !NumberAt(rest[1..], k)))
  }

  /** Neither `*` nor a number in front, or a bad tail after it. */
  ghost predicate Malformed(s: string)
    requires s != ""
  {
    if s[0] == '*' then BadTail(s[1..]) else forall k: nat :: NumberAt(s, k) ==> BadTail(s[k..])
  }

  lemma {:induction false} PrefixDigits(s: string)
    ensures DigitPrefix(s) <= |s| && forall i :: 0 <= i < DigitPrefix(s) ==> IsDigit(s[i])
    ensures DigitPrefix(s) < |s| ==> !IsDigit(s[DigitPrefix(s)])
  {
    if s != "" && IsDigit(s[0]) {
      PrefixDigits(s[1..]);
      assert forall i :: 0 < i < |s| ==> s[i] == s[1..][i - 1];
    }
  }

  lemma NumberExactly(s: string)
    ensures Number(s) != 0 <==> NumberAt(s, DigitPrefix(s))
    ensures forall k: nat :: NumberAt(s, k) ==> k == DigitPrefix(s)
  {
    PrefixDigits(s);
    assert DigitPrefix(s) == 0 ==> Value(s[..0]) == 0;
  }

  lemma TailExactly(l: nat, rest: string, top: nat)
    requires l > 0 && top > 0
    ensures RightEnd(l, rest, top).Bad? <==> BadTail(rest)
    ensures !RightEnd(l, rest, top).Stop?
  {
    if rest != "" && rest[0] == ':' {
      NumberExactly(if |rest| > 1 then rest[1..] else rest);
    }
  }

  /** On a non-empty mailbox an empty segment ends the set, and a malformed one refuses it. */
  lemma SegmentExactly(s: string, top: nat, uid: bool)
    requires top > 0
    ensures ParseSegment(s, top, uid).Stop? <==> s == ""
    ensures ParseSegment(s, top, uid).Bad? <==> s != "" && Malformed(s)
  {
    if s != "" {
      NumberExactly(s);
      if s[0] == '*' {
        TailExactly(top, if |s| > 1 then s[1..] else s, top);
      } else if Number(s) != 0 {
        TailExactly(if uid then OrTop(Number(s), top) else Max(OrTop(Number(s), top), 1), AfterNumber(s), top);
      }
    }
  }

  /** Position i holds the first malformed segment, and no empty one comes before it. */
  ghost predicate RefusedAt(segments: seq<string>, i: nat) {
    && i < |segments| && segments[i] != "" && Malformed(segments[i])
    && forall j :: 0 <= j < i ==> segments[j] != ""
  }

  lemma RefusedStep(segments: seq<string>, i: nat)
    requires segments != [] && i > 0
    ensures RefusedAt(segments, i) <==> segments[0] != "" && RefusedAt(segments[1..], i - 1)
  {
    var rest := segments[1..];
    assert forall j :: 0 <= j < |rest| ==> rest[j] == segments[j + 1];
    if segments[0] != "" && RefusedAt(rest, i - 1) {
      forall j | 0 <= j < i
        ensures segments[j] != ""
      {
        assert j > 0 ==> rest[j - 1] == segments[j];
      }
    }
  }

  lemma {:induction false} CollectRefuses(v: View, segments: seq<string>, top: nat, uid: bool, found: map<nat, nat>)
    requires top > 0
    ensures Collect(v, segments, top, uid, found).None? <==> exists i: nat :: RefusedAt(segments, i)
    decreases |segments|
  {
    if segments != [] {
      var s := ParseSegment(segments[0], top, uid);
      SegmentExactly(segments[0], top, uid);
      forall i: nat | i > 0
        ensures RefusedAt(segments, i) <==> segments[0] != "" && RefusedAt(segments[1..], i - 1)
      {
        RefusedStep(segments, i);
      }
      if s.Bad? {
        assert RefusedAt(segments, 0);
      } else if s.Range? {
        CollectRefuses(v, segments[1..], top, uid, Trees.Merged(found, RangeTree(v, s.l, s.r, uid), Trees.Or));
        FirstOrLater(segments);
      }
    }
  }

  lemma FirstOrLater(segments: seq<string>)
    requires segments != [] && segments[0] != "" && !Malformed(segments[0])
    ensures (exists i: nat :: RefusedAt(segments, i)) <==> exists i: nat :: RefusedAt(segments[1..], i)
  {
    if i: nat :| RefusedAt(segments, i) {
      RefusedStep(segments, i);
      assert RefusedAt(segments[1..], i - 1);
    }
    if i: nat :| RefusedAt(segments[1..], i) {
      RefusedStep(segments, i + 1);
      assert RefusedAt(segments, i + 1);
    }
  }

  /** On a non-empty mailbox a set is refused if and only if a malformed segment comes before any empty one. */
  lemma RefusedExactly(v: View, text: string, uid: bool)
    requires v.ids != map[] && 0 !in v.ids
    ensures GetSet(v, text, uid).None? <==> exists i: nat :: RefusedAt(Split(text), i)
  {
    TopPositive(v, uid);
    CollectRefuses(v, Split(text), Top(v, uid), uid, map[]);
  }

  // An empty mailbox.

  lemma EmptyItemOk(item: Item)
    requires ItemOk(item)
    ensures ItemText(item) != "" && EmptySegmentOk(ItemText(item))
  {
    ItemNoComma(item);
    if item.a.N? {
      var rest := if item.One? then "" else ":" + NumText(item.b);
      NumberReads(item.a.value, rest);
      assert item.One? ==> Decimal(item.a.value) + "" == Decimal(item.a.value);
      if item.Span? {
        assert rest[1..] == NumText(item.b);
        if item.b.N? {
          NumberReads(item.b.value, "");
          assert Decimal(item.b.value) + "" == Decimal(item.b.value);
        }
      }
    }
  }

  lemma {:induction false} EmptyCollects(items: seq<Item>, uidnext: nat, found: map<nat, nat>)
    requires AllOk(items)
    ensures CollectEmpty(ItemTexts(items), uidnext, found) ==
            Some(if items == [] then found else found[1 := uidnext])
  {
    if items != [] {
      EmptyItemOk(items[0]);
      assert ItemTexts(items)[1..] == ItemTexts(items[1..]);
      EmptyCollects(items[1..], uidnext, found[1 := uidnext]);
      assert found[1 := uidnext][1 := uidnext] == found[1 := uidnext];
    }
  }

  /** There a segment must be `*` with anything after it, a number, or a number with a good tail. */
  lemma EmptySegmentExactly(s: string)
    requires s != ""
    ensures EmptySegmentOk(s) <==>
            s[0] == '*' ||
            exists k: nat :: NumberAt(s, k) && (k == |s| || (s[k] == ':' && !BadTail(s[k..])))
  {
    var k := DigitPrefix(s);
    NumberExactly(s);
    if Number(s) != 0 && k < |s| {
      var rest := s[k..];
      NumberExactly(rest[1..]);
      assert rest[0] == s[k];
    }
  }

  /** On an empty mailbox every well-formed set names message 1 with the next UID. */
  lemma EmptySetMeaning(v: View, items: seq<Item>, uid: bool)
    requires v.ids == map[] && items != [] && AllOk(items)
    ensures var all := GetSet(v, SetText(items), uid);
            all.Some? && all.value.Keys == {1} && all.value[1] == v.uidnext
  {
    SplitReads(items);
    EmptyCollects(items, v.uidnext, map[]);
  }
}
