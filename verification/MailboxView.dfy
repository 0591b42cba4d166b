/**
 The in-memory view of one mailbox: cached messages by UID, the two trees that
 translate between UIDs and message sequence numbers (MSNs), and the EXISTS
 counter.
 */
module MailboxView {
  import opened SortedSets

  const MESSAGE_STATUS_DELETE: nat := 2
  const UINT32: nat := 0x1_0000_0000
  const INT32_LIMIT: nat := 0x8000_0000
  const UINT64: nat := 0x1_0000_0000_0000_0000

  datatype Flags = Flags(seen: bool, answered: bool, deleted: bool, flagged: bool, draft: bool, recent: bool)

  datatype MessageInfo = MessageInfo(
    uid: nat, flags: Flags, internaldate: string, rfcsize: nat, modseq: nat,
    status: nat, physId: nat, keywords: seq<string>, expunge: nat, expunged: bool)

  /** The part of a mailbox state that the client can observe. */
  datatype View = View(
    msginfo: map<nat, MessageInfo>, ids: map<nat, nat>, msn: map<nat, nat>,
    total: nat, uidnext: nat)

  /** Messages that are not yet deleted. */
  function Visible(msginfo: map<nat, MessageInfo>): set<nat> {
    set u | u in msginfo && msginfo[u].status < MESSAGE_STATUS_DELETE
  }

  ghost function RankMap(s: set<nat>): map<nat, nat> {
    map u | u in s :: Rank(s, u)
  }

  ghost function MsnMap(s: set<nat>): map<nat, nat> {
    map k: nat | 1 <= k <= |s| :: Nth(s, k)
  }

  ghost function Nth(s: set<nat>, k: nat): nat
    requires 1 <= k <= |s|
  {
    Ascending(s)[k - 1]
  }

  /** `ids` and `msn` number exactly the visible messages, by rank. */
  ghost predicate Mapped(v: View) {
    && v.ids == RankMap(Visible(v.msginfo))
    && v.msn == MsnMap(Visible(v.msginfo))
  }

  /** The client's list of messages: UIDs in MSN order. */
  ghost function Order(v: View): seq<nat> {
    Ascending(v.ids.Keys)
  }

  lemma InverseAtUid(s: set<nat>, u: nat)
    requires u in s
    ensures RankMap(s)[u] in MsnMap(s) && MsnMap(s)[RankMap(s)[u]] == u
  {
  }

  lemma InverseAtMsn(s: set<nat>, k: nat)
    requires 1 <= k <= |s|
    ensures MsnMap(s)[k] in s && RankMap(s)[MsnMap(s)[k]] == k
  {
    assert Nth(s, k) in Elements(Ascending(s));
  }

  /** The trees are inverse to each other and the MSNs are exactly 1..n. */
  lemma MappedView(v: View)
    requires Mapped(v)
    ensures v.ids.Keys == Visible(v.msginfo)
    ensures forall u :: u in v.ids ==> v.ids[u] in v.msn && v.msn[v.ids[u]] == u
    ensures forall k :: k in v.msn ==> v.msn[k] in v.ids && v.ids[v.msn[k]] == k
    ensures forall k :: k in v.msn <==> 1 <= k <= |v.ids|
  {
    MappedUids(v);
    MappedMsns(v);
    assert |v.ids.Keys| == |v.ids|;
  }

  lemma MappedUids(v: View)
    requires Mapped(v)
    ensures v.ids.Keys == Visible(v.msginfo)
    ensures forall u :: u in v.ids ==> v.ids[u] in v.msn && v.msn[v.ids[u]] == u
  {
    forall u | u in v.ids
      ensures v.ids[u] in v.msn && v.msn[v.ids[u]] == u
    {
      InverseAtUid(Visible(v.msginfo), u);
    }
  }

  lemma MappedMsns(v: View)
    requires Mapped(v)
    ensures forall k :: k in v.msn ==> v.msn[k] in v.ids && v.ids[v.msn[k]] == k
    ensures forall k :: k in v.msn <==> 1 <= k <= |Visible(v.msginfo)|
  {
    forall k | k in v.msn
      ensures v.msn[k] in v.ids && v.ids[v.msn[k]] == k
    {
      InverseAtMsn(Visible(v.msginfo), k);
    }
  }

  /** MSNs follow UID order. */
  lemma MsnFollowsUid(v: View, u: nat, w: nat)
    requires Mapped(v) && u in v.ids && w in v.ids
    ensures u < w <==> v.ids[u] < v.ids[w]
  {
    RankMonotone(Visible(v.msginfo), u, w);
  }

  // Numbering the messages one after the other.

  ghost function IdsOf(r: seq<nat>): map<nat, nat> {
    if r == [] then map[] else IdsOf(r[..|r| - 1])[r[|r| - 1] := |r|]
  }

  ghost function MsnOf(r: seq<nat>): map<nat, nat> {
    if r == [] then map[] else MsnOf(r[..|r| - 1])[|r| := r[|r| - 1]]
  }

  lemma NumberSnoc(r: seq<nat>, x: nat)
    ensures IdsOf(r + [x]) == IdsOf(r)[x := |r| + 1]
    ensures MsnOf(r + [x]) == MsnOf(r)[|r| + 1 := x]
  {
    assert (r + [x])[..|r|] == r;
  }

  lemma {:induction false} NumberedKeys(r: seq<nat>)
    ensures IdsOf(r).Keys == Elements(r)
    ensures forall k :: k in MsnOf(r) <==> 1 <= k <= |r|
  {
    if r != [] {
      var n := |r| - 1;
      NumberedKeys(r[..n]);
      assert r == r[..n] + [r[n]];
    }
  }

  lemma {:induction false} NumberedAt(r: seq<nat>, i: nat)
    requires StrictlyAscending(r) && i < |r|
    ensures r[i] in IdsOf(r) && IdsOf(r)[r[i]] == i + 1
    ensures i + 1 in MsnOf(r) && MsnOf(r)[i + 1] == r[i]
  {
    if i < |r| - 1 {
      NumberedAt(r[..|r| - 1], i);
    }
  }

  lemma RankNumbered(s: set<nat>, u: nat)
    requires u in s
    ensures u in IdsOf(Ascending(s)) && IdsOf(Ascending(s))[u] == Rank(s, u)
  {
    NumberedAt(Ascending(s), Rank(s, u) - 1);
  }

  /** Numbering in order is numbering by rank. */
  lemma IdsByRank(s: set<nat>)
    ensures IdsOf(Ascending(s)) == RankMap(s)
  {
    NumberedKeys(Ascending(s));
    forall u | u in s
      ensures u in IdsOf(Ascending(s)) && IdsOf(Ascending(s))[u] == Rank(s, u)
    {
      RankNumbered(s, u);
    }
  }

  lemma MsnByRank(s: set<nat>)
    ensures MsnOf(Ascending(s)) == MsnMap(s)
  {
    var r := Ascending(s);
    NumberedKeys(r);
    forall k | 1 <= k <= |s|
      ensures MsnOf(r)[k] == Nth(s, k)
    {
      NumberedAt(r, k - 1);
    }
  }

  lemma NumberByRank(r: seq<nat>, s: set<nat>)
    requires StrictlyAscending(r) && Elements(r) == s
    ensures IdsOf(r) == RankMap(s) && MsnOf(r) == MsnMap(s)
  {
    AscendingUnique(r, Ascending(s));
    IdsByRank(s);
    MsnByRank(s);
  }

  /** The visible ones among the first `i` keys, in order. */
  predicate SoFar(keys: seq<nat>, i: nat, visible: set<nat>, numbered: seq<nat>)
    requires i <= |keys|
  {
    && StrictlyAscending(numbered) && Elements(numbered) == Elements(keys[..i]) * visible
    && (numbered != [] && i < |keys| ==> numbered[|numbered| - 1] < keys[i])
  }

  lemma SoFarStep(keys: seq<nat>, i: nat, visible: set<nat>, numbered: seq<nat>)
    requires StrictlyAscending(keys) && i < |keys| && SoFar(keys, i, visible, numbered)
    ensures SoFar(keys, i + 1, visible, if keys[i] in visible then numbered + [keys[i]] else numbered)
  {
    PrefixGrows(keys, i);
    assert i + 1 < |keys| ==> keys[i] < keys[i + 1];
    if keys[i] in visible {
      AppendLarger(numbered, keys[i]);
    }
  }

  lemma SoFarWhole(keys: seq<nat>, visible: set<nat>, numbered: seq<nat>)
    requires SoFar(keys, |keys|, visible, numbered) && visible <= Elements(keys)
    ensures IdsOf(numbered) == RankMap(visible) && MsnOf(numbered) == MsnMap(visible)
  {
    WholePrefix(keys);
    assert Elements(keys) * visible == visible;
    NumberByRank(numbered, visible);
  }

  /** The loop of `MailboxState_remap`: fresh trees for the visible messages. */
  method NumberMessages(msginfo: map<nat, MessageInfo>) returns (ids: map<nat, nat>, msn: map<nat, nat>)
    ensures ids == RankMap(Visible(msginfo))
    ensures msn == MsnMap(Visible(msginfo))
  {
    ids, msn := map[], map[];
    var keys := TreeKeys(msginfo.Keys);
    var rows := 1;
    ghost var visible := Visible(msginfo);
    ghost var numbered := [];
    for i := 0 to |keys|
      invariant SoFar(keys, i, visible, numbered)
      invariant rows == |numbered| + 1
      invariant ids == IdsOf(numbered) && msn == MsnOf(numbered)
    {
      SoFarStep(keys, i, visible, numbered);
      var uid := keys[i];
      assert uid in Elements(keys);
      if msginfo[uid].status < MESSAGE_STATUS_DELETE {
        NumberSnoc(numbered, uid);
        ids := ids[uid := rows];
        msn := msn[rows := uid];
        rows := rows + 1;
        numbered := numbered + [uid];
      }
    }
    SoFarWhole(keys, visible, numbered);
  }

  /** Removing one visible message renumbers the rest. */
  ghost function Removed(v: View, uid: nat): View
    requires uid in v.msginfo
  {
    var msginfo := v.msginfo[uid := v.msginfo[uid].(status := MESSAGE_STATUS_DELETE)];
    View(msginfo, RankMap(Visible(msginfo)), MsnMap(Visible(msginfo)), Decrement32(v.total), v.uidnext)
  }

  /** `--` on an unsigned 32-bit counter. */
  function Decrement32(x: nat): nat {
    if x == 0 then UINT32 - 1 else x - 1
  }

  /** `--` on an unsigned 64-bit counter. */
  function Decrement64(x: nat): nat {
    if x == 0 then UINT64 - 1 else x - 1
  }

  /** The signed reading of an unsigned 32-bit counter. */
  function AsInt32(x: nat): int {
    if x >= INT32_LIMIT then x - UINT32 else x
  }

  /** The counter after `MailboxState_getExists`: never below the number of visible messages. */
  function Exists(v: View): nat {
    if |v.ids| > AsInt32(v.total) then |v.ids| else v.total
  }

  lemma WithoutIndex(r: seq<nat>, i: nat)
    requires StrictlyAscending(r) && i < |r|
    ensures StrictlyAscending(r[..i] + r[i + 1..])
    ensures Elements(r[..i] + r[i + 1..]) == Elements(r) - {r[i]}
  {
    forall x | x in r && x != r[i]
      ensures x in r[..i] + r[i + 1..]
    {
      var k :| 0 <= k < |r| && r[k] == x;
      if k < i {
        assert (r[..i] + r[i + 1..])[k] == x;
      } else {
        assert (r[..i] + r[i + 1..])[k - 1] == x;
      }
    }
  }

  lemma AscendingWithout(s: set<nat>, uid: nat)
    requires uid in s
    ensures Ascending(s - {uid}) == Ascending(s)[..Rank(s, uid) - 1] + Ascending(s)[Rank(s, uid)..]
  {
    var r, i := Ascending(s), Rank(s, uid) - 1;
    WithoutIndex(r, i);
    AscendingUnique(Ascending(s - {uid}), r[..i] + r[i + 1..]);
  }

  /** Taking out an element leaves the ranks below it alone. */
  lemma RankBelowKept(s: set<nat>, uid: nat, u: nat)
    requires uid in s && u in s && u < uid
    ensures Rank(s - {uid}, u) == Rank(s, u)
  {
    AscendingWithout(s, uid);
    RankMonotone(s, u, uid);
    assert Ascending(s - {uid})[Rank(s, u) - 1] == u;
  }

  lemma RemovedVisible(v: View, uid: nat)
    requires uid in v.msginfo
    ensures Visible(Removed(v, uid).msginfo) == Visible(v.msginfo) - {uid}
    ensures Removed(v, uid).ids.Keys == Visible(v.msginfo) - {uid}
    ensures Mapped(Removed(v, uid))
  {
  }

  /** Removing a visible message takes its entry out of the client's list and closes the gap. */
  lemma RemovedOrder(v: View, uid: nat)
    requires Mapped(v) && uid in v.ids
    ensures uid in v.msginfo && Mapped(Removed(v, uid))
    ensures Removed(v, uid).ids.Keys == v.ids.Keys - {uid}
    ensures 1 <= v.ids[uid] <= |Order(v)|
    ensures Order(Removed(v, uid)) == Order(v)[..v.ids[uid] - 1] + Order(v)[v.ids[uid]..]
  {
    var s := Visible(v.msginfo);
    assert v.ids.Keys == s;
    RemovedVisible(v, uid);
    AscendingWithout(s, uid);
  }

  /** Removing a message leaves the numbers of all messages before it alone. */
  lemma EarlierNumbersKept(v: View, uid: nat, u: nat)
    requires Mapped(v) && uid in v.ids && u in v.ids && u < uid
    ensures uid in v.msginfo && u in Removed(v, uid).ids
    ensures Removed(v, uid).ids[u] == v.ids[u]
  {
    var s := Visible(v.msginfo);
    assert v.ids.Keys == s;
    RemovedVisible(v, uid);
    RankBelowKept(s, uid, u);
  }
}
