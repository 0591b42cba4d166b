/**
 The loops of `MailboxState_get_set`: ranges are collected into a scratch tree by a
 scan that stops early, and merged into the result, which leaves nodes behind.
 */
module RangeSearch {
  import opened Basics
  import opened SortedSets
  import opened MailboxView
  import opened MailboxStates
  import opened SequenceSet
  import Trees = GTreeMerge

  function Inserted(a: map<nat, nat>, key: nat, value: nat, uid: bool): map<nat, nat> {
    if uid then a[key := value] else a[value := key]
  }

  /** Inserting the entries of the given keys that lie in the range. */
  function RangeFold(a: map<nat, nat>, c: map<nat, nat>, keys: seq<nat>, l: nat, r: nat, uid: bool): map<nat, nat>
    requires Elements(keys) <= c.Keys
  {
    if keys == [] then a else
    var n := |keys| - 1;
    assert keys[n] in Elements(keys);
    assert Elements(keys[..n]) <= Elements(keys);
    var before := RangeFold(a, c, keys[..n], l, r, uid);
    if l <= keys[n] <= r then Inserted(before, keys[n], c[keys[n]], uid) else before
  }

  /** Beyond the first key above the range nothing is inserted. */
  lemma {:induction false} EarlyStop(a: map<nat, nat>, c: map<nat, nat>, keys: seq<nat>, i: nat, l: nat, r: nat,
                                     uid: bool)
    requires Elements(keys) <= c.Keys && StrictlyAscending(keys) && i <= |keys| && (i < |keys| ==> keys[i] > r)
    ensures Elements(keys[..i]) <= c.Keys
    ensures RangeFold(a, c, keys[..i], l, r, uid) == RangeFold(a, c, keys, l, r, uid)
  {
    assert Elements(keys[..i]) <= Elements(keys);
    if i < |keys| {
      var n := |keys| - 1;
      assert Elements(keys[..n]) <= Elements(keys);
      assert keys[..n][..i] == keys[..i];
      EarlyStop(a, c, keys[..n], i, l, r, uid);
    } else {
      assert keys[..i] == keys;
    }
  }

  lemma FoldStep(a: map<nat, nat>, c: map<nat, nat>, keys: seq<nat>, i: nat, l: nat, r: nat, uid: bool)
    requires Elements(keys) <= c.Keys && i < |keys|
    ensures Elements(keys[..i]) <= c.Keys && Elements(keys[..i + 1]) <= c.Keys && keys[i] in c
    ensures RangeFold(a, c, keys[..i + 1], l, r, uid) ==
            var before := RangeFold(a, c, keys[..i], l, r, uid);
            if l <= keys[i] <= r then Inserted(before, keys[i], c[keys[i]], uid) else before
  {
    assert keys[i] in Elements(keys);
    assert Elements(keys[..i]) <= Elements(keys) && Elements(keys[..i + 1]) <= Elements(keys);
    assert keys[..i + 1][..i] == keys[..i];
  }

  /** `find_range`: a scan in key order that stops at the first key above the range. */
  method FindRange(c: map<nat, nat>, l: nat, r: nat, scratch: map<nat, nat>, uid: bool) returns (a: map<nat, nat>)
    ensures a == RangeFold(scratch, c, Ascending(c.Keys), l, r, uid)
  {
    a := scratch;
    var keys := TreeKeys(c.Keys);
    var i := 0;
    while i < |keys|
      invariant 0 <= i <= |keys|
      invariant Elements(keys[..i]) <= c.Keys
      invariant a == RangeFold(scratch, c, keys[..i], l, r, uid)
    {
      FoldStep(scratch, c, keys, i, l, r, uid);
      if keys[i] > r {
        EarlyStop(scratch, c, keys, i, l, r, uid);
        return;
      }
      if keys[i] >= l {
        var k: nat := keys[i];
        var v := c[k];
        if uid {
          a := a[k := v];
        } else {
          a := a[v := k];
        }
      }
      i := i + 1;
    }
    assert keys[..i] == keys;
  }

  // What the scan finds in the two trees of a view.

  lemma {:induction false} UidFoldAt(a: map<nat, nat>, c: map<nat, nat>, keys: seq<nat>, l: nat, r: nat, u: nat)
    requires Elements(keys) <= c.Keys
    ensures var after := RangeFold(a, c, keys, l, r, true);
            if u in Elements(keys) && l <= u <= r then u in after && after[u] == c[u]
            else (u in after <==> u in a) && (u in after ==> after[u] == a[u])
  {
    if keys != [] {
      var n := |keys| - 1;
      assert keys == keys[..n] + [keys[n]];
      assert Elements(keys) == Elements(keys[..n]) + {keys[n]};
      UidFoldAt(a, c, keys[..n], l, r, u);
    }
  }

  /** The two trees of the view are inverse to each other. */
  predicate Inverse(v: View) {
    && (forall k :: k in v.msn ==> v.msn[k] in v.ids && v.ids[v.msn[k]] == k)
    && (forall u :: u in v.ids ==> v.ids[u] in v.msn && v.msn[v.ids[u]] == u)
  }

  lemma MappedInverse(v: View)
    requires Mapped(v)
    ensures Inverse(v)
  {
    MappedView(v);
  }

  lemma {:induction false} MsnFoldAt(a: map<nat, nat>, v: View, keys: seq<nat>, l: nat, r: nat, u: nat)
    requires Elements(keys) <= v.msn.Keys && Inverse(v)
    ensures var after := RangeFold(a, v.msn, keys, l, r, false);
            if u in v.ids && v.ids[u] in Elements(keys) && l <= v.ids[u] <= r then u in after && after[u] == v.ids[u]
            else (u in after <==> u in a) && (u in after ==> after[u] == a[u])
  {
    if keys != [] {
      var n := |keys| - 1;
      assert keys == keys[..n] + [keys[n]];
      assert Elements(keys) == Elements(keys[..n]) + {keys[n]};
      MsnFoldAt(a, v, keys[..n], l, r, u);
    }
  }

  lemma RangeTreeAt(v: View, a: map<nat, nat>, l: nat, r: nat, uid: bool, u: nat)
    requires l <= r
    ensures var sum := a + RangeTree(v, l, r, uid);
            if u in v.ids && l <= Selector(v, uid, u) <= r then u in sum && sum[u] == v.ids[u]
            else SameEntry(sum, a, u)
  {
  }

  lemma ScanUidAt(v: View, a: map<nat, nat>, keys: seq<nat>, l: nat, r: nat, u: nat)
    requires l <= r && Elements(keys) == v.ids.Keys
    ensures SameEntry(RangeFold(a, v.ids, keys, l, r, true), a + RangeTree(v, l, r, true), u)
  {
    UidFoldAt(a, v.ids, keys, l, r, u);
    RangeTreeAt(v, a, l, r, true, u);
  }

  lemma ScanMsnAt(v: View, a: map<nat, nat>, keys: seq<nat>, l: nat, r: nat, u: nat)
    requires Inverse(v) && l <= r && Elements(keys) == v.msn.Keys
    ensures SameEntry(RangeFold(a, v.msn, keys, l, r, false), a + RangeTree(v, l, r, false), u)
  {
    MsnFoldAt(a, v, keys, l, r, u);
    RangeTreeAt(v, a, l, r, false, u);
  }

  lemma ScanFindsUid(v: View, a: map<nat, nat>, keys: seq<nat>, l: nat, r: nat)
    requires l <= r && Elements(keys) == v.ids.Keys
    ensures RangeFold(a, v.ids, keys, l, r, true) == a + RangeTree(v, l, r, true)
  {
    forall u {
      ScanUidAt(v, a, keys, l, r, u);
    }
    SameEntries(RangeFold(a, v.ids, keys, l, r, true), a + RangeTree(v, l, r, true));
  }

  lemma ScanFindsMsn(v: View, a: map<nat, nat>, keys: seq<nat>, l: nat, r: nat)
    requires Inverse(v) && l <= r && Elements(keys) == v.msn.Keys
    ensures RangeFold(a, v.msn, keys, l, r, false) == a + RangeTree(v, l, r, false)
  {
    forall u {
      ScanMsnAt(v, a, keys, l, r, u);
    }
    SameEntries(RangeFold(a, v.msn, keys, l, r, false), a + RangeTree(v, l, r, false));
  }

  /** Both scans add exactly the messages of the range, as UID to MSN pairs. */
  lemma ScanFinds(v: View, a: map<nat, nat>, l: nat, r: nat, uid: bool)
    requires Inverse(v) && l <= r
    ensures var c := if uid then v.ids else v.msn;
            RangeFold(a, c, Ascending(c.Keys), l, r, uid) == a + RangeTree(v, l, r, uid)
  {
    if uid {
      ScanFindsUid(v, a, Ascending(v.ids.Keys), l, r);
    } else {
      ScanFindsMsn(v, a, Ascending(v.msn.Keys), l, r);
    }
  }

  /** Leftovers in the scratch tree are already in the result, so they do no harm. */
  lemma LeftoversHarmless(v: View, b: map<nat, nat>, a: map<nat, nat>, extra: map<nat, nat>)
    requires PartOf(b, v) && PartOf(a, v) && a.Keys <= b.Keys && PartOf(extra, v)
    ensures Trees.Merged(b, a + extra, Trees.Or) == Trees.Merged(b, extra, Trees.Or)
    ensures PartOf(Trees.Merged(b, extra, Trees.Or), v)
    ensures var left := Trees.Leftover(b, a + extra, Trees.Or);
            PartOf(left, v) && left.Keys <= Trees.Merged(b, extra, Trees.Or).Keys
  {
  }

  /** One range scanned into the scratch tree and merged adds just that range. */
  lemma RangeAdded(v: View, scratch: map<nat, nat>, found: map<nat, nat>, l: nat, r: nat, uid: bool)
    requires Inverse(v) && PartOf(scratch, v) && PartOf(found, v) && scratch.Keys <= found.Keys
    ensures var c := if uid then v.ids else v.msn;
            var a := RangeFold(scratch, c, Ascending(c.Keys), Min(l, r), Max(l, r), uid);
            var merged, left := Trees.Merged(found, a, Trees.Or), Trees.Leftover(found, a, Trees.Or);
            && merged == Trees.Merged(found, RangeTree(v, l, r, uid), Trees.Or)
            && PartOf(left, v) && PartOf(merged, v) && left.Keys <= merged.Keys
  {
    ScanFinds(v, scratch, Min(l, r), Max(l, r), uid);
    assert RangeTree(v, Min(l, r), Max(l, r), uid) == RangeTree(v, l, r, uid);
    LeftoversHarmless(v, found, scratch, RangeTree(v, l, r, uid));
  }

  method AddRange(m: MailboxState, l: nat, r: nat, uid: bool, scratch: map<nat, nat>, found: map<nat, nat>)
    returns (scratch': map<nat, nat>, found': map<nat, nat>)
    requires Inverse(m.State()) && PartOf(scratch, m.State()) && PartOf(found, m.State()) && scratch.Keys <= found.Keys
    ensures found' == Trees.Merged(found, RangeTree(m.State(), l, r, uid), Trees.Or)
    ensures PartOf(scratch', m.State()) && PartOf(found', m.State()) && scratch'.Keys <= found'.Keys
  {
    var inset := if uid then m.ids else m.msn;
    var a := FindRange(inset, Min(l, r), Max(l, r), scratch, uid);
    RangeAdded(m.State(), scratch, found, l, r, uid);
    found', scratch' := Trees.Merge(found, a, Trees.Or);
  }

  /** `MailboxState_get_set` on a non-empty mailbox. */
  method CollectSegments(m: MailboxState, segments: seq<string>, top: nat, uid: bool) returns (b: Option<map<nat, nat>>)
    requires Inverse(m.State())
    ensures b == Collect(m.State(), segments, top, uid, map[])
  {
    ghost var v := m.State();
    var scratch: map<nat, nat>, found: map<nat, nat> := map[], map[];
    var i := 0;
    while i < |segments|
      invariant 0 <= i <= |segments|
      invariant PartOf(scratch, v) && PartOf(found, v) && scratch.Keys <= found.Keys
      invariant Collect(v, segments[i..], top, uid, found) == Collect(v, segments, top, uid, map[])
    {
      assert segments[i..][1..] == segments[i + 1..];
      match ParseSegment(segments[i], top, uid) {
        case Stop =>
          return Some(found);
        case Bad =>
          return None;
        case Range(l, r) =>
          scratch, found := AddRange(m, l, r, uid, scratch, found);
      }
      i := i + 1;
    }
    assert segments[i..] == [];
    b := Some(found);
  }

  method CheckSegments(segments: seq<string>, uidnext: nat) returns (b: Option<map<nat, nat>>)
    ensures b == CollectEmpty(segments, uidnext, map[])
  {
    var found: map<nat, nat> := map[];
    var i := 0;
    while i < |segments|
      invariant 0 <= i <= |segments|
      invariant CollectEmpty(segments[i..], uidnext, found) == CollectEmpty(segments, uidnext, map[])
    {
      assert segments[i..][1..] == segments[i + 1..];
      if segments[i] == "" {
        return Some(found);
      }
      if !EmptySegmentOk(segments[i]) {
        return None;
      }
      found := found[1 := uidnext];
      i := i + 1;
    }
    b := Some(found);
  }

  /** The last key of the UID tree, or 0. */
  method TopUid(ids: map<nat, nat>) returns (top: nat)
    ensures top == if ids == map[] then 0 else Ascending(ids.Keys)[|ids| - 1]
  {
    var keys := TreeKeys(ids.Keys);
    top := if keys == [] then 0 else keys[|keys| - 1];
    assert |ids.Keys| == |ids|;
    assert keys == [] <==> ids == map[];
  }

  /** `MailboxState_get_set`. */
  method GetSet(m: MailboxState, text: string, uid: bool) returns (b: Option<map<nat, nat>>)
    requires Mapped(m.State())
    modifies m`total
    ensures b == SequenceSet.GetSet(old(m.State()), text, uid)
    ensures m.State() == if uid then old(m.State()) else old(m.State()).(total := Exists(old(m.State())))
  {
    ghost var v := m.State();
    MappedInverse(v);
    var top;
    if !uid {
      top := m.GetExists();
    } else {
      top := TopUid(m.ids);
    }
    if |m.ids| == 0 {
      assert m.ids == map[];
      b := CheckSegments(Split(text), m.uidnext);
    } else {
      b := CollectSegments(m, Split(text), top, uid);
      CollectIgnoresTotal(v, m.State(), Split(text), top, uid, map[]);
    }
  }

  lemma {:induction false} CollectIgnoresTotal(v: View, w: View, segments: seq<string>, top: nat, uid: bool,
                                               found: map<nat, nat>)
    requires v.ids == w.ids
    ensures Collect(v, segments, top, uid, found) == Collect(w, segments, top, uid, found)
    decreases |segments|
  {
    if segments != [] {
      var s := ParseSegment(segments[0], top, uid);
      if s.Range? {
        assert RangeTree(v, s.l, s.r, uid) == RangeTree(w, s.l, s.r, uid);
        CollectIgnoresTotal(v, w, segments[1..], top, uid, Trees.Merged(found, RangeTree(v, s.l, s.r, uid), Trees.Or));
      }
    }
  }
}
