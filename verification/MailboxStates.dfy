/**
 The mailbox state object: loading it from the database, and the updates that the
 session makes to it. Every change of the messages renumbers the view.
 */
module MailboxStates {
  import opened Basics
  import opened SortedSets
  import opened MailboxView
  import opened RefreshSpec
  import Trees = GTreeMerge

  predicate Distinct(order: seq<nat>) {
    forall i, j :: 0 <= i < j < |order| ==> order[i] != order[j]
  }

  // A result set processed row by row.

  function RowFold(cache: map<nat, MessageInfo>, rows: Table, order: seq<nat>, cold: bool): map<nat, MessageInfo>
    requires Elements(order) <= rows.Keys
  {
    if order == [] then cache else
    var n := |order| - 1;
    assert order[n] in Elements(order);
    assert Elements(order[..n]) <= Elements(order);
    RowRead(RowFold(cache, rows, order[..n], cold), order[n], rows[order[n]], cold)
  }

  /** Rows of other messages do not matter for a message. */
  lemma {:induction false} RowFoldAt(cache: map<nat, MessageInfo>, rows: Table, order: seq<nat>, cold: bool, uid: nat)
    requires Elements(order) <= rows.Keys && Distinct(order)
    ensures var after := RowFold(cache, rows, order, cold);
            if uid in Elements(order) then
              && (uid in after <==> uid in RowRead(cache, uid, rows[uid], cold))
              && (uid in after ==> after[uid] == RowRead(cache, uid, rows[uid], cold)[uid])
            else
              && (uid in after <==> uid in cache)
              && (uid in after ==> after[uid] == cache[uid])
  {
    if order != [] {
      var n := |order| - 1;
      LastElement(order);
      RowFoldAt(cache, rows, order[..n], cold, uid);
    }
  }

  lemma LastElement(order: seq<nat>)
    requires order != [] && Distinct(order)
    ensures var n := |order| - 1;
            && Distinct(order[..n])
            && Elements(order) == Elements(order[..n]) + {order[n]}
            && order[n] !in Elements(order[..n])
  {
    var n := |order| - 1;
    assert order == order[..n] + [order[n]];
  }

  /** The order of the result set does not matter. */
  lemma RowFoldIsRead(cache: map<nat, MessageInfo>, rows: Table, order: seq<nat>, cold: bool)
    requires Elements(order) <= rows.Keys && Distinct(order)
    ensures RowFold(cache, rows, order, cold) == RowsRead(cache, rows, Elements(order), cold)
  {
    var folded, read := RowFold(cache, rows, order, cold), RowsRead(cache, rows, Elements(order), cold);
    forall u
      ensures SameEntry(folded, read, u)
    {
      RowFoldAt(cache, rows, order, cold, u);
    }
    SameEntries(folded, read);
  }

  // The keyword result set: one row per message and keyword.

  function AddKeyword(cache: map<nat, MessageInfo>, uid: nat, keyword: string): map<nat, MessageInfo> {
    if keyword != "" && uid in cache
    then cache[uid := cache[uid].(keywords := cache[uid].keywords + [keyword])]
    else cache
  }

  function AddKeywords(cache: map<nat, MessageInfo>, uid: nat, words: seq<string>): map<nat, MessageInfo> {
    if words == [] then cache else
    AddKeyword(AddKeywords(cache, uid, words[..|words| - 1]), uid, words[|words| - 1])
  }

  lemma {:induction false} AddKeywordsIs(cache: map<nat, MessageInfo>, uid: nat, words: seq<string>)
    ensures AddKeywords(cache, uid, words) ==
            if uid in cache then cache[uid := cache[uid].(keywords := cache[uid].keywords + NonEmpty(words))] else cache
  {
    if words == [] {
      assert uid in cache ==> cache[uid].keywords + [] == cache[uid].keywords;
    } else {
      var n := |words| - 1;
      AddKeywordsIs(cache, uid, words[..n]);
      var head := NonEmpty(words[..n]);
      assert head + [] == head;
      assert uid in cache ==> cache[uid].keywords + (head + [words[n]]) == cache[uid].keywords + head + [words[n]];
    }
  }

  lemma KeywordsReadNext(cache: map<nat, MessageInfo>, keywords: KeywordTable, done: set<nat>, uid: nat)
    requires uid !in done
    ensures KeywordsRead(cache, keywords, done + {uid}) ==
            AddKeywords(KeywordsRead(cache, keywords, done), uid, if uid in keywords then keywords[uid] else [])
  {
    var words := if uid in keywords then keywords[uid] else [];
    var before := KeywordsRead(cache, keywords, done);
    AddKeywordsIs(before, uid, words);
    assert uid !in keywords ==> NonEmpty(words) == [];
    var after := KeywordsRead(cache, keywords, done + {uid});
    assert after.Keys == cache.Keys;
    if uid in cache {
      assert after == before[uid := before[uid].(keywords := before[uid].keywords + Stored(keywords, uid))];
    } else {
      assert after == before;
    }
  }

  // How often a differential load is replaced by a full one.

  /** The limit on consecutive differential loads, if there is one. */
  predicate LimitReached(iterations: nat, limit: int) {
    limit > 0 && iterations >= limit - 1
  }

  /** The iteration counter after a full load and a number of updates. */
  function Iterations(limit: int, updates: nat): nat {
    if updates == 0 then 0 else
    var before := Iterations(limit, updates - 1);
    if LimitReached(before, limit) then 0 else before + 1
  }

  lemma Products(d: nat, k: int)
    ensures k >= 1 ==> d * k >= d
    ensures k <= -1 ==> d * k + d <= 0
  {
    if k >= 1 {
      assert d * k == d * (k - 1) + d;
    } else if k <= -1 {
      assert d * k == d * (k + 1) - d;
    }
  }

  lemma RemainderIs(n: nat, d: nat, q: nat, r: nat)
    requires r < d && n == d * q + r
    ensures n % d == r
  {
    var p, m := n / d, n % d;
    assert n == d * p + m;
    Products(d, p - q);
    assert d * (p - q) == d * p - d * q;
  }

  lemma NextRemainder(n: nat, d: nat)
    requires d > 0
    ensures (n + 1) % d == if n % d + 1 == d then 0 else n % d + 1
  {
    var q: nat, r: nat := n / d, n % d;
    assert n == d * q + r;
    if r + 1 == d {
      assert d * (q + 1) == d * q + d;
      RemainderIs(n + 1, d, q + 1, 0);
    } else {
      RemainderIs(n + 1, d, q, r + 1);
    }
  }

  /** With a positive limit exactly every limit-th update after a full load is a full load, otherwise none. */
  lemma {:induction false} FullLoadEvery(limit: int, updates: nat)
    ensures Iterations(limit, updates) == if limit > 0 then updates % limit else updates
    ensures LimitReached(Iterations(limit, updates), limit) <==> limit > 0 && (updates + 1) % limit == 0
  {
    if limit > 0 {
      NextRemainder(updates, limit);
    }
    if updates > 0 {
      FullLoadEvery(limit, updates - 1);
      if limit > 0 {
        NextRemainder(updates - 1, limit);
      }
    }
  }

  class MailboxState {
    var msginfo: map<nat, MessageInfo>
    var ids: map<nat, nat>
    var msn: map<nat, nat>
    var total: nat
    var uidnext: nat
    var modseq: nat
    var stateSeq: nat
    var recent: nat
    var iterations: nat

    ghost function State(): View
      reads this
    {
      View(msginfo, ids, msn, total, uidnext)
    }

    constructor ()
      ensures State() == View(map[], map[], map[], 0, 0)
      ensures modseq == 0 && stateSeq == 0 && recent == 0 && iterations == 0
    {
      msginfo, ids, msn := map[], map[], map[];
      total, uidnext, modseq, stateSeq, recent, iterations := 0, 0, 0, 0, 0, 0;
    }

    method Remap()
      modifies this`ids, this`msn
      ensures Mapped(State())
    {
      ids, msn := NumberMessages(msginfo);
    }

    method AddMsginfo(uid: nat, info: MessageInfo)
      modifies this
      ensures msginfo == old(msginfo)[uid := info]
      ensures Mapped(State())
      ensures modseq == if info.flags.recent then Decrement64(old(modseq)) else old(modseq)
      ensures recent == old(recent) + if info.flags.recent then 1 else 0
      ensures total == old(total) && uidnext == old(uidnext) && stateSeq == old(stateSeq)
    {
      msginfo := msginfo[uid := info];
      if info.flags.recent {
        modseq := Decrement64(modseq);
        recent := recent + 1;
      }
      Remap();
    }

    method RemoveUid(uid: nat) returns (success: bool)
      modifies this`msginfo, this`ids, this`msn, this`total
      ensures success <==> uid in old(msginfo)
      ensures success ==> State() == Removed(old(State()), uid)
      ensures !success ==> State() == old(State())
    {
      if uid !in msginfo {
        return false;
      }
      msginfo := msginfo[uid := msginfo[uid].(status := MESSAGE_STATUS_DELETE)];
      total := Decrement32(total);
      Remap();
      return true;
    }

    method GetExists() returns (n: nat)
      modifies this`total
      ensures n == total == Exists(old(State()))
    {
      var nodes := |ids|;
      if nodes > AsInt32(total) {
        total := nodes;
      }
      n := total;
    }

    method SetExists(n: nat)
      modifies this`total
      ensures total == n
    {
      total := n;
    }

    /** The row loop of `state_load_messages`, for a result set in the given order. */
    method LoadRows(rows: Table, order: seq<nat>, cold: bool)
      requires Elements(order) <= rows.Keys && Distinct(order)
      modifies this`msginfo
      ensures msginfo == RowsRead(old(msginfo), rows, Elements(order), cold)
    {
      ghost var cache := msginfo;
      for i := 0 to |order|
        invariant Elements(order[..i]) <= rows.Keys
        invariant msginfo == RowFold(cache, rows, order[..i], cold)
      {
        assert order[..i + 1][..i] == order[..i] && order[..i + 1][i] == order[i];
        assert order[i] in Elements(order);
        assert Elements(order[..i + 1]) <= Elements(order);
        var id := order[i];
        msginfo := LoadRow(msginfo, id, rows[id], cold);
      }
      assert order[..|order|] == order;
      RowFoldIsRead(cache, rows, order, cold);
    }

    /** One row: find or create the entry, refill it, and drop it once its expunge was announced. */
    static method LoadRow(cache: map<nat, MessageInfo>, id: nat, row: Row, cold: bool)
      returns (after: map<nat, MessageInfo>)
      ensures after == RowRead(cache, id, row, cold)
      ensures id in after ==> ShowsRow(after[id], id, row, [])
    {
      RowShown(cache, id, row, cold);
      var expunge, expunged := 0, false;
      if !cold {
        if id !in cache {
          if row.status >= MESSAGE_STATUS_DELETE {
            return cache;
          }
        } else {
          expunge, expunged := cache[id].expunge, cache[id].expunged;
        }
      }
      if row.status >= MESSAGE_STATUS_DELETE || row.flags.deleted || expunged || expunge >= 1 {
        expunge := expunge + 1;
        if expunged {
          return cache - {id};
        }
      }
      var keywords := [];
      if row.flags.seen {
        keywords := ["\\Seen"];
      }
      after := cache[id := InfoOf(id, row, keywords, expunge, expunged)];
    }

    /** The keyword loop of `state_load_messages`. */
    method LoadKeywords(keywords: KeywordTable, order: seq<nat>)
      requires StrictlyAscending(order)
      modifies this`msginfo
      ensures msginfo == KeywordsRead(old(msginfo), keywords, Elements(order))
    {
      ghost var cache := msginfo;
      assert KeywordsRead(cache, keywords, {}) == cache;
      WholePrefix(order);
      for i := 0 to |order|
        invariant msginfo == KeywordsRead(cache, keywords, Elements(order[..i]))
      {
        PrefixGrows(order, i);
        var uid := order[i];
        var words := if uid in keywords then keywords[uid] else [];
        KeywordsReadNext(cache, keywords, Elements(order[..i]), uid);
        ghost var before := msginfo;
        for j := 0 to |words|
          invariant msginfo == AddKeywords(before, uid, words[..j])
        {
          assert words[..j + 1][..j] == words[..j];
          if words[j] != "" && uid in msginfo {
            msginfo := msginfo[uid := msginfo[uid].(keywords := msginfo[uid].keywords + [words[j]])];
          }
        }
        assert words[..|words|] == words;
      }
    }

    /**
     `state_load_messages`: the rows and the keywords may come from different
     moments of the database.
     */
    method LoadMessages(rows: Table, order: seq<nat>, laterRows: Table, keywords: KeywordTable, cold: bool)
      requires Distinct(order) && Elements(order) == Selection(rows, stateSeq, cold)
      modifies this`msginfo, this`ids, this`msn, this`stateSeq
      ensures stateSeq == modseq && Mapped(State())
      ensures var read := RowsRead(old(msginfo), rows, Selection(rows, old(stateSeq), cold), cold);
              msginfo == if order == [] then read
                         else KeywordsRead(read, keywords, Selection(laterRows, old(stateSeq), cold))
    {
      LoadRows(rows, order, cold);
      if order != [] {
        var later := TreeKeys(Selection(laterRows, stateSeq, cold));
        LoadKeywords(keywords, later);
      }
      stateSeq := modseq;
      Remap();
    }

    /** `state_load_metadata`: the counters, read before the rows. */
    method LoadMetadata(counter: nat, count: nat, next: nat)
      modifies this`modseq, this`total, this`uidnext
      ensures modseq == counter && total == count && uidnext == next
    {
      modseq, total, uidnext := counter, count, next;
    }

    /** Moves the cached messages of the old state into this new one. */
    method TakeMessages(from: MailboxState)
      requires from != this && msginfo == map[]
      modifies this`msginfo, from`msginfo
      ensures msginfo == old(from.msginfo) && from.msginfo == map[]
    {
      msginfo, from.msginfo := Trees.Merge(msginfo, from.msginfo, Trees.Or);
    }

    /** `MailboxState_new`: a full load. */
    static method Load(counter: nat, count: nat, next: nat, rows: Table, order: seq<nat>,
                       laterRows: Table, keywords: KeywordTable)
      returns (m: MailboxState)
      requires Distinct(order) && Elements(order) == Selection(rows, 0, true)
      ensures fresh(m) && Mapped(m.State())
      ensures m.modseq == m.stateSeq == counter && m.total == count && m.uidnext == next && m.iterations == 0
      ensures var read := RowsRead(map[], rows, Selection(rows, 0, true), true);
              m.msginfo == if order == [] then read else KeywordsRead(read, keywords, Selection(laterRows, 0, true))
    {
      m := new MailboxState();
      m.LoadMetadata(counter, count, next);
      m.LoadMessages(rows, order, laterRows, keywords, true);
    }

    /**
     `MailboxState_update`: the new state takes the messages out of the old one and
     patches them, or is a full load once the limit is reached.
     */
    static method Update(from: MailboxState, limit: int, counter: nat, count: nat, next: nat, rows: Table,
                         order: seq<nat>, laterRows: Table, keywords: KeywordTable)
      returns (m: MailboxState)
      requires Distinct(order)
      requires var full := LimitReached(from.iterations, limit);
               Elements(order) == Selection(rows, if full then 0 else from.stateSeq, full)
      modifies from`msginfo, from`modseq
      ensures fresh(m) && Mapped(m.State())
      ensures m.modseq == m.stateSeq == counter && m.total == count && m.uidnext == next
      ensures limit > 0 && from.iterations >= limit - 1 ==>
                && from.msginfo == old(from.msginfo) && from.modseq == old(from.modseq) && m.iterations == 0
                && var read := RowsRead(map[], rows, Selection(rows, 0, true), true);
                   m.msginfo == if order == [] then read
                                else KeywordsRead(read, keywords, Selection(laterRows, 0, true))
      ensures limit <= 0 || from.iterations < limit - 1 ==>
                && from.msginfo == map[] && from.modseq == 0 && m.iterations == from.iterations + 1
                && var read := RowsRead(old(from.msginfo), rows, Selection(rows, from.stateSeq, false), false);
                   m.msginfo == if order == [] then read
                                else KeywordsRead(read, keywords, Selection(laterRows, from.stateSeq, false))
    {
      if LimitReached(from.iterations, limit) {
        m := Load(counter, count, next, rows, order, laterRows, keywords);
        return;
      }
      m := new MailboxState();
      m.iterations := from.iterations + 1;
      m.stateSeq := from.stateSeq;
      m.TakeMessages(from);
      from.modseq := 0;
      m.LoadMetadata(counter, count, next);
      m.LoadMessages(rows, order, laterRows, keywords, false);
    }
  }
}
