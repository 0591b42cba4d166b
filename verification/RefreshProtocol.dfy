/**
 The refresh protocol: writers change or insert a row and then, atomically, bump
 the mailbox counter and stamp the row; a reader reads the counter, then the
 rows, then the keywords. All steps interleave freely.
 */
module RefreshProtocol {
  import opened MailboxView
  import opened RefreshSpec

  datatype Db = Db(rows: Table, keywords: KeywordTable, counter: nat)

  datatype Phase =
    | Idle
    | GotCounter(seqno: nat, cold: bool)
    | GotRows(seqno: nat, cold: bool, sel: set<nat>)

  /**
   `pending` maps each writer that still owes a bump to the message it changed.
   `stateSeq` is the counter of the last load; `cached` is the counter that is
   compared, which is read again whenever it is 0.
   */
  datatype Sys = Sys(
    db: Db, pending: map<nat, nat>,
    cache: map<nat, MessageInfo>, stateSeq: nat, cached: nat, loaded: bool, phase: Phase)

  datatype Step =
    | Insert(writer: nat, uid: nat, row: Row)
    | Change(writer: nat, uid: nat, flags: Flags, keywords: seq<string>)
    | Bump(writer: nat)
    | BumpOnly
    | ReadCounter(cold: bool)
    | ReadRows
    | ReadKeywords
    | GetSeq

  predicate Enabled(s: Sys, step: Step) {
    match step
    case Insert(w, uid, row) => w !in s.pending && uid !in s.db.rows && row.modseq == 0
    case Change(w, uid, _, _) => Live(s.db.rows, uid) && (w in s.pending ==> s.pending[w] == uid)
    case Bump(w) => w in s.pending && s.pending[w] in s.db.rows
    case BumpOnly => true
    case ReadCounter(cold) => s.phase.Idle? && (cold || s.loaded)
    case ReadRows => s.phase.GotCounter?
    case ReadKeywords => s.phase.GotRows?
    case GetSeq => s.phase.Idle? && s.loaded
  }

  /** `db_mailbox_seq_update`: one transaction. */
  function Stamp(db: Db, uid: nat): Db
    requires uid in db.rows
  {
    var counter := db.counter + 1;
    var row := db.rows[uid];
    var stamped := if row.modseq < counter then row.(modseq := counter) else row;
    db.(counter := counter, rows := db.rows[uid := stamped])
  }

  /** The end of a load: both counters are the one read at its start. */
  function Loaded(s: Sys, cache: map<nat, MessageInfo>): Sys
    requires !s.phase.Idle?
  {
    s.(cache := cache, stateSeq := s.phase.seqno, cached := s.phase.seqno, loaded := true, phase := Idle)
  }

  function Next(s: Sys, step: Step): Sys
    requires Enabled(s, step)
  {
    match step
    case Insert(w, uid, row) =>
      s.(db := s.db.(rows := s.db.rows[uid := row]), pending := s.pending[w := uid])
    case Change(w, uid, flags, keywords) =>
      s.(db := s.db.(rows := s.db.rows[uid := s.db.rows[uid].(flags := flags)],
                     keywords := s.db.keywords[uid := keywords]),
         pending := s.pending[w := uid])
    case Bump(w) =>
      s.(db := Stamp(s.db, s.pending[w]), pending := s.pending - {w})
    case BumpOnly =>
      s.(db := s.db.(counter := s.db.counter + 1))
    case ReadCounter(cold) =>
      s.(phase := GotCounter(s.db.counter, cold))
    case ReadRows =>
      var sel := Selection(s.db.rows, s.stateSeq, s.phase.cold);
      var cache := RowsRead(if s.phase.cold then map[] else s.cache, s.db.rows, sel, s.phase.cold);
      if sel == {} then Loaded(s, cache)
      else s.(cache := cache, phase := GotRows(s.phase.seqno, s.phase.cold, sel))
    case ReadKeywords =>
      var sel := Selection(s.db.rows, s.stateSeq, s.phase.cold);
      Loaded(s, KeywordsRead(s.cache, s.db.keywords, sel))
    case GetSeq =>
      s.(cached := if s.cached == 0 then s.db.counter else s.cached)
  }

  // The invariant, message by message.

  predicate Owed(s: Sys, uid: nat) {
    uid in s.pending.Values
  }

  predicate StampedAfter(s: Sys, uid: nat, seqno: nat) {
    uid in s.db.rows && s.db.rows[uid].modseq > seqno
  }

  predicate CacheAgrees(s: Sys, uid: nat) {
    Agrees(s.cache, s.db.rows, s.db.keywords, uid)
  }

  /** The row has been read but its keywords have not. */
  predicate HalfRead(s: Sys, uid: nat)
    requires s.phase.GotRows?
  {
    && uid in s.phase.sel && uid in s.db.rows
    && Selected(s.db.rows[uid], s.stateSeq, s.phase.cold)
    && (Live(s.db.rows, uid) ==>
          uid in s.cache && Core(s.cache[uid]) == InfoOf(uid, s.db.rows[uid], SeenKeyword(s.db.rows[uid]), 0, false))
  }

  /** The row was not selected and will not be. */
  predicate PassedOver(s: Sys, uid: nat)
    requires s.phase.GotRows?
  {
    && uid !in s.phase.sel
    && !(uid in s.db.rows && Selected(s.db.rows[uid], s.stateSeq, s.phase.cold))
    && CacheAgrees(s, uid)
  }

  predicate UpToDate(s: Sys, uid: nat) {
    if s.phase.GotRows? then HalfRead(s, uid) || PassedOver(s, uid) else s.loaded ==> CacheAgrees(s, uid)
  }

  /** A live row whose stamp the cache does not have. */
  predicate MissedStamp(s: Sys, uid: nat) {
    Live(s.db.rows, uid) && !(uid in s.cache && s.cache[uid].modseq == s.db.rows[uid].modseq)
  }

  predicate Settled(s: Sys, uid: nat) {
    || UpToDate(s, uid)
    || ((Live(s.db.rows, uid) ==> MissedStamp(s, uid)) &&
        StampedAfter(s, uid, if s.phase.GotRows? then s.phase.seqno else s.stateSeq))
  }

  predicate RowSound(s: Sys, uid: nat) {
    && (uid in s.db.rows ==> s.db.rows[uid].modseq <= s.db.counter)
    && (uid in s.cache ==>
          && uid in s.db.rows && s.cache[uid].status == s.db.rows[uid].status
          && s.cache[uid].modseq <= s.db.rows[uid].modseq && !s.cache[uid].expunged)
    && (Owed(s, uid) ==> uid in s.db.rows)
  }

  predicate CountersSound(s: Sys) {
    && s.stateSeq <= s.db.counter && s.cached <= s.db.counter && (s.cached == s.stateSeq || s.stateSeq == 0)
    && (!s.phase.Idle? ==> s.phase.seqno <= s.db.counter && (s.phase.cold || s.loaded))
  }

  predicate Good(s: Sys, uid: nat) {
    RowSound(s, uid) && (Owed(s, uid) || Settled(s, uid))
  }

  ghost predicate Inv(s: Sys) {
    CountersSound(s) && forall uid :: Good(s, uid)
  }

  /** Before the first load: any tables whose stamps the counter covers. */
  ghost predicate Init(s: Sys) {
    && s.pending == map[] && s.cache == map[] && s.stateSeq == 0 && s.cached == 0 && !s.loaded && s.phase.Idle?
    && forall uid :: uid in s.db.rows ==> s.db.rows[uid].modseq <= s.db.counter
  }

  lemma InitInv(s: Sys)
    requires Init(s)
    ensures Inv(s)
  {
  }

  // One lemma per kind of step.

  lemma InsertKeeps(s: Sys, w: nat, target: nat, row: Row, uid: nat)
    requires Enabled(s, Insert(w, target, row)) && CountersSound(s) && Good(s, uid)
    ensures Good(Next(s, Insert(w, target, row)), uid)
  {
    var t := Next(s, Insert(w, target, row));
    assert w in t.pending && t.pending[w] == target;
    assert forall v :: v in s.pending ==> t.pending[v] == s.pending[v];
    OwedGrows(s.pending, t.pending, uid);
  }

  lemma OwedGrows(p: map<nat, nat>, q: map<nat, nat>, uid: nat)
    requires forall v :: v in p ==> v in q && q[v] == p[v]
    ensures uid in p.Values ==> uid in q.Values
  {
  }

  lemma ChangeKeeps(s: Sys, w: nat, target: nat, flags: Flags, keywords: seq<string>, uid: nat)
    requires Enabled(s, Change(w, target, flags, keywords)) && CountersSound(s) && Good(s, uid)
    ensures Good(Next(s, Change(w, target, flags, keywords)), uid)
  {
    var t := Next(s, Change(w, target, flags, keywords));
    assert w in t.pending && t.pending[w] == target;
    OwedGrows(s.pending, t.pending, uid);
  }

  lemma BumpKeeps(s: Sys, w: nat, uid: nat)
    requires Enabled(s, Bump(w)) && CountersSound(s) && Good(s, uid)
    ensures Good(Next(s, Bump(w)), uid)
  {
    var t := Next(s, Bump(w));
    var target := s.pending[w];
    OwedGrows(t.pending, s.pending, uid);
    if uid == target {
      assert t.db.rows[uid].modseq == t.db.counter;
    } else if Owed(s, uid) {
      var v :| v in s.pending && s.pending[v] == uid;
      assert v in t.pending && t.pending[v] == uid;
    }
  }

  lemma BumpOnlyKeeps(s: Sys, uid: nat)
    requires CountersSound(s) && Good(s, uid)
    ensures Good(Next(s, BumpOnly), uid)
  {
  }

  lemma ReadCounterKeeps(s: Sys, cold: bool, uid: nat)
    requires Enabled(s, ReadCounter(cold)) && CountersSound(s) && Good(s, uid)
    ensures Good(Next(s, ReadCounter(cold)), uid)
  {
  }

  lemma GetSeqKeeps(s: Sys, uid: nat)
    requires Enabled(s, GetSeq) && CountersSound(s) && Good(s, uid)
    ensures Good(Next(s, GetSeq), uid)
  {
  }

  /** The cache entry of one message after the row query. */
  lemma RowsReadAt(cache: map<nat, MessageInfo>, rows: Table, sel: set<nat>, cold: bool, uid: nat)
    requires sel <= rows.Keys
    ensures var after := RowsRead(cache, rows, sel, cold);
            if uid in sel then
              && (uid in after <==> uid in RowRead(cache, uid, rows[uid], cold))
              && (uid in after ==> after[uid] == RowRead(cache, uid, rows[uid], cold)[uid])
            else
              && (uid in after <==> uid in cache)
              && (uid in after ==> after[uid] == cache[uid])
  {
  }

  lemma ColdRowsKeep(s: Sys, uid: nat)
    requires Enabled(s, ReadRows) && s.phase.cold && CountersSound(s) && Good(s, uid)
    ensures Good(Next(s, ReadRows), uid)
  {
    RowsReadAt(map[], s.db.rows, Selection(s.db.rows, s.stateSeq, true), true, uid);
  }

  lemma PatchRowsKeep(s: Sys, uid: nat)
    requires Enabled(s, ReadRows) && !s.phase.cold && CountersSound(s) && Good(s, uid)
    ensures Good(Next(s, ReadRows), uid)
  {
    RowsReadAt(s.cache, s.db.rows, Selection(s.db.rows, s.stateSeq, false), false, uid);
  }

  lemma ReadKeywordsKeeps(s: Sys, uid: nat)
    requires Enabled(s, ReadKeywords) && CountersSound(s) && Good(s, uid)
    ensures Good(Next(s, ReadKeywords), uid)
  {
  }

  lemma StepKeeps(s: Sys, step: Step, uid: nat)
    requires Enabled(s, step) && CountersSound(s) && Good(s, uid)
    ensures Good(Next(s, step), uid)
  {
    match step
    case Insert(w, target, row) => InsertKeeps(s, w, target, row, uid);
    case Change(w, target, flags, keywords) => ChangeKeeps(s, w, target, flags, keywords, uid);
    case Bump(w) => BumpKeeps(s, w, uid);
    case BumpOnly => BumpOnlyKeeps(s, uid);
    case ReadCounter(cold) => ReadCounterKeeps(s, cold, uid);
    case ReadRows => if s.phase.cold { ColdRowsKeep(s, uid); } else { PatchRowsKeep(s, uid); }
    case ReadKeywords => ReadKeywordsKeeps(s, uid);
    case GetSeq => GetSeqKeeps(s, uid);
  }

  lemma StepKeepsInv(s: Sys, step: Step)
    requires Enabled(s, step) && Inv(s)
    ensures Inv(Next(s, step))
  {
    forall uid
      ensures Good(Next(s, step), uid)
    {
      StepKeeps(s, step, uid);
    }
  }

  // Whole runs.

  ghost predicate Run(s: Sys, steps: seq<Step>, t: Sys) {
    if steps == [] then s == t else
    var n := |steps| - 1;
    exists mid :: Run(s, steps[..n], mid) && Enabled(mid, steps[n]) && t == Next(mid, steps[n])
  }

  lemma {:induction false} RunKeepsInv(s: Sys, steps: seq<Step>, t: Sys)
    requires Inv(s) && Run(s, steps, t)
    ensures Inv(t)
  {
    if steps != [] {
      var n := |steps| - 1;
      var mid :| Run(s, steps[..n], mid) && Enabled(mid, steps[n]) && t == Next(mid, steps[n]);
      RunKeepsInv(s, steps[..n], mid);
      StepKeepsInv(mid, steps[n]);
    }
  }

  /**
   After any interleaving, whenever the reader is between refreshes, every message
   without an owed bump and without a stamp newer than the state agrees with the
   tables in all fields.
   */
  lemma RefreshAgreement(s: Sys, steps: seq<Step>, t: Sys, uid: nat)
    requires Init(s) && Run(s, steps, t) && t.phase.Idle? && t.loaded
    ensures Owed(t, uid) || StampedAfter(t, uid, t.stateSeq) || CacheAgrees(t, uid)
  {
    InitInv(s);
    RunKeepsInv(s, steps, t);
    assert Good(t, uid);
  }

  /** A refresh that no writer interrupts. */
  function Refreshed(s: Sys, cold: bool): Sys
    requires Enabled(s, ReadCounter(cold))
  {
    var rowsRead := Next(Next(s, ReadCounter(cold)), ReadRows);
    if rowsRead.phase.GotRows? then Next(rowsRead, ReadKeywords) else rowsRead
  }

  lemma RefreshedInv(s: Sys, cold: bool)
    requires Enabled(s, ReadCounter(cold)) && Inv(s)
    ensures Inv(Refreshed(s, cold))
    ensures Refreshed(s, cold).phase.Idle? && Refreshed(s, cold).loaded
    ensures Refreshed(s, cold).stateSeq == Refreshed(s, cold).cached == s.db.counter
    ensures Refreshed(s, cold).db == s.db
    ensures Refreshed(s, cold).pending == s.pending
  {
    var counted := Next(s, ReadCounter(cold));
    StepKeepsInv(s, ReadCounter(cold));
    StepKeepsInv(counted, ReadRows);
    var rowsRead := Next(counted, ReadRows);
    if rowsRead.phase.GotRows? {
      StepKeepsInv(rowsRead, ReadKeywords);
    }
  }

  /** With nothing owed and the counter where the state left it, the cache is a full reload. */
  lemma UnchangedIsReload(s: Sys)
    requires Inv(s) && s.phase.Idle? && s.loaded && s.pending == map[]
    requires s.stateSeq == s.db.counter
    ensures ShownPart(s.cache) == ShownPart(FullReload(s.db.rows, s.db.keywords))
  {
    forall uid
      ensures Agrees(s.cache, s.db.rows, s.db.keywords, uid)
    {
      assert Good(s, uid);
    }
    AgreementIsReload(s.cache, s.db.rows, s.db.keywords);
  }

  /**
   From any reachable state in which no bump is owed, a differential refresh leaves
   the cache showing exactly what a full reload shows.
   */
  lemma RefreshIsReload(init: Sys, steps: seq<Step>, s: Sys)
    requires Init(init) && Run(init, steps, s)
    requires s.phase.Idle? && s.loaded && s.pending == map[]
    ensures ShownPart(Refreshed(s, false).cache) == ShownPart(FullReload(s.db.rows, s.db.keywords))
  {
    InitInv(init);
    RunKeepsInv(init, steps, s);
    RefreshedInv(s, false);
    UnchangedIsReload(Refreshed(s, false));
  }

  /** So it shows exactly the live rows, each with all its fields and keywords. */
  lemma RefreshShowsRows(init: Sys, steps: seq<Step>, s: Sys, uid: nat)
    requires Init(init) && Run(init, steps, s)
    requires s.phase.Idle? && s.loaded && s.pending == map[]
    ensures var cache := Refreshed(s, false).cache;
            && (Shown(cache, uid) <==> Live(s.db.rows, uid))
            && (Live(s.db.rows, uid) ==> ShowsRow(cache[uid], uid, s.db.rows[uid], Words(s.db.keywords, uid)))
  {
    RefreshIsReload(init, steps, s);
    ReloadIsAgreement(Refreshed(s, false).cache, s.db.rows, s.db.keywords, uid);
    AgreesExactly(Refreshed(s, false).cache, s.db.rows, s.db.keywords, uid);
  }

  // Writers outside the protocol: STORE stamps with a counter value it reserved
  // before changing the row, and EXPUNGE does not stamp at all.

  /** A changed row is picked up by the next refresh exactly when its stamp is recent and it is not purged. */
  lemma PickedUpExactly(s: Sys, uid: nat)
    requires s.phase.Idle? && s.loaded
    requires uid in s.cache && !s.cache[uid].expunged && uid in s.db.rows
    requires !CacheAgrees(s, uid)
    ensures CacheAgrees(Refreshed(s, false), uid) <==>
            s.db.rows[uid].modseq >= s.stateSeq - 1 && s.db.rows[uid].status <= MESSAGE_STATUS_DELETE
  {
    RowsReadAt(s.cache, s.db.rows, Selection(s.db.rows, s.stateSeq, false), false, uid);
  }

  /** STORE's change of one row: new flags and keywords, stamped with the reserved value. */
  function StoreApplied(s: Sys, uid: nat, reserved: nat, flags: Flags, keywords: seq<string>): Sys
    requires uid in s.db.rows
  {
    var row := s.db.rows[uid].(flags := flags);
    var stamped := if row.modseq < reserved then row.(modseq := reserved) else row;
    s.(db := s.db.(rows := s.db.rows[uid := stamped], keywords := s.db.keywords[uid := keywords]))
  }

  /** A completed STORE reaches the cache at the next refresh iff its stamp is not more than one behind. */
  lemma StoreSeenExactly(s: Sys, uid: nat, reserved: nat, flags: Flags, keywords: seq<string>)
    requires Good(s, uid) && s.phase.Idle? && s.loaded && Live(s.db.rows, uid) && CacheAgrees(s, uid)
    requires !CacheAgrees(StoreApplied(s, uid, reserved, flags, keywords), uid)
    ensures var t := StoreApplied(s, uid, reserved, flags, keywords);
            CacheAgrees(Refreshed(t, false), uid) <==>
            reserved + 1 >= s.stateSeq || s.db.rows[uid].modseq + 1 >= s.stateSeq
  {
    PickedUpExactly(StoreApplied(s, uid, reserved, flags, keywords), uid);
  }

  function ThreeMore(s: Sys): Sys {
    Next(Next(Next(s, BumpOnly), BumpOnly), BumpOnly)
  }

  lemma ThreeMoreInv(s: Sys)
    requires Inv(s)
    ensures Inv(ThreeMore(s)) && ThreeMore(s) == s.(db := s.db.(counter := s.db.counter + 3))
  {
    StepKeepsInv(s, BumpOnly);
    StepKeepsInv(Next(s, BumpOnly), BumpOnly);
    StepKeepsInv(Next(Next(s, BumpOnly), BumpOnly), BumpOnly);
  }

  /**
   A STORE that reserves the first of three bumps, and changes the row only after a
   refresh has seen them all, finds the reader two stamps ahead of its own.
   */
  lemma ReaderAhead(s: Sys, uid: nat)
    requires Inv(s) && s.phase.Idle? && s.loaded && s.pending == map[] && Live(s.db.rows, uid)
    ensures var t := Refreshed(ThreeMore(s), false);
            && Good(t, uid) && t.phase.Idle? && t.loaded && t.pending == map[] && Live(t.db.rows, uid)
            && t.db.rows[uid].modseq < s.db.counter + 1 && t.stateSeq == (s.db.counter + 1) + 2
  {
    ThreeMoreInv(s);
    RefreshedInv(ThreeMore(s), false);
    assert Good(s, uid);
  }

  /** Such a STORE is lost: the next refresh leaves the cache stale although nothing is owed. */
  lemma StoreLost(t: Sys, uid: nat, reserved: nat, flags: Flags, keywords: seq<string>)
    requires Good(t, uid) && t.phase.Idle? && t.loaded && t.pending == map[] && Live(t.db.rows, uid)
    requires t.db.rows[uid].modseq < reserved && t.stateSeq == reserved + 2
    ensures !CacheAgrees(Refreshed(StoreApplied(t, uid, reserved, flags, keywords), false), uid)
  {
    StoreSeenExactly(t, uid, reserved, flags, keywords);
  }

  /** EXPUNGE's change: the row is marked deleted and the counter bumped, without a stamp. */
  function Expunged(s: Sys, uid: nat): Sys
    requires uid in s.db.rows
  {
    s.(db := s.db.(rows := s.db.rows[uid := s.db.rows[uid].(status := MESSAGE_STATUS_DELETE)],
                   counter := s.db.counter + 1))
  }

  /** Another session's EXPUNGE disappears from the view at the next refresh iff the row was stamped recently. */
  lemma ExpungeSeenExactly(s: Sys, uid: nat)
    requires Inv(s) && s.phase.Idle? && s.loaded && Live(s.db.rows, uid) && CacheAgrees(s, uid)
    ensures CacheAgrees(Refreshed(Expunged(s, uid), false), uid) <==> s.db.rows[uid].modseq + 1 >= s.stateSeq
  {
    assert Good(s, uid);
    PickedUpExactly(Expunged(s, uid), uid);
  }
}
