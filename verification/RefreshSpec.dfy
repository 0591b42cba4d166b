/**
 What a load of the mailbox state reads from the message and keyword tables: a
 full reload, or a patch of the cached messages with the recently stamped rows.
 */
module RefreshSpec {
  import opened SortedSets
  import opened MailboxView

  const INTERNALDATE_LEN: nat := 27
  const DEFAULT_DATE: string := "01-Jan-1970 00:00:01 +0100"

  datatype Date = Missing | Text(text: string)

  /** A row of the messages table joined with its physical message. */
  datatype Row = Row(flags: Flags, date: Date, rfcsize: nat, modseq: nat, status: nat, physId: nat)

  type Table = map<nat, Row>
  type KeywordTable = map<nat, seq<string>>

  function RenderDate(date: Date): string {
    var text := if date.Text? then date.text else DEFAULT_DATE;
    if |text| < INTERNALDATE_LEN then text else text[..INTERNALDATE_LEN - 1]
  }

  function SeenKeyword(row: Row): seq<string> {
    if row.flags.seen then ["\\Seen"] else []
  }

  function NonEmpty(words: seq<string>): seq<string> {
    if words == [] then [] else
    NonEmpty(words[..|words| - 1]) + if words[|words| - 1] == "" then [] else [words[|words| - 1]]
  }

  function Stored(keywords: KeywordTable, uid: nat): seq<string> {
    if uid in keywords then NonEmpty(keywords[uid]) else []
  }

  function InfoOf(uid: nat, row: Row, keywords: seq<string>, expunge: nat, expunged: bool): MessageInfo {
    MessageInfo(uid, row.flags, RenderDate(row.date), row.rfcsize, row.modseq, row.status, row.physId,
                keywords, expunge, expunged)
  }

  predicate Trashed(row: Row) {
    row.status >= MESSAGE_STATUS_DELETE || row.flags.deleted
  }

  function NewEntry(uid: nat, row: Row): MessageInfo {
    InfoOf(uid, row, SeenKeyword(row), if Trashed(row) then 1 else 0, false)
  }

  function PatchedEntry(old_: MessageInfo, uid: nat, row: Row): MessageInfo {
    var bump := if Trashed(row) || old_.expunged || old_.expunge >= 1 then 1 else 0;
    InfoOf(uid, row, SeenKeyword(row), old_.expunge + bump, old_.expunged)
  }

  /** The filter of both queries: live rows, or rows stamped since one before `stateSeq`. */
  predicate Selected(row: Row, stateSeq: nat, cold: bool) {
    if cold then row.status < MESSAGE_STATUS_DELETE
    else row.modseq >= stateSeq - 1 && row.status <= MESSAGE_STATUS_DELETE
  }

  function Selection(rows: Table, stateSeq: nat, cold: bool): set<nat> {
    set u | u in rows && Selected(rows[u], stateSeq, cold)
  }

  /** What one row of the result set does to the cache. */
  function RowRead(cache: map<nat, MessageInfo>, uid: nat, row: Row, cold: bool): map<nat, MessageInfo> {
    if cold then cache[uid := NewEntry(uid, row)]
    else if uid in cache then
      if cache[uid].expunged then cache - {uid} else cache[uid := PatchedEntry(cache[uid], uid, row)]
    else if row.status >= MESSAGE_STATUS_DELETE then cache
    else cache[uid := NewEntry(uid, row)]
  }

  /** The cache after all selected rows have been read. */
  function RowsRead(cache: map<nat, MessageInfo>, rows: Table, sel: set<nat>, cold: bool): map<nat, MessageInfo>
    requires sel <= rows.Keys
  {
    map u | u in cache.Keys + sel && (u in sel ==> u in RowRead(cache, u, rows[u], cold)) ::
      if u in sel then RowRead(cache, u, rows[u], cold)[u] else cache[u]
  }

  /** The cache after the keywords of the selected messages have been appended. */
  function KeywordsRead(cache: map<nat, MessageInfo>, keywords: KeywordTable, sel: set<nat>): map<nat, MessageInfo> {
    map u | u in cache ::
      if u in sel then cache[u].(keywords := cache[u].keywords + Stored(keywords, u)) else cache[u]
  }

  function FullReload(rows: Table, keywords: KeywordTable): map<nat, MessageInfo> {
    var sel := Selection(rows, 0, true);
    KeywordsRead(RowsRead(map[], rows, sel, true), keywords, sel)
  }

  // Agreement of a cache with the tables.

  /** An entry without the bookkeeping of announced expunges. */
  function Core(info: MessageInfo): MessageInfo {
    info.(expunge := 0, expunged := false)
  }

  predicate Live(rows: Table, uid: nat) {
    uid in rows && rows[uid].status < MESSAGE_STATUS_DELETE
  }

  predicate Shown(cache: map<nat, MessageInfo>, uid: nat) {
    uid in cache && cache[uid].status < MESSAGE_STATUS_DELETE
  }

  function Reference(rows: Table, keywords: KeywordTable, uid: nat): MessageInfo
    requires uid in rows
  {
    InfoOf(uid, rows[uid], SeenKeyword(rows[uid]) + Stored(keywords, uid), 0, false)
  }

  predicate Agrees(cache: map<nat, MessageInfo>, rows: Table, keywords: KeywordTable, uid: nat) {
    && (Shown(cache, uid) <==> Live(rows, uid))
    && (Live(rows, uid) ==> Core(cache[uid]) == Reference(rows, keywords, uid))
  }

  /** What the session shows: the live entries, without bookkeeping. */
  function ShownPart(cache: map<nat, MessageInfo>): map<nat, MessageInfo> {
    map u | u in cache && Shown(cache, u) :: Core(cache[u])
  }

  /** A full reload shows every live row with all its fields. */
  lemma ReloadAgrees(rows: Table, keywords: KeywordTable, uid: nat)
    ensures Agrees(FullReload(rows, keywords), rows, keywords, uid)
  {
  }

  lemma SamePart(cache: map<nat, MessageInfo>, rows: Table, keywords: KeywordTable, u: nat)
    requires Agrees(cache, rows, keywords, u)
    ensures u in ShownPart(cache) <==> u in ShownPart(FullReload(rows, keywords))
    ensures u in ShownPart(cache) ==> ShownPart(cache)[u] == ShownPart(FullReload(rows, keywords))[u]
  {
    ReloadAgrees(rows, keywords, u);
  }

  /** Agreement everywhere is equality with a full reload. */
  lemma AgreementIsReload(cache: map<nat, MessageInfo>, rows: Table, keywords: KeywordTable)
    requires forall u :: Agrees(cache, rows, keywords, u)
    ensures ShownPart(cache) == ShownPart(FullReload(rows, keywords))
  {
    var shown, reload := ShownPart(cache), ShownPart(FullReload(rows, keywords));
    forall u
      ensures (u in shown <==> u in reload) && (u in shown ==> shown[u] == reload[u])
    {
      SamePart(cache, rows, keywords, u);
    }
  }

  // What agreement means, field by field.

  /** The stored text cut to 26 characters; a missing date is the start of 1970. */
  predicate DateShown(date: Date, shown: string) {
    match date
    case Missing => shown == "01-Jan-1970 00:00:01 +0100"
    case Text(text) => if |text| < 27 then shown == text else shown == text[..26]
  }

  /** The positions of the non-empty words. */
  function Filled(words: seq<string>): set<nat> {
    set p: nat | p < |words| && words[p] != ""
  }

  /** The words at the given positions. */
  predicate Picked(at: seq<nat>, words: seq<string>, kept: seq<string>) {
    |kept| == |at| && forall i :: 0 <= i < |at| ==> at[i] < |words| && kept[i] == words[at[i]]
  }

  /** These are the non-empty words, in order. */
  ghost predicate Kept(words: seq<string>, kept: seq<string>) {
    Picked(Ascending(Filled(words)), words, kept)
  }

  /** `\Seen` if the flag is set, followed by the non-empty stored words. */
  ghost predicate KeywordsShown(seen: bool, words: seq<string>, shown: seq<string>) {
    var first := if seen then 1 else 0;
    |shown| >= first && (seen ==> shown[0] == "\\Seen") && Kept(words, shown[first..])
  }

  /** The entry has every field of the row, and the stored keywords. */
  ghost predicate ShowsRow(info: MessageInfo, uid: nat, row: Row, words: seq<string>) {
    && info.uid == uid && info.flags == row.flags && DateShown(row.date, info.internaldate)
    && info.rfcsize == row.rfcsize && info.modseq == row.modseq
    && info.status == row.status && info.physId == row.physId
    && KeywordsShown(row.flags.seen, words, info.keywords)
  }

  function Words(keywords: KeywordTable, uid: nat): seq<string> {
    if uid in keywords then keywords[uid] else []
  }

  lemma LastFilled(words: seq<string>, n: nat)
    requires |words| == n + 1
    ensures Filled(words) == Filled(words[..n]) + if words[n] == "" then {} else {n}
  {
  }

  lemma LastAscending(s: set<nat>, n: nat)
    requires forall p :: p in s ==> p < n
    ensures Ascending(s + {n}) == Ascending(s) + [n]
  {
    var r := Ascending(s);
    assert r != [] ==> r[|r| - 1] in Elements(r);
    AppendLarger(r, n);
    AscendingUnique(Ascending(s + {n}), r + [n]);
  }

  lemma PickedSnoc(at: seq<nat>, words: seq<string>, kept: seq<string>, n: nat)
    requires |words| == n + 1 && Picked(at, words[..n], kept)
    ensures Picked(at, words, kept) && Picked(at + [n], words, kept + [words[n]])
  {
  }

  lemma KeptSnoc(words: seq<string>, kept: seq<string>, n: nat)
    requires |words| == n + 1 && Kept(words[..n], kept)
    ensures Kept(words, kept + if words[n] == "" then [] else [words[n]])
  {
    var before := Filled(words[..n]);
    LastFilled(words, n);
    PickedSnoc(Ascending(before), words, kept, n);
    if words[n] == "" {
      assert before + {} == before && kept + [] == kept;
    } else {
      LastAscending(before, n);
    }
  }

  lemma {:induction false} NonEmptyKept(words: seq<string>)
    ensures Kept(words, NonEmpty(words))
  {
    if words == [] {
      assert Filled(words) == {};
    } else {
      NonEmptyKept(words[..|words| - 1]);
      KeptSnoc(words, NonEmpty(words[..|words| - 1]), |words| - 1);
    }
  }

  lemma KeptIsNonEmpty(words: seq<string>, kept: seq<string>)
    ensures Kept(words, kept) <==> kept == NonEmpty(words)
  {
    NonEmptyKept(words);
  }

  lemma KeywordsExactly(row: Row, words: seq<string>, shown: seq<string>)
    ensures KeywordsShown(row.flags.seen, words, shown) <==> shown == SeenKeyword(row) + NonEmpty(words)
  {
    var first := SeenKeyword(row);
    if |shown| >= |first| {
      KeptIsNonEmpty(words, shown[|first|..]);
      assert shown == shown[..|first|] + shown[|first|..];
    }
    assert (first + NonEmpty(words))[|first|..] == NonEmpty(words);
  }

  lemma RowExactly(info: MessageInfo, rows: Table, keywords: KeywordTable, uid: nat)
    requires uid in rows
    ensures Core(info) == Reference(rows, keywords, uid) <==> ShowsRow(info, uid, rows[uid], Words(keywords, uid))
  {
    KeywordsExactly(rows[uid], Words(keywords, uid), info.keywords);
    assert Stored(keywords, uid) == NonEmpty(Words(keywords, uid));
  }

  /** A cache agrees on a message exactly if it shows a live row with all its fields, and no other row. */
  lemma AgreesExactly(cache: map<nat, MessageInfo>, rows: Table, keywords: KeywordTable, uid: nat)
    ensures Agrees(cache, rows, keywords, uid) <==>
            && (Shown(cache, uid) <==> Live(rows, uid))
            && (Live(rows, uid) ==> ShowsRow(cache[uid], uid, rows[uid], Words(keywords, uid)))
  {
    if Live(rows, uid) && Shown(cache, uid) {
      RowExactly(cache[uid], rows, keywords, uid);
    }
  }

  /** A full reload holds exactly the live rows, each with all its fields. */
  lemma ReloadShowsRows(rows: Table, keywords: KeywordTable, uid: nat)
    ensures var cache := FullReload(rows, keywords);
            && (uid in cache <==> uid in rows && rows[uid].status < MESSAGE_STATUS_DELETE)
            && (uid in cache ==> ShowsRow(cache[uid], uid, rows[uid], Words(keywords, uid)))
  {
    ReloadAgrees(rows, keywords, uid);
    AgreesExactly(FullReload(rows, keywords), rows, keywords, uid);
  }

  lemma EntryShown(uid: nat, row: Row, expunge: nat, expunged: bool)
    ensures ShowsRow(InfoOf(uid, row, SeenKeyword(row), expunge, expunged), uid, row, [])
  {
    KeywordsExactly(row, [], SeenKeyword(row));
  }

  /** Wherever a row that was read is cached, all its fields are; the stored keywords follow later. */
  lemma RowShown(cache: map<nat, MessageInfo>, uid: nat, row: Row, cold: bool)
    ensures var after := RowRead(cache, uid, row, cold);
            uid in after ==> ShowsRow(after[uid], uid, row, [])
  {
    var after := RowRead(cache, uid, row, cold);
    if uid in after {
      EntryShown(uid, row, after[uid].expunge, after[uid].expunged);
    }
  }

  /**
   A differential read drops a cached message exactly when its expunge has been
   announced and its row is read again, and adds one exactly for a live row. Each read
   counts from the first one that finds the message \Deleted or worse.
   */
  lemma EntriesExactly(cache: map<nat, MessageInfo>, rows: Table, sel: set<nat>, uid: nat)
    requires sel <= rows.Keys
    ensures var after := RowsRead(cache, rows, sel, false);
            && (uid in cache ==> (uid !in after <==> uid in sel && cache[uid].expunged))
            && (uid !in cache ==> (uid in after <==> uid in sel && rows[uid].status < MESSAGE_STATUS_DELETE))
            && (uid in after && uid in sel ==>
                  var before := if uid in cache then cache[uid].expunge else 0;
                  var found := rows[uid].flags.deleted || rows[uid].status >= MESSAGE_STATUS_DELETE;
                  && !after[uid].expunged && after[uid].expunge == before + if before > 0 || found then 1 else 0)
  {
  }

  /** And conversely: a cache that shows what a reload shows agrees everywhere. */
  lemma ReloadIsAgreement(cache: map<nat, MessageInfo>, rows: Table, keywords: KeywordTable, uid: nat)
    requires ShownPart(cache) == ShownPart(FullReload(rows, keywords))
    ensures Agrees(cache, rows, keywords, uid)
  {
    ReloadAgrees(rows, keywords, uid);
    var reload := FullReload(rows, keywords);
    assert uid in ShownPart(cache) <==> uid in ShownPart(reload);
    assert uid in ShownPart(cache) ==> ShownPart(cache)[uid] == ShownPart(reload)[uid];
  }
}
