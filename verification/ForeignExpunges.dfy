/**
 When a status update announces the expunges of other sessions. The loop looks for
 messages that the new state still holds but no longer numbers; no load leaves such
 messages together with an old state that still has them.
 */
module ForeignExpunges {
  import opened SortedSets
  import opened MailboxView
  import opened RefreshSpec
  import opened SessionSpec
  import opened ExistsSafety

  /** Held by the new state, but not numbered. */
  predicate Gone(n: View, uid: nat) {
    uid in n.msginfo && uid !in n.ids
  }

  /** An old state without messages announces nothing. */
  lemma {:induction false} EmptyOldState(m: View, n: View, command: Command, uids: seq<nat>)
    requires m.msginfo == map[]
    ensures NotifyEach(m, n, command, uids).out == [] && NotifyEach(m, n, command, uids).m == m
  {
    if uids != [] {
      EmptyOldState(m, n, command, uids[..|uids| - 1]);
    }
  }

  lemma {:induction false} NoneGone(m: View, n: View, command: Command, uids: seq<nat>)
    requires forall uid :: uid in uids ==> !Gone(n, uid)
    ensures NotifyEach(m, n, command, uids) == Pair(m, n, [])
  {
    if uids != [] {
      var k := |uids| - 1;
      assert uids[k] in uids && forall uid :: uid in uids[..k] ==> uid in uids;
      NoneGone(m, n, command, uids[..k]);
    }
  }

  /** Silence means that no message of the old view was gone. */
  lemma {:induction false} SilentMeansNoneGone(m: View, n: View, command: Command, uids: seq<nat>)
    requires !command.Fetch? && !command.Store? && !command.Search?
    requires m.ids.Keys <= m.msginfo.Keys && forall uid :: uid in uids ==> uid in m.ids
    requires NotifyEach(m, n, command, uids).out == []
    ensures NotifyEach(m, n, command, uids) == Pair(m, n, [])
    ensures forall uid :: uid in uids ==> !Gone(n, uid)
  {
    if uids != [] {
      var k := |uids| - 1;
      assert uids[k] in uids && forall uid :: uid in uids[..k] ==> uid in uids;
      SilentMeansNoneGone(m, n, command, uids[..k]);
      assert uids == uids[..k] + [uids[k]];
    }
  }

  /** Marked before, or found by the loop. */
  predicate Marked(n: View, uids: seq<nat>, uid: nat)
    requires uid in n.msginfo
  {
    n.msginfo[uid].expunged || (uid in uids && uid !in n.ids)
  }

  /** The loop marks exactly the messages of the old view that are gone, and changes nothing else. */
  lemma {:induction false} MarksExactly(m: View, n: View, command: Command, uids: seq<nat>, uid: nat)
    requires uid in n.msginfo
    ensures var end := NotifyEach(m, n, command, uids).n;
            && end.ids == n.ids && uid in end.msginfo
            && end.msginfo[uid] == n.msginfo[uid].(expunged := Marked(n, uids, uid))
  {
    if uids != [] {
      var k := |uids| - 1;
      MarksExactly(m, n, command, uids[..k], uid);
      assert uids == uids[..k] + [uids[k]];
    }
  }

  /** The old view handed to the loop. */
  lemma OldIds(v: View, stolen: bool)
    requires Mapped(v)
    ensures var m := OldView(v, stolen);
            && m.ids == v.ids && Counted(m).ids == v.ids && Counted(m).msginfo == m.msginfo
            && (stolen ==> m.msginfo == map[]) && (!stolen ==> v.ids.Keys <= m.msginfo.Keys)
            && forall uid :: uid in Descending(m.ids.Keys) <==> uid in v.ids
  {
    assert v.ids.Keys == Visible(v.msginfo);
    assert Elements(Descending(v.ids.Keys)) == v.ids.Keys;
  }

  /** Some message of the old view is held but not numbered by the new state. */
  predicate SomeGone(v: View, loaded: View) {
    exists uid :: uid in v.ids && Gone(loaded, uid)
  }

  lemma LoopSilentExactly(v: View, command: Command, loaded: View, stolen: bool)
    requires Mapped(v)
    ensures var m := OldView(v, stolen);
            NotifyEach(Counted(m), NewView(v, loaded), command, Descending(m.ids.Keys)).out == [] <==>
            command.Fetch? || command.Store? || command.Search? || stolen || !SomeGone(v, loaded)
  {
    var m := OldView(v, stolen);
    var n := NewView(v, loaded);
    var uids := Descending(m.ids.Keys);
    OldIds(v, stolen);
    assert forall uid :: Gone(n, uid) <==> Gone(loaded, uid);
    if command.Fetch? || command.Store? || command.Search? {
      NotifyEachMarks(Counted(m), n, command, uids);
    } else if stolen {
      EmptyOldState(Counted(m), n, command, uids);
    } else if !SomeGone(v, loaded) {
      NoneGone(Counted(m), n, command, uids);
    } else if NotifyEach(Counted(m), n, command, uids).out == [] {
      SilentMeansNoneGone(Counted(m), n, command, uids);
    }
  }

  lemma LongerDiffers(a: seq<Response>, b: seq<Response>)
    ensures a + b == a <==> b == []
  {
    assert |a + b| == |a| + |b|;
  }

  /**
   Beyond its own EXISTS a status update sends something if and only if the command
   allows it, the old state kept its messages, and one of them is held but not
   numbered by the new state.
   */
  lemma AnnouncesExactly(v: View, command: Command, loaded: View, stolen: bool)
    requires Mapped(v)
    ensures StatusUpdate(v, command, loaded, stolen).out != FirstExists(v, command, loaded) <==>
            !command.Fetch? && !command.Store? && !command.Search? && !stolen && SomeGone(v, loaded)
  {
    var m := OldView(v, stolen);
    OldViewRanked(v, stolen);
    ExtraExistsNever(m);
    LoopSilentExactly(v, command, loaded, stolen);
    LongerDiffers(FirstExists(v, command, loaded),
                  NotifyEach(Counted(m), NewView(v, loaded), command, Descending(m.ids.Keys)).out);
    OutputSplits(v, command, loaded, stolen);
  }

  lemma OutputSplits(v: View, command: Command, loaded: View, stolen: bool)
    requires ExtraExists(OldView(v, stolen)) == []
    ensures var m := OldView(v, stolen);
            StatusUpdate(v, command, loaded, stolen).out ==
            FirstExists(v, command, loaded) +
            NotifyEach(Counted(m), NewView(v, loaded), command, Descending(m.ids.Keys)).out
  {
    var m := OldView(v, stolen);
    var out := NotifyEach(Counted(m), NewView(v, loaded), command, Descending(m.ids.Keys)).out;
    assert [] + out == out;
  }

  /** A full load holds live rows only. */
  lemma FullLoadVisible(rows: Table, keywords: KeywordTable, later: set<nat>)
    ensures var read := RowsRead(map[], rows, Selection(rows, 0, true), true);
            Visible(read) == read.Keys && Visible(KeywordsRead(read, keywords, later)) == read.Keys
  {
  }

  /**
   So no load announces them: a full load holds only visible messages, and a
   differential one has taken the messages out of the old state.
   */
  lemma NoForeignExpunge(v: View, command: Command, loaded: View, stolen: bool)
    requires Mapped(v) && Mapped(loaded) && (stolen || Visible(loaded.msginfo) == loaded.msginfo.Keys)
    ensures StatusUpdate(v, command, loaded, stolen).out == FirstExists(v, command, loaded)
  {
    assert loaded.ids.Keys == Visible(loaded.msginfo);
    AnnouncesExactly(v, command, loaded, stolen);
  }

  /**
   A status update marks exactly the messages of the old view that the new one no
   longer numbers; the next differential read of their rows drops them.
   */
  lemma GoneAreMarked(v: View, command: Command, loaded: View, stolen: bool, uid: nat)
    requires Mapped(v) && uid in loaded.msginfo
    ensures var after := StatusUpdate(v, command, loaded, stolen).view;
            && uid in after.msginfo
            && (after.msginfo[uid].expunged <==>
                loaded.msginfo[uid].expunged || (uid in v.ids && uid !in loaded.ids))
  {
    var m := OldView(v, stolen);
    OldIds(v, stolen);
    MarksExactly(Counted(m), NewView(v, loaded), command, Descending(m.ids.Keys), uid);
  }

  /** The new view is numbered as it was loaded. */
  lemma UpdatedIds(v: View, command: Command, loaded: View, stolen: bool)
    requires Mapped(v)
    ensures StatusUpdate(v, command, loaded, stolen).view.ids == loaded.ids
  {
    OldViewRanked(v, stolen);
    NotifyAllMarks(OldView(v, stolen), NewView(v, loaded), command);
  }

  /** After the EXISTS of a status update the client counts every message of the new view. */
  lemma NewMailCounted(v: View, count: int, command: Command, loaded: View, stolen: bool)
    requires Mapped(v) && Mapped(loaded) && (stolen || Visible(loaded.msginfo) == loaded.msginfo.Keys)
    requires SmallView(v) && SmallView(loaded) && ExistsDue(v, command, loaded)
    ensures var end := StatusUpdate(v, command, loaded, stolen);
            end.out == [ExistsResponse(Largest(v, loaded))] && Count(count, end.out) >= |end.view.ids|
  {
    ExistsExactly(v, command, loaded, stolen);
    NoForeignExpunge(v, command, loaded, stolen);
    FirstExactly(v, command, loaded);
  }

  lemma NothingNew(v: View, loaded: View)
    requires loaded.uidnext <= v.uidnext
    ensures FirstExists(v, Noop, loaded) == []
  {
  }

  /** A message that disappears at a NOOP with nothing new: the client hears nothing at all. */
  lemma ExpungeUnannounced(v: View, loaded: View, stolen: bool, uid: nat)
    requires Mapped(v) && Mapped(loaded) && (stolen || Visible(loaded.msginfo) == loaded.msginfo.Keys)
    requires uid in v.ids && uid !in loaded.ids && loaded.uidnext <= v.uidnext
    ensures StatusUpdate(v, Noop, loaded, stolen).out == []
    ensures uid !in StatusUpdate(v, Noop, loaded, stolen).view.ids
  {
    UpdatedIds(v, Noop, loaded, stolen);
    NothingNew(v, loaded);
    NoForeignExpunge(v, Noop, loaded, stolen);
  }
}
