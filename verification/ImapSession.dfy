/**
 The session object: the selected mailbox state is changed step by step while
 untagged responses are appended to the output.
 */
module ImapSession {
  import opened Basics
  import opened SortedSets
  import opened MailboxView
  import opened MailboxStates
  import Spec = SessionSpec
  import Safety = ExistsSafety

  class Session {
    var mbstate: MailboxState
    var output: seq<Spec.Response>
    var command: Spec.Command

    constructor (state: MailboxState, command: Spec.Command)
      ensures mbstate == state && this.command == command && output == []
    {
      mbstate, this.command, output := state, command, [];
    }

    ghost predicate Follows(out: seq<Spec.Response>, step: Spec.Outcome)
      reads this, mbstate
    {
      mbstate.State() == step.view && output == out + step.out
    }

    /** `notify_expunge`; the result says that nothing could be announced. */
    method NotifyExpunge(uid: nat) returns (failed: bool)
      modifies this`output, mbstate`msginfo, mbstate`ids, mbstate`msn, mbstate`total
      ensures Follows(old(output), Spec.NotifyExpunge(old(mbstate.State()), command, uid))
      ensures failed <==> uid !in old(mbstate.ids) ||
                          (!command.Fetch? && !command.Store? && !command.Search? && uid !in old(mbstate.msginfo))
    {
      if uid !in mbstate.ids {
        return true;
      }
      if Spec.Quiet(command) {
        return false;
      }
      var m := mbstate.ids[uid];
      var removed := mbstate.RemoveUid(uid);
      if removed {
        output := output + [Spec.ExpungeResponse(m)];
      }
      return !removed;
    }

    /** `_do_expunge`, for a database whose UPDATE fails on `failing`. */
    method DoExpunge(uid: nat, failing: set<nat>)
      modifies this`output, mbstate`msginfo, mbstate`ids, mbstate`msn, mbstate`total
      ensures Follows(old(output), Spec.DoExpunge(old(mbstate.State()), command, uid, failing))
    {
      if uid !in mbstate.msginfo || !mbstate.msginfo[uid].flags.deleted || uid in failing {
        return;
      }
      var _ := NotifyExpunge(uid);
    }

    /** `dbmail_imap_session_mailbox_expunge` over the requested UIDs, or all of them. */
    method MailboxExpunge(requested: set<nat>, failing: set<nat>)
      modifies this`output, mbstate`msginfo, mbstate`ids, mbstate`msn, mbstate`total
      ensures Follows(old(output),
                      Spec.ExpungeRun(old(mbstate.State()), command, Descending(requested), failing))
    {
      var keys := TreeKeys(requested);
      var uids := Reversed(keys);
      var i := 0;
      while i < |uids|
        invariant 0 <= i <= |uids|
        invariant Follows(old(output),
                          Spec.ExpungeRun(old(mbstate.State()), command, uids[..i], failing))
      {
        RunStep(old(mbstate.State()), command, uids, i, failing, old(output));
        DoExpunge(uids[i], failing);
        i := i + 1;
      }
      assert uids[..i] == uids;
    }

    /** One more message of an expunge run. */
    static lemma RunStep(v: View, command: Spec.Command, uids: seq<nat>, i: nat, failing: set<nat>,
                         out: seq<Spec.Response>)
      requires i < |uids|
      ensures var before := Spec.ExpungeRun(v, command, uids[..i], failing);
              var after := Spec.ExpungeRun(v, command, uids[..i + 1], failing);
              var last := Spec.DoExpunge(before.view, command, uids[i], failing);
              after.view == last.view && out + after.out == (out + before.out) + last.out
    {
      assert uids[..i + 1][..i] == uids[..i];
      var before := Spec.ExpungeRun(v, command, uids[..i], failing);
      Assoc(out, before.out, Spec.DoExpunge(before.view, command, uids[i], failing).out);
    }

    /** Before the loop of `mailbox_notify_expunge`: the top MSN against the counter. */
    method CheckTop(uids: seq<nat>)
      requires uids == Descending(mbstate.ids.Keys)
      modifies this`output, mbstate`total
      ensures mbstate.State() == Safety.Counted(old(mbstate.State()))
      ensures output == old(output) + Safety.ExtraExists(old(mbstate.State()))
    {
      if uids == [] {
        assert mbstate.ids == map[];
        return;
      }
      assert uids[0] in Elements(uids);
      var known := mbstate.GetExists();
      if mbstate.ids[uids[0]] > known {
        output := output + [Spec.ExistsResponse(known)];
      }
    }

    ghost predicate At(n: MailboxState, out: seq<Spec.Response>, p: Safety.Pair)
      reads this, mbstate, n
    {
      mbstate.State() == p.m && n.State() == p.n && output == out + p.out
    }

    method NotifyMissing(n: MailboxState, uid: nat, ghost out: seq<Spec.Response>, ghost before: Safety.Pair)
      requires n != mbstate && At(n, out, before)
      modifies this`output, n`msginfo, mbstate`msginfo, mbstate`ids, mbstate`msn, mbstate`total
      ensures At(n, out, Safety.NotifyOne(before, command, uid))
    {
      if uid in n.msginfo && uid !in n.ids {
        n.msginfo := n.msginfo[uid := n.msginfo[uid].(expunged := true)];
        var _ := NotifyExpunge(uid);
      }
    }

    method NotifyLoop(n: MailboxState, uids: seq<nat>)
      requires n != mbstate
      modifies this`output, n`msginfo, mbstate`msginfo, mbstate`ids, mbstate`msn, mbstate`total
      ensures At(n, old(output), Safety.NotifyEach(old(mbstate.State()), old(n.State()), command, uids))
    {
      ghost var m, l, sent := mbstate.State(), n.State(), output;
      var i := 0;
      while i < |uids|
        invariant 0 <= i <= |uids|
        invariant At(n, sent, Safety.NotifyEach(m, l, command, uids[..i]))
      {
        assert uids[..i + 1][..i] == uids[..i];
        NotifyMissing(n, uids[i], sent, Safety.NotifyEach(m, l, command, uids[..i]));
        i := i + 1;
      }
      assert uids[..i] == uids;
    }

    /** `mailbox_notify_expunge`: announce what the new state no longer shows. */
    method MailboxNotifyExpunge(n: MailboxState)
      requires n != mbstate
      modifies this`output, n`msginfo, mbstate`msginfo, mbstate`ids, mbstate`msn, mbstate`total
      ensures At(n, old(output), Safety.NotifyAll(old(mbstate.State()), old(n.State()), command))
    {
      var keys := TreeKeys(mbstate.ids.Keys);
      var uids := Reversed(keys);
      ghost var start, before := mbstate.State(), output;
      CheckTop(uids);
      ghost var end := Safety.NotifyEach(mbstate.State(), n.State(), command, uids);
      NotifyLoop(n, uids);
      Assoc(before, Safety.ExtraExists(start), end.out);
    }

    /** The counters of both states, and the EXISTS that is due. */
    method AnnounceExists(n: MailboxState, stolen: bool)
      requires n != mbstate
      modifies this`output, n`total, mbstate`msginfo, mbstate`total
      ensures mbstate.State() == Safety.OldView(old(mbstate.State()), stolen)
      ensures n.State() == Safety.NewView(old(mbstate.State()), old(n.State()))
      ensures output == old(output) + Safety.FirstExists(old(mbstate.State()), command, old(n.State()))
    {
      var oldExists := mbstate.GetExists();
      var oldUidnext := mbstate.uidnext;
      if stolen {
        mbstate.msginfo := map[];
      }
      var newExists := n.GetExists();
      n.SetExists(Max(oldExists, newExists));
      var show := n.uidnext > oldUidnext || Spec.AlwaysShowsExists(command);
      var shown := n.GetExists();
      if show && shown > 0 {
        output := output + [Spec.ExistsResponse(shown)];
      }
    }

    /**
     `dbmail_imap_session_mailbox_status` once the counter has moved and `n` has been
     loaded; a differential load takes the messages out of the old state (`stolen`).
     */
    method MailboxStatus(n: MailboxState, stolen: bool)
      requires n != mbstate
      modifies this`output, this`mbstate, n`msginfo, n`total,
               mbstate`msginfo, mbstate`ids, mbstate`msn, mbstate`total
      ensures mbstate == n
      ensures Follows(old(output), Safety.StatusUpdate(old(mbstate.State()), command, old(n.State()), stolen))
    {
      ghost var v, loaded, sent := mbstate.State(), n.State(), output;
      AnnounceExists(n, stolen);
      ghost var rest := Safety.NotifyAll(mbstate.State(), n.State(), command);
      MailboxNotifyExpunge(n);
      mbstate := n;
      Assoc(sent, Safety.FirstExists(v, command, loaded), rest.out);
    }
  }
}
