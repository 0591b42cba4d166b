/**
 Untagged EXISTS and EXPUNGE responses of a session with a selected mailbox, as
 functions of the mailbox view, and what a client makes of them.
 */
module SessionSpec {
  import opened SortedSets
  import opened MailboxView

  datatype Command = Fetch | Store | Search | Sort | Select | Examine | Expunge | Close | Noop | OtherCommand

  datatype Response = ExistsResponse(count: nat) | ExpungeResponse(msn: nat)

  /** Commands during which no EXPUNGE may be sent. */
  predicate Quiet(command: Command) {
    command.Fetch? || command.Store? || command.Search?
  }

  predicate AlwaysShowsExists(command: Command) {
    command.Examine? || command.Select? || command.Search? || command.Sort?
  }

  // Expunging one message after the other.

  datatype Outcome = Outcome(view: View, out: seq<Response>)

  ghost function NotifyExpunge(v: View, command: Command, uid: nat): Outcome {
    if uid !in v.ids || Quiet(command) || uid !in v.msginfo then Outcome(v, [])
    else Outcome(Removed(v, uid), [ExpungeResponse(v.ids[uid])])
  }

  /** A message that an EXPUNGE command removes; `failing` are the UIDs whose UPDATE fails. */
  predicate Doomed(msginfo: map<nat, MessageInfo>, uid: nat, failing: set<nat>) {
    uid in msginfo && msginfo[uid].flags.deleted && uid !in failing
  }

  ghost function DoExpunge(v: View, command: Command, uid: nat, failing: set<nat>): Outcome {
    if Doomed(v.msginfo, uid, failing) then NotifyExpunge(v, command, uid) else Outcome(v, [])
  }

  ghost function ExpungeRun(v: View, command: Command, uids: seq<nat>, failing: set<nat>): Outcome {
    if uids == [] then Outcome(v, []) else
    var n := |uids| - 1;
    var before := ExpungeRun(v, command, uids[..n], failing);
    var last := DoExpunge(before.view, command, uids[n], failing);
    Outcome(last.view, before.out + last.out)
  }

  // The client's side.

  /** The client deletes the n-th entry of its list. */
  function DropNth(list: seq<nat>, n: nat): seq<nat> {
    if 1 <= n <= |list| then list[..n - 1] + list[n..] else list
  }

  function Deliver(list: seq<nat>, r: Response): seq<nat> {
    if r.ExpungeResponse? then DropNth(list, r.msn) else list
  }

  function Replay(list: seq<nat>, out: seq<Response>): seq<nat> {
    if out == [] then list else
    var n := |out| - 1;
    Deliver(Replay(list, out[..n]), out[n])
  }

  /** Every EXPUNGE names a message the client has at that point. */
  predicate InRange(list: seq<nat>, out: seq<Response>) {
    if out == [] then true else
    var n := |out| - 1;
    && InRange(list, out[..n])
    && (out[n].ExpungeResponse? ==> 1 <= out[n].msn <= |Replay(list, out[..n])|)
  }

  lemma ReplayOne(list: seq<nat>, out: seq<Response>, r: Response)
    ensures Replay(list, out + [r]) == Deliver(Replay(list, out), r)
    ensures InRange(list, out + [r]) <==>
            InRange(list, out) && (r.ExpungeResponse? ==> 1 <= r.msn <= |Replay(list, out)|)
  {
    assert (out + [r])[..|out|] == out;
  }

  /** The client's list follows the server's through the output so far. */
  ghost predicate InStep(list: seq<nat>, out: seq<Response>, v: View) {
    InRange(list, out) && Replay(list, out) == Order(v)
  }

  lemma ExpungeKeepsStep(list: seq<nat>, out: seq<Response>, v: View, uid: nat)
    requires Mapped(v) && uid in v.ids && InStep(list, out, v)
    ensures uid in v.msginfo && Mapped(Removed(v, uid))
    ensures InStep(list, out + [ExpungeResponse(v.ids[uid])], Removed(v, uid))
  {
    RemovedOrder(v, uid);
    ReplayOne(list, out, ExpungeResponse(v.ids[uid]));
  }

  lemma NotifyKeepsStep(list: seq<nat>, out: seq<Response>, v: View, command: Command, uid: nat)
    requires Mapped(v) && InStep(list, out, v)
    ensures var next := NotifyExpunge(v, command, uid);
            Mapped(next.view) && InStep(list, out + next.out, next.view)
  {
    if uid in v.ids && !Quiet(command) {
      ExpungeKeepsStep(list, out, v, uid);
    } else {
      assert out + [] == out;
    }
  }

  lemma DoExpungeKeepsStep(list: seq<nat>, out: seq<Response>, v: View, command: Command, uid: nat, failing: set<nat>)
    requires Mapped(v) && InStep(list, out, v)
    ensures var next := DoExpunge(v, command, uid, failing);
            Mapped(next.view) && InStep(list, out + next.out, next.view)
  {
    if Doomed(v.msginfo, uid, failing) {
      NotifyKeepsStep(list, out, v, command, uid);
    } else {
      assert out + [] == out;
    }
  }

  /**
   After every step of an expunge run, the client that has deleted the entries
   it was told about holds exactly the server's list.
   */
  lemma {:induction false} ExpungeReplay(v: View, command: Command, uids: seq<nat>, failing: set<nat>)
    requires Mapped(v)
    ensures var end := ExpungeRun(v, command, uids, failing);
            Mapped(end.view) && InStep(Order(v), end.out, end.view)
  {
    if uids != [] {
      var n := |uids| - 1;
      ExpungeReplay(v, command, uids[..n], failing);
      var before := ExpungeRun(v, command, uids[..n], failing);
      DoExpungeKeepsStep(Order(v), before.out, before.view, command, uids[n], failing);
    }
  }

  // Which messages go, and under which numbers.

  /** A message of the view that an EXPUNGE command removes. */
  predicate Goes(v: View, uid: nat, failing: set<nat>) {
    uid in v.ids && Doomed(v.msginfo, uid, failing)
  }

  function Going(v: View, uids: seq<nat>, failing: set<nat>): set<nat> {
    set u | u in uids && Goes(v, u, failing)
  }

  /** One EXPUNGE per removed message, each under its number in the original view. */
  ghost function Announced(v: View, uids: seq<nat>, failing: set<nat>): seq<Response> {
    if uids == [] then [] else
    var n := |uids| - 1;
    Announced(v, uids[..n], failing) + AnnouncedOne(v, uids[n], failing)
  }

  function AnnouncedOne(v: View, uid: nat, failing: set<nat>): seq<Response> {
    if Goes(v, uid, failing) then [ExpungeResponse(v.ids[uid])] else []
  }

  predicate SameMessage(v: View, w: View, u: nat) {
    && (u in v.ids <==> u in w.ids)
    && (u in v.ids ==> v.ids[u] == w.ids[u])
    && (u in v.msginfo <==> u in w.msginfo)
    && (u in v.msginfo ==> v.msginfo[u] == w.msginfo[u])
  }

  predicate AllAbove(uids: seq<nat>, u: nat) {
    forall i :: 0 <= i < |uids| ==> u < uids[i]
  }

  lemma NotifyLeavesEarlier(v: View, w: View, command: Command, uid: nat, u: nat)
    requires Mapped(w) && u < uid && SameMessage(v, w, u)
    ensures SameMessage(v, NotifyExpunge(w, command, uid).view, u)
  {
    if uid in w.ids {
      RemovedOrder(w, uid);
      if u in w.ids {
        EarlierNumbersKept(w, uid, u);
      }
    }
  }

  /** A run over larger UIDs leaves a message below them alone. */
  lemma {:induction false} RunLeavesEarlier(v: View, command: Command, uids: seq<nat>, failing: set<nat>, u: nat)
    requires Mapped(v) && AllAbove(uids, u)
    ensures Mapped(ExpungeRun(v, command, uids, failing).view)
    ensures SameMessage(v, ExpungeRun(v, command, uids, failing).view, u)
  {
    ExpungeReplay(v, command, uids, failing);
    if uids != [] {
      var n := |uids| - 1;
      RunLeavesEarlier(v, command, uids[..n], failing, u);
      NotifyLeavesEarlier(v, ExpungeRun(v, command, uids[..n], failing).view, command, uids[n], u);
    }
  }

  lemma ExpungeOne(v: View, w: View, command: Command, uid: nat, failing: set<nat>)
    requires Mapped(w) && SameMessage(v, w, uid) && !Quiet(command)
    ensures DoExpunge(w, command, uid, failing).out == AnnouncedOne(v, uid, failing)
    ensures DoExpunge(w, command, uid, failing).view.ids.Keys ==
            w.ids.Keys - if Goes(v, uid, failing) then {uid} else {}
  {
    if uid in w.ids {
      RemovedOrder(w, uid);
    }
  }

  lemma GoingStep(v: View, uids: seq<nat>, failing: set<nat>)
    requires uids != []
    ensures var n := |uids| - 1;
            Going(v, uids, failing) ==
            Going(v, uids[..n], failing) + if Goes(v, uids[n], failing) then {uids[n]} else {}
  {
    var n := |uids| - 1;
    assert uids == uids[..n] + [uids[n]];
  }

  ghost predicate Effect(v: View, end: Outcome, out: seq<Response>, gone: set<nat>) {
    end.out == out && end.view.ids.Keys == v.ids.Keys - gone
  }

  lemma EffectStep(v: View, before: Outcome, out: seq<Response>, gone: set<nat>,
                   command: Command, uid: nat, failing: set<nat>)
    requires Effect(v, before, out, gone)
    requires Mapped(before.view) && SameMessage(v, before.view, uid) && !Quiet(command)
    ensures var last := DoExpunge(before.view, command, uid, failing);
            Effect(v, Outcome(last.view, before.out + last.out), out + AnnouncedOne(v, uid, failing),
                   gone + if Goes(v, uid, failing) then {uid} else {})
  {
    ExpungeOne(v, before.view, command, uid, failing);
  }

  /**
   An expunge run from the highest UID down removes exactly the \Deleted messages
   among the requested ones, and announces each under its original number.
   */
  lemma {:induction false} ExpungeNumbers(v: View, command: Command, uids: seq<nat>, failing: set<nat>)
    requires Mapped(v) && StrictlyDescending(uids) && !command.Fetch? && !command.Store? && !command.Search?
    ensures Effect(v, ExpungeRun(v, command, uids, failing), Announced(v, uids, failing), Going(v, uids, failing))
  {
    if uids == [] {
      assert Going(v, uids, failing) == {};
    } else {
      var n := |uids| - 1;
      var before := ExpungeRun(v, command, uids[..n], failing);
      ExpungeNumbers(v, command, uids[..n], failing);
      RunLeavesEarlier(v, command, uids[..n], failing, uids[n]);
      EffectStep(v, before, Announced(v, uids[..n], failing), Going(v, uids[..n], failing), command, uids[n], failing);
      GoingStep(v, uids, failing);
    }
  }

  predicate NumbersAbove(out: seq<Response>, k: nat) {
    forall i :: 0 <= i < |out| ==> out[i].ExpungeResponse? && out[i].msn > k
  }

  predicate StrictlyDecreasing(out: seq<Response>) {
    forall i :: 0 <= i < |out| ==> out[i].ExpungeResponse? && NumbersAbove(out[..i], out[i].msn)
  }

  lemma AppendSmaller(out: seq<Response>, k: nat)
    requires StrictlyDecreasing(out) && NumbersAbove(out, k)
    ensures StrictlyDecreasing(out + [ExpungeResponse(k)])
  {
    var longer := out + [ExpungeResponse(k)];
    forall i | 0 <= i < |longer|
      ensures longer[i].ExpungeResponse? && NumbersAbove(longer[..i], longer[i].msn)
    {
      assert longer[..i] == out[..i];
    }
  }

  lemma {:induction false} AnnouncedAbove(v: View, uids: seq<nat>, failing: set<nat>, u: nat)
    requires Mapped(v) && AllAbove(uids, u) && u in v.ids
    ensures NumbersAbove(Announced(v, uids, failing), v.ids[u])
  {
    if uids != [] {
      var n := |uids| - 1;
      AnnouncedAbove(v, uids[..n], failing, u);
      if uids[n] in v.ids {
        MsnFollowsUid(v, u, uids[n]);
      }
    }
  }

  /** The announced numbers strictly decrease, so none is shifted by an earlier EXPUNGE. */
  lemma {:induction false} NumbersDecrease(v: View, uids: seq<nat>, failing: set<nat>)
    requires Mapped(v) && StrictlyDescending(uids)
    ensures StrictlyDecreasing(Announced(v, uids, failing))
  {
    if uids != [] {
      var n := |uids| - 1;
      NumbersDecrease(v, uids[..n], failing);
      if Goes(v, uids[n], failing) {
        AnnouncedAbove(v, uids[..n], failing, uids[n]);
        AppendSmaller(Announced(v, uids[..n], failing), v.ids[uids[n]]);
      } else {
        assert Announced(v, uids, failing) == Announced(v, uids[..n], failing);
      }
    }
  }

  // The whole effect of an expunge run.

  /** Messages of the view that are marked \Deleted, requested, and whose UPDATE succeeds. */
  ghost predicate Expunges(v: View, uids: set<nat>, failing: set<nat>, gone: set<nat>) {
    forall u :: u in gone <==> u in v.ids && u in v.msginfo && v.msginfo[u].flags.deleted && u in uids && u !in failing
  }

  /** One EXPUNGE for each of the messages, from the last to the first, under its number in `v`. */
  ghost predicate ExpungesSent(v: View, gone: set<nat>, out: seq<Response>) {
    && |out| == |gone|
    && forall i :: 0 <= i < |out| ==>
         Descending(gone)[i] in v.ids && out[i] == ExpungeResponse(v.ids[Descending(gone)[i]])
  }

  lemma ReversedAscends(r: seq<nat>)
    requires StrictlyDescending(r)
    ensures StrictlyAscending(Reversed(r)) && Reversed(Reversed(r)) == r
  {
  }

  lemma DescendingUnique(r: seq<nat>, s: set<nat>)
    requires StrictlyDescending(r) && Elements(r) == s
    ensures r == Descending(s)
  {
    ReversedAscends(r);
    AscendingUnique(Reversed(r), Ascending(s));
  }

  lemma NextDescending(s: set<nat>, u: nat)
    requires forall x :: x in s ==> u < x
    ensures Descending(s + {u}) == Descending(s) + [u]
  {
    var r := Descending(s) + [u];
    assert forall i :: 0 <= i < |s| ==> Descending(s)[i] in Elements(Descending(s));
    assert StrictlyDescending(r);
    assert Elements(r) == Elements(Descending(s)) + {u};
    DescendingUnique(r, s + {u});
  }

  lemma SentSnoc(v: View, gone: set<nat>, out: seq<Response>, u: nat)
    requires ExpungesSent(v, gone, out) && u in v.ids && forall x :: x in gone ==> u < x
    ensures ExpungesSent(v, gone + {u}, out + [ExpungeResponse(v.ids[u])])
  {
    NextDescending(gone, u);
  }

  lemma {:induction false} AnnouncedSent(v: View, uids: seq<nat>, failing: set<nat>)
    requires StrictlyDescending(uids)
    ensures ExpungesSent(v, Going(v, uids, failing), Announced(v, uids, failing))
  {
    if uids == [] {
      assert Going(v, uids, failing) == {};
    } else {
      var n := |uids| - 1;
      AnnouncedSent(v, uids[..n], failing);
      GoingStep(v, uids, failing);
      if Goes(v, uids[n], failing) {
        SentSnoc(v, Going(v, uids[..n], failing), Announced(v, uids[..n], failing), uids[n]);
      } else {
        assert Announced(v, uids, failing) == Announced(v, uids[..n], failing);
      }
    }
  }

  /**
   Every command but FETCH, STORE and SEARCH: exactly the requested \Deleted messages
   go, and each is announced once, under the number it had before the command.
   */
  lemma ExpungesExactly(v: View, command: Command, uids: set<nat>, failing: set<nat>, gone: set<nat>)
    requires Mapped(v) && !command.Fetch? && !command.Store? && !command.Search? && Expunges(v, uids, failing, gone)
    ensures var end := ExpungeRun(v, command, Descending(uids), failing);
            end.view.ids.Keys == v.ids.Keys - gone && ExpungesSent(v, gone, end.out)
  {
    var order := Descending(uids);
    assert forall u :: u in order <==> u in Elements(order);
    assert Going(v, order, failing) == gone;
    ExpungeNumbers(v, command, order, failing);
    AnnouncedSent(v, order, failing);
  }

  /**
   EXPUNGE and CLOSE over all messages: what is left is exactly the messages that are
   not \Deleted, with one response for each that went.
   */
  lemma ExpungeAll(v: View, command: Command)
    requires Mapped(v) && (command.Expunge? || command.Close?)
    ensures var end := ExpungeRun(v, command, Descending(v.ids.Keys), {});
            && (forall u :: u in end.view.ids <==> u in v.ids && u in v.msginfo && !v.msginfo[u].flags.deleted)
            && |end.out| == |v.ids| - |end.view.ids|
  {
    var end := ExpungeRun(v, command, Descending(v.ids.Keys), {});
    assert v.ids.Keys == Visible(v.msginfo);
    var gone := set u | u in v.ids && v.msginfo[u].flags.deleted;
    ExpungesExactly(v, command, v.ids.Keys, {}, gone);
    assert forall u :: u in end.view.ids <==> u in end.view.ids.Keys;
    assert |v.ids.Keys - gone| == |v.ids.Keys| - |gone|;
    assert |end.view.ids.Keys| == |end.view.ids| && |v.ids.Keys| == |v.ids|;
  }

  /** So CLOSE, which should not show its expunges, is silent only when there are none. */
  lemma CloseSilentExactly(v: View)
    requires Mapped(v)
    ensures ExpungeRun(v, Close, Descending(v.ids.Keys), {}).out == [] <==>
            forall u :: u in v.ids ==> u in v.msginfo && !v.msginfo[u].flags.deleted
  {
    assert v.ids.Keys == Visible(v.msginfo);
    var gone := set u | u in v.ids && v.msginfo[u].flags.deleted;
    ExpungesExactly(v, Close, v.ids.Keys, {}, gone);
    assert |gone| == 0 <==> gone == {};
    assert forall u :: u in gone <==> u in v.ids && v.msginfo[u].flags.deleted;
  }

  /** During FETCH, STORE and SEARCH an expunge run says nothing and removes nothing. */
  lemma {:induction false} QuietRun(v: View, command: Command, uids: seq<nat>, failing: set<nat>)
    requires command.Fetch? || command.Store? || command.Search?
    ensures ExpungeRun(v, command, uids, failing) == Outcome(v, [])
  {
    if uids != [] {
      QuietRun(v, command, uids[..|uids| - 1], failing);
    }
  }
}
