/**
 EXISTS over whole sessions: refreshes that swap in a newly loaded view, and
 expunge commands, in any order.
 */
module ExistsSafety {
  import opened Basics
  import opened SortedSets
  import opened MailboxView
  import opened SessionSpec

  /** The selected view `m`, the newly loaded view `n`, and what was sent. */
  datatype Pair = Pair(m: View, n: View, out: seq<Response>)

  function MarkExpunged(n: View, uid: nat): View
    requires uid in n.msginfo
  {
    n.(msginfo := n.msginfo[uid := n.msginfo[uid].(expunged := true)])
  }

  /** The loop of `mailbox_notify_expunge`. */
  ghost function NotifyEach(m: View, n: View, command: Command, uids: seq<nat>): Pair {
    if uids == [] then Pair(m, n, []) else
    var k := |uids| - 1;
    var before := NotifyEach(m, n, command, uids[..k]);
    NotifyOne(before, command, uids[k])
  }

  ghost function NotifyOne(before: Pair, command: Command, uid: nat): Pair {
    if uid in before.n.msginfo && uid !in before.n.ids then
      var next := NotifyExpunge(before.m, command, uid);
      Pair(next.view, MarkExpunged(before.n, uid), before.out + next.out)
    else before
  }

  /** The EXISTS that `mailbox_notify_expunge` sends when the top MSN exceeds the counter. */
  ghost function ExtraExists(m: View): seq<Response> {
    if m.ids == map[] then [] else
    var top := Descending(m.ids.Keys)[0];
    assert top in Elements(Descending(m.ids.Keys));
    if m.ids[top] > Exists(m) then [ExistsResponse(Exists(m))] else []
  }

  function Counted(m: View): View {
    if m.ids == map[] then m else m.(total := Exists(m))
  }

  ghost function NotifyAll(m: View, n: View, command: Command): Pair {
    var end := NotifyEach(Counted(m), n, command, Descending(m.ids.Keys));
    end.(out := ExtraExists(m) + end.out)
  }

  /** The new view after its counter has been raised to at least the old one. */
  function Raised(v: View, loaded: View): View {
    loaded.(total := Max(Exists(v), Exists(loaded)))
  }

  predicate ShowsExists(v: View, loaded: View, command: Command) {
    (loaded.uidnext > v.uidnext || AlwaysShowsExists(command)) && Exists(Raised(v, loaded)) > 0
  }

  /** What is left of the old view: a differential refresh takes its messages away. */
  function OldView(v: View, stolen: bool): View {
    var counted := v.(total := Exists(v));
    if stolen then counted.(msginfo := map[]) else counted
  }

  /** `dbmail_imap_session_mailbox_status` once the counter has moved. */
  ghost function StatusUpdate(v: View, command: Command, loaded: View, stolen: bool): Outcome {
    var rest := NotifyAll(OldView(v, stolen), NewView(v, loaded), command);
    Outcome(rest.n, FirstExists(v, command, loaded) + rest.out)
  }

  function NewView(v: View, loaded: View): View {
    Raised(v, loaded).(total := Exists(Raised(v, loaded)))
  }

  function FirstExists(v: View, command: Command, loaded: View): seq<Response> {
    if ShowsExists(v, loaded, command) then [ExistsResponse(NewView(v, loaded).total)] else []
  }

  // The client's count.

  function Count(count: int, out: seq<Response>): int {
    if out == [] then count else
    var n := |out| - 1;
    if out[n].ExistsResponse? then out[n].count else Count(count, out[..n]) - 1
  }

  /** No EXISTS announces fewer messages than the client has counted. */
  predicate NeverBelow(count: int, out: seq<Response>) {
    if out == [] then true else
    var n := |out| - 1;
    NeverBelow(count, out[..n]) && (out[n].ExistsResponse? ==> out[n].count >= Count(count, out[..n]))
  }

  predicate OnlyExpunges(out: seq<Response>) {
    forall i :: 0 <= i < |out| ==> out[i].ExpungeResponse?
  }

  lemma {:induction false} CountConcat(count: int, a: seq<Response>, b: seq<Response>)
    ensures Count(count, a + b) == Count(Count(count, a), b)
    ensures NeverBelow(count, a + b) <==> NeverBelow(count, a) && NeverBelow(Count(count, a), b)
  {
    if b == [] {
      assert a + b == a;
    } else {
      var n := |b| - 1;
      CountConcat(count, a, b[..n]);
      assert (a + b)[..|a| + n] == a + b[..n];
    }
  }

  lemma {:induction false} ExpungesOnlyLower(count: int, out: seq<Response>)
    requires OnlyExpunges(out)
    ensures Count(count, out) == count - |out|
    ensures NeverBelow(count, out)
  {
    if out != [] {
      ExpungesOnlyLower(count, out[..|out| - 1]);
    }
  }

  // One step.

  /** The client's count never exceeds the session's counter. */
  ghost predicate Sound(v: View, count: int) {
    && Mapped(v)
    && |v.ids| <= v.total < INT32_LIMIT
    && count <= v.total
  }

  lemma RemovedCount(v: View, uid: nat)
    requires Mapped(v) && uid in v.ids && |v.ids| <= v.total
    ensures uid in v.msginfo && Mapped(Removed(v, uid))
    ensures |Removed(v, uid).ids| == |v.ids| - 1
    ensures Removed(v, uid).total == v.total - 1
  {
    RemovedOrder(v, uid);
    assert |v.ids.Keys - {uid}| == |v.ids.Keys| - 1;
  }

  lemma ExpungeOneSound(v: View, count: int, command: Command, uid: nat, failing: set<nat>)
    requires Sound(v, count)
    ensures var end := DoExpunge(v, command, uid, failing);
            OnlyExpunges(end.out) && Sound(end.view, count - |end.out|)
  {
    if uid in v.ids {
      RemovedCount(v, uid);
    }
  }

  lemma {:induction false} ExpungeRunSound(v: View, count: int, command: Command, uids: seq<nat>, failing: set<nat>)
    requires Sound(v, count)
    ensures var end := ExpungeRun(v, command, uids, failing);
            OnlyExpunges(end.out) && Sound(end.view, count - |end.out|)
  {
    if uids != [] {
      var n := |uids| - 1;
      ExpungeRunSound(v, count, command, uids[..n], failing);
      var before := ExpungeRun(v, command, uids[..n], failing);
      ExpungeOneSound(before.view, count - |before.out|, command, uids[n], failing);
    }
  }

  /** The extra EXISTS of `mailbox_notify_expunge` is never reached. */
  lemma ExtraExistsNever(m: View)
    requires m.ids == RankMap(m.ids.Keys)
    ensures ExtraExists(m) == []
  {
    if m.ids != map[] {
      var top := Descending(m.ids.Keys)[0];
      assert top in Elements(Descending(m.ids.Keys));
      RankWithin(m, top);
    }
  }

  lemma RankWithin(m: View, u: nat)
    requires m.ids == RankMap(m.ids.Keys) && u in m.ids
    ensures m.ids[u] <= |m.ids|
  {
    assert m.ids[u] == Rank(m.ids.Keys, u);
    assert |m.ids.Keys| == |m.ids|;
  }

  lemma MarkKeepsView(n: View, uid: nat)
    requires uid in n.msginfo
    ensures Visible(MarkExpunged(n, uid).msginfo) == Visible(n.msginfo)
    ensures Mapped(n) ==> Mapped(MarkExpunged(n, uid))
  {
  }

  /** Announcing another session's expunges only marks messages in the new view. */
  ghost predicate OnlyMarks(n: View, end: Pair, command: Command) {
    && OnlyExpunges(end.out)
    && (command.Fetch? || command.Store? || command.Search? ==> end.out == [])
    && end.n.ids == n.ids && end.n.total == n.total
    && (Mapped(n) ==> Mapped(end.n))
  }

  lemma {:induction false} NotifyEachMarks(m: View, n: View, command: Command, uids: seq<nat>)
    ensures OnlyMarks(n, NotifyEach(m, n, command, uids), command)
  {
    if uids != [] {
      var k := |uids| - 1;
      NotifyEachMarks(m, n, command, uids[..k]);
      var before := NotifyEach(m, n, command, uids[..k]);
      if uids[k] in before.n.msginfo {
        MarkKeepsView(before.n, uids[k]);
      }
    }
  }

  lemma NotifyAllMarks(m: View, n: View, command: Command)
    requires m.ids == RankMap(m.ids.Keys)
    ensures OnlyMarks(n, NotifyAll(m, n, command), command)
  {
    ExtraExistsNever(m);
    NotifyEachMarks(Counted(m), n, command, Descending(m.ids.Keys));
    var end := NotifyEach(Counted(m), n, command, Descending(m.ids.Keys));
    assert [] + end.out == end.out;
  }

  lemma RaisedSound(v: View, count: int, loaded: View)
    requires Sound(v, count)
    requires Mapped(loaded) && loaded.total < INT32_LIMIT && |loaded.ids| < INT32_LIMIT
    ensures Exists(Raised(v, loaded)) == Raised(v, loaded).total
    ensures Sound(Raised(v, loaded), count)
  {
  }

  lemma MarksSound(n: View, count: int, end: Pair, command: Command)
    requires Sound(n, count) && OnlyMarks(n, end, command)
    ensures NeverBelow(count, end.out)
    ensures Count(count, end.out) == count - |end.out|
    ensures Sound(end.n, Count(count, end.out))
  {
    ExpungesOnlyLower(count, end.out);
  }

  lemma FirstSound(n: View, count: int, shown: bool)
    requires Sound(n, count)
    ensures var first := if shown then [ExistsResponse(n.total)] else [];
            NeverBelow(count, first) && Sound(n, Count(count, first))
  {
    assert [ExistsResponse(n.total)][..0] == [];
  }

  lemma OldViewRanked(v: View, stolen: bool)
    requires Mapped(v)
    ensures OldView(v, stolen).ids == RankMap(OldView(v, stolen).ids.Keys)
  {
    assert v.ids.Keys == Visible(v.msginfo);
  }

  lemma StatusSound(v: View, count: int, command: Command, loaded: View, stolen: bool)
    requires Sound(v, count)
    requires Mapped(loaded) && loaded.total < INT32_LIMIT && |loaded.ids| < INT32_LIMIT
    ensures var end := StatusUpdate(v, command, loaded, stolen);
            NeverBelow(count, end.out) && Sound(end.view, Count(count, end.out))
  {
    var n := Raised(v, loaded);
    var shown := ShowsExists(v, loaded, command);
    var first := if shown then [ExistsResponse(n.total)] else [];
    var rest := NotifyAll(OldView(v, stolen), n, command);
    RaisedSound(v, count, loaded);
    FirstSound(n, count, shown);
    OldViewRanked(v, stolen);
    NotifyAllMarks(OldView(v, stolen), n, command);
    MarksSound(n, Count(count, first), rest, command);
    CountConcat(count, first, rest.out);
  }

  lemma StatusQuiet(v: View, count: int, command: Command, loaded: View, stolen: bool)
    requires Sound(v, count) && (command.Fetch? || command.Store? || command.Search?)
    requires Mapped(loaded) && loaded.total < INT32_LIMIT && |loaded.ids| < INT32_LIMIT
    ensures var out := StatusUpdate(v, command, loaded, stolen).out;
            forall i :: 0 <= i < |out| ==> out[i].ExistsResponse?
  {
    OldViewRanked(v, stolen);
    var rest := NotifyAll(OldView(v, stolen), NewView(v, loaded), command);
    assert rest.out == [] by {
      NotifyAllMarks(OldView(v, stolen), NewView(v, loaded), command);
    }
    NothingAfter(FirstExists(v, command, loaded), rest.out);
  }

  lemma NothingAfter(first: seq<Response>, rest: seq<Response>)
    requires rest == []
    ensures first + rest == first
  {
  }

  // When an EXISTS is sent.

  predicate SmallView(v: View) {
    v.total < INT32_LIMIT && |v.ids| < INT32_LIMIT
  }

  /** The larger of the counter and the number of messages; a counter that has wrapped below 0 is not taken. */
  lemma ExistsIsLarger(v: View)
    requires v.total < UINT32
    ensures Exists(v) == if v.total < INT32_LIMIT then Max(|v.ids|, v.total) else |v.ids|
  {
  }

  /** There is something new or the command asks for it, and there is anything to count. */
  predicate ExistsDue(v: View, command: Command, loaded: View) {
    && (loaded.uidnext > v.uidnext || command.Select? || command.Examine? || command.Search? || command.Sort?)
    && (v.ids != map[] || v.total > 0 || loaded.ids != map[] || loaded.total > 0)
  }

  /** The largest of both counters and both numbers of messages. */
  function Largest(v: View, loaded: View): nat {
    Max(Max(|v.ids|, v.total), Max(|loaded.ids|, loaded.total))
  }

  /** An EXISTS is sent exactly when it is due; it comes first and is the only one. */
  predicate SentExactly(out: seq<Response>, due: bool, count: nat) {
    && (due ==> out != [] && out[0] == ExistsResponse(count))
    && forall i :: 0 <= i < |out| && out[i].ExistsResponse? ==> due && i == 0
  }

  /**
   A status update sends an EXISTS if and only if the next UID has grown or the
   command is SELECT, EXAMINE, SEARCH or SORT, and there is anything to count. It comes
   first, it is the only one, and it covers both views.
   */
  lemma ExistsExactly(v: View, command: Command, loaded: View, stolen: bool)
    requires Mapped(v) && SmallView(v) && SmallView(loaded)
    ensures SentExactly(StatusUpdate(v, command, loaded, stolen).out, ExistsDue(v, command, loaded), Largest(v, loaded))
    ensures Largest(v, loaded) >= |StatusUpdate(v, command, loaded, stolen).view.ids|
  {
    OldViewRanked(v, stolen);
    NotifyAllMarks(OldView(v, stolen), NewView(v, loaded), command);
    FirstExactly(v, command, loaded);
    FirstThenExpunges(NotifyAll(OldView(v, stolen), NewView(v, loaded), command).out,
                      ExistsDue(v, command, loaded), Largest(v, loaded));
  }

  lemma FirstThenExpunges(rest: seq<Response>, due: bool, count: nat)
    requires OnlyExpunges(rest)
    ensures SentExactly((if due then [ExistsResponse(count)] else []) + rest, due, count)
  {
  }

  lemma AnythingToCount(v: View, loaded: View)
    ensures Largest(v, loaded) > 0 <==> v.ids != map[] || v.total > 0 || loaded.ids != map[] || loaded.total > 0
  {
    assert forall m: map<nat, nat> :: m != map[] ==> m.Keys != {} && |m| == |m.Keys|;
  }

  lemma FirstExactly(v: View, command: Command, loaded: View)
    requires SmallView(v) && SmallView(loaded)
    ensures FirstExists(v, command, loaded) ==
            if ExistsDue(v, command, loaded) then [ExistsResponse(Largest(v, loaded))] else []
  {
    ExistsIsLarger(v);
    ExistsIsLarger(loaded);
    ExistsIsLarger(Raised(v, loaded));
    ExistsIsLarger(NewView(v, loaded));
    AnythingToCount(v, loaded);
  }

  // Whole sessions.

  datatype Step =
    | Refresh(command: Command, loaded: View, stolen: bool)
    | ExpungeCommand(command: Command, uids: seq<nat>, failing: set<nat>)

  /** A load yields a numbered view of fewer than 2^31 messages. */
  ghost predicate Loadable(s: Step) {
    s.Refresh? ==> Mapped(s.loaded) && s.loaded.total < INT32_LIMIT && |s.loaded.ids| < INT32_LIMIT
  }

  ghost function Perform(v: View, s: Step): Outcome {
    match s
    case Refresh(command, loaded, stolen) => StatusUpdate(v, command, loaded, stolen)
    case ExpungeCommand(command, uids, failing) => ExpungeRun(v, command, uids, failing)
  }

  ghost function Session(v: View, steps: seq<Step>): Outcome {
    if steps == [] then Outcome(v, []) else
    var n := |steps| - 1;
    var before := Session(v, steps[..n]);
    var last := Perform(before.view, steps[n]);
    Outcome(last.view, before.out + last.out)
  }

  lemma StepSound(v: View, count: int, s: Step)
    requires Sound(v, count) && Loadable(s)
    ensures var end := Perform(v, s);
            NeverBelow(count, end.out) && Sound(end.view, Count(count, end.out))
  {
    match s
    case Refresh(command, loaded, stolen) =>
      StatusSound(v, count, command, loaded, stolen);
    case ExpungeCommand(command, uids, failing) =>
      ExpungeRunSound(v, count, command, uids, failing);
      ExpungesOnlyLower(count, ExpungeRun(v, command, uids, failing).out);
  }

  ghost predicate AllLoadable(steps: seq<Step>) {
    forall i :: 0 <= i < |steps| ==> Loadable(steps[i])
  }

  /** No EXISTS sent was below the client's count, and the count is still in step. */
  ghost predicate Ends(count: int, end: Outcome) {
    NeverBelow(count, end.out) && Sound(end.view, Count(count, end.out))
  }

  /**
   Over any session that starts with the EXISTS of SELECT, no EXISTS falls below
   the client's count, whatever the order of refreshes and expunges.
   */
  lemma {:induction false} ExistsNeverDrops(v: View, count: int, steps: seq<Step>)
    requires Sound(v, count)
    requires AllLoadable(steps)
    ensures Ends(count, Session(v, steps))
  {
    if steps != [] {
      var n := |steps| - 1;
      ExistsNeverDrops(v, count, steps[..n]);
      SessionStep(Session(v, steps[..n]), count, steps[n]);
    }
  }

  lemma SessionStep(before: Outcome, count: int, s: Step)
    requires Ends(count, before) && Loadable(s)
    ensures var last := Perform(before.view, s); Ends(count, Outcome(last.view, before.out + last.out))
  {
    StepSound(before.view, Count(count, before.out), s);
    CountConcat(count, before.out, Perform(before.view, s).out);
  }

  /** No EXPUNGE is sent while FETCH, STORE or SEARCH is in progress. */
  lemma NoExpungeWhenQuiet(v: View, count: int, s: Step)
    requires Sound(v, count) && Loadable(s) && (s.command.Fetch? || s.command.Store? || s.command.Search?)
    ensures forall i :: 0 <= i < |Perform(v, s).out| ==> Perform(v, s).out[i].ExistsResponse?
  {
    match s
    case Refresh(command, loaded, stolen) =>
      StatusQuiet(v, count, command, loaded, stolen);
    case ExpungeCommand(command, uids, failing) =>
      QuietRun(v, command, uids, failing);
  }

  /** SELECT announces the counter, which starts a sound session. */
  lemma SelectSound(v: View)
    requires Mapped(v) && v.total < INT32_LIMIT && |v.ids| < INT32_LIMIT
    ensures Sound(v.(total := Exists(v)), Exists(v))
  {
  }
}
