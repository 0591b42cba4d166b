/**
 When the session may skip a refresh: it compares its cached counter with the one in
 the database, both cut to 32 bits. A cached counter of 0 is first read again, and
 the value is kept.
 */
module RefreshSkips {
  import opened MailboxView
  import opened RefreshSpec
  import opened RefreshProtocol

  /** The comparison, once `GetSeq` has been done for the cached counter. */
  predicate Unchanged(s: Sys) {
    s.cached % UINT32 == s.db.counter % UINT32
  }

  lemma ModDifference(a: nat, b: nat)
    requires b <= a
    ensures a % UINT32 == b % UINT32 <==> (a - b) % UINT32 == 0
  {
    var qa, qb := a / UINT32, b / UINT32;
    var ra, rb := a % UINT32, b % UINT32;
    assert a == qa * UINT32 + ra && b == qb * UINT32 + rb;
    var q := (a - b) / UINT32;
    assert a - b == q * UINT32 + (a - b) % UINT32;
  }

  /** Exactly when a comparison at `s` says "unchanged". */
  lemma SkipsExactly(s: Sys)
    requires CountersSound(s) && Enabled(s, GetSeq)
    ensures Unchanged(Next(s, GetSeq)) <==> s.cached == 0 || (s.db.counter - s.cached) % UINT32 == 0
  {
    ModDifference(s.db.counter, s.cached);
  }

  lemma NoWrap(s: Sys)
    requires CountersSound(s) && s.db.counter - s.cached < UINT32 && Unchanged(s)
    ensures s.cached == s.db.counter
  {
    ModDifference(s.db.counter, s.cached);
  }

  /** A message without an owed bump agrees with the tables iff the cache has its stamp. */
  lemma StampTells(s: Sys, uid: nat)
    requires Good(s, uid) && !Owed(s, uid) && s.phase.Idle? && s.loaded
    ensures CacheAgrees(s, uid) <==> !MissedStamp(s, uid)
  {
  }

  /** The cache shows a full reload. */
  ghost predicate Current(s: Sys) {
    ShownPart(s.cache) == ShownPart(FullReload(s.db.rows, s.db.keywords))
  }

  lemma CurrentExactly(s: Sys)
    requires Inv(s) && s.phase.Idle? && s.loaded && s.pending == map[]
    ensures Current(s) <==> forall uid :: !MissedStamp(s, uid)
  {
    if Current(s) {
      forall uid
        ensures !MissedStamp(s, uid)
      {
        ReloadIsAgreement(s.cache, s.db.rows, s.db.keywords, uid);
      }
    } else if forall uid :: !MissedStamp(s, uid) {
      NothingMissed(s);
    }
  }

  lemma NothingMissed(s: Sys)
    requires Inv(s) && s.phase.Idle? && s.loaded && s.pending == map[]
    requires forall uid :: !MissedStamp(s, uid)
    ensures Current(s)
  {
    forall uid
      ensures Agrees(s.cache, s.db.rows, s.db.keywords, uid)
    {
      assert Good(s, uid);
      StampTells(s, uid);
    }
    AgreementIsReload(s.cache, s.db.rows, s.db.keywords);
  }

  /**
   What a skip can miss, over runs with any number of comparisons: only a change
   whose bump came after a load at counter 0 and before the cached counter was read
   again, and only while no bump has followed.
   */
  lemma MissedOnlyAtZero(init: Sys, steps: seq<Step>, s: Sys, uid: nat)
    requires Init(init) && Run(init, steps, s)
    requires s.phase.Idle? && s.loaded && !Owed(s, uid)
    requires s.db.counter - s.cached < UINT32 && Unchanged(s) && !CacheAgrees(s, uid)
    ensures s.stateSeq == 0 && uid in s.db.rows && 0 < s.db.rows[uid].modseq <= s.cached
    ensures s.cached == s.db.counter
  {
    InitInv(init);
    RunKeepsInv(init, steps, s);
    NoWrap(s);
    assert Good(s, uid);
  }

  /**
   A skip is sound if and only if the load was not at counter 0, or the cache has the
   stamp of every live row.
   */
  lemma SkipSoundExactly(init: Sys, steps: seq<Step>, s: Sys)
    requires Init(init) && Run(init, steps, s)
    requires s.phase.Idle? && s.loaded && s.pending == map[]
    requires s.db.counter - s.cached < UINT32 && Unchanged(s)
    ensures Current(s) <==> s.stateSeq != 0 || forall uid :: !MissedStamp(s, uid)
  {
    InitInv(init);
    RunKeepsInv(init, steps, s);
    CurrentExactly(s);
    if s.stateSeq != 0 {
      NoWrap(s);
      UnchangedIsReload(s);
    }
  }

  /** Once the cached counter is not 0, the next bumps are noticed. */
  lemma BumpIsNoticed(init: Sys, steps: seq<Step>, s: Sys)
    requires Init(init) && Run(init, steps, s)
    requires s.phase.Idle? && s.loaded && s.cached != 0
    requires 0 < s.db.counter - s.cached < UINT32
    ensures !Unchanged(Next(s, GetSeq))
  {
    InitInv(init);
    RunKeepsInv(init, steps, s);
    SkipsExactly(s);
  }

  // A state loaded at counter 0, in detail.

  /** A change and its bump after a load at counter 0. */
  function ChangedAtZero(s: Sys, w: nat, uid: nat, flags: Flags, keywords: seq<string>): Sys
    requires Live(s.db.rows, uid) && s.pending == map[]
  {
    Next(Next(s, Change(w, uid, flags, keywords)), Bump(w))
  }

  /**
   The first comparison after a load at counter 0 misses a completed change; the next
   bump is noticed, and the refresh then repairs the message.
   */
  lemma ZeroCounterMisses(s: Sys, w: nat, uid: nat, flags: Flags, keywords: seq<string>)
    requires Inv(s) && s.phase.Idle? && s.loaded && s.pending == map[]
    requires s.stateSeq == s.cached == 0 && Live(s.db.rows, uid)
    ensures var t := Next(ChangedAtZero(s, w, uid, flags, keywords), GetSeq);
            && t.pending == map[] && Unchanged(t) && !CacheAgrees(t, uid)
            && !Unchanged(Next(Next(t, BumpOnly), GetSeq))
            && CacheAgrees(Refreshed(Next(t, BumpOnly), false), uid)
  {
    var changed := Next(s, Change(w, uid, flags, keywords));
    var bumped := Next(changed, Bump(w));
    StepKeepsInv(s, Change(w, uid, flags, keywords));
    StepKeepsInv(changed, Bump(w));
    StepKeepsInv(bumped, GetSeq);
    assert Good(s, uid);
    StampTells(Next(bumped, GetSeq), uid);
    NextBumpRepairs(Next(bumped, GetSeq), uid);
  }

  lemma NextBumpRepairs(t: Sys, uid: nat)
    requires Inv(t) && t.phase.Idle? && t.loaded && t.pending == map[] && 0 < t.cached == t.db.counter
    ensures !Unchanged(Next(Next(t, BumpOnly), GetSeq))
    ensures CacheAgrees(Refreshed(Next(t, BumpOnly), false), uid)
  {
    var again := Next(t, BumpOnly);
    StepKeepsInv(t, BumpOnly);
    SkipsExactly(again);
    RefreshedInv(again, false);
    assert Good(Refreshed(again, false), uid);
  }

  // A refresh that writers interrupt.

  predicate Touches(step: Step, uid: nat) {
    (step.Insert? || step.Change?) && step.uid == uid
  }

  lemma {:induction false} UntouchedRow(s: Sys, steps: seq<Step>, t: Sys, uid: nat)
    requires Run(s, steps, t) && !Owed(s, uid) && forall i :: 0 <= i < |steps| ==> !Touches(steps[i], uid)
    ensures !Owed(t, uid) && (uid in t.db.rows <==> uid in s.db.rows)
    ensures uid in s.db.rows ==> t.db.rows[uid] == s.db.rows[uid]
  {
    if steps != [] {
      var n := |steps| - 1;
      var mid :| Run(s, steps[..n], mid) && Enabled(mid, steps[n]) && t == Next(mid, steps[n]);
      UntouchedRow(s, steps[..n], mid, uid);
      UntouchedStep(mid, steps[n], uid);
    }
  }

  lemma UntouchedStep(s: Sys, step: Step, uid: nat)
    requires Enabled(s, step) && !Touches(step, uid) && !Owed(s, uid)
    ensures !Owed(Next(s, step), uid) && (uid in Next(s, step).db.rows <==> uid in s.db.rows)
    ensures uid in s.db.rows ==> Next(s, step).db.rows[uid] == s.db.rows[uid]
  {
    if step.Bump? {
      OwedGrows(Next(s, step).pending, s.pending, uid);
      assert s.pending[step.writer] != uid;
    }
  }

  /**
   However writers interrupt a refresh: once it has ended, every message that was
   settled when the counter was read and has not been touched since agrees.
   */
  lemma InterruptedRefresh(init: Sys, before: seq<Step>, s: Sys, steps: seq<Step>, t: Sys, uid: nat)
    requires Init(init) && Run(init, before, s) && Run(s, steps, t)
    requires t.phase.Idle? && t.loaded && t.stateSeq >= s.db.counter
    requires !Owed(s, uid) && forall i :: 0 <= i < |steps| ==> !Touches(steps[i], uid)
    ensures CacheAgrees(t, uid)
  {
    InitInv(init);
    RunKeepsInv(init, before, s);
    RunKeepsInv(s, steps, t);
    UntouchedRow(s, steps, t, uid);
    assert Good(s, uid) && Good(t, uid);
  }
}
