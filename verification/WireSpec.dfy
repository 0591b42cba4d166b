/**
 The client's write and read buffers as functions of what the transport answers.
 */
module WireSpec {
  import opened Basics

  const TLS_SEGMENT: nat := 262144
  const MAX_LINESIZE: nat := 65536

  predicate NulFree(s: string) {
    forall i :: 0 <= i < |s| ==> s[i] != '\0'
  }

  // Writing.

  /** One answer of `write` or `SSL_write`. */
  datatype Answer = Wrote(count: nat) | WantRead | Soft | Hard

  /** One call of `write` or `SSL_write`: what it was given, and what it answered. */
  datatype Call = Call(tls: bool, segment: string, answer: Answer)

  /** `calls` are all calls that were ever made, `queued` all that was ever appended. */
  datatype Out = Out(
    buffer: string, offset: nat, tls: string, ssl: bool, err: bool, calls: seq<Call>, queued: string)

  /** What the transport took of one call: as much as it says, of what it was given. */
  function Taken(call: Call): string {
    if call.answer.Wrote? then call.segment[..Min(call.answer.count, |call.segment|)] else ""
  }

  /** The bytes on the wire. */
  function Wire(calls: seq<Call>): string {
    if calls == [] then "" else Wire(calls[..|calls| - 1]) + Taken(calls[|calls| - 1])
  }

  function Left(o: Out): nat {
    if o.offset <= |o.buffer| then |o.buffer| - o.offset else 0
  }

  function Pending(o: Out): string {
    if o.offset <= |o.buffer| then o.buffer[o.offset..] else ""
  }

  /** `strncpy`: everything from the first NUL on becomes NUL. */
  function Copied(s: string): string {
    if s == "" then "" else
    if s[0] == '\0' then seq(|s|, _ => '\0') else [s[0]] + Copied(s[1..])
  }

  lemma {:induction false} CopiedIsSame(s: string)
    requires NulFree(s)
    ensures Copied(s) == s
  {
    if s != "" {
      CopiedIsSame(s[1..]);
    }
  }

  /** A NUL at or before the position. */
  predicate NulBefore(s: string, i: nat) {
    exists j :: 0 <= j <= i && j < |s| && s[j] == '\0'
  }

  lemma {:induction false} CopiedExactly(s: string, i: nat)
    requires i < |s|
    ensures |Copied(s)| == |s| && Copied(s)[i] == if NulBefore(s, i) then '\0' else s[i]
  {
    if s[0] != '\0' && |s| > 1 {
      var rest := s[1..];
      CopiedExactly(rest, if i > 0 then i - 1 else 0);
      if i > 0 && NulBefore(s, i) {
        var j :| 0 <= j <= i && j < |s| && s[j] == '\0';
        assert rest[j - 1] == '\0';
      }
      if i > 0 && NulBefore(rest, i - 1) {
        var j :| 0 <= j <= i - 1 && j < |rest| && rest[j] == '\0';
        assert s[j + 1] == '\0';
      }
    }
  }

  /** What the next write call is given: a held TLS segment is written again as it was. */
  function Segment(o: Out): string {
    if o.ssl && o.tls != "" then o.tls else
    var s := Pending(o)[..Min(Left(o), TLS_SEGMENT - 1)];
    if o.ssl then Copied(s) else s
  }

  function Held(o: Out): Out {
    if o.ssl then o.(tls := Segment(o)) else o
  }

  function Scaled(o: Out): Out {
    if o.offset == |o.buffer| then o.(buffer := "", offset := 0) else o
  }

  /** The same segment is given again until it is taken. */
  function Offered(o: Out, answers: seq<Answer>): seq<Call> {
    seq(|answers|, i requires 0 <= i < |answers| => Call(o.ssl, Segment(o), answers[i]))
  }

  function Asked(o: Out, answers: seq<Answer>): Out {
    Held(o).(calls := o.calls + Offered(o, answers))
  }

  function Advanced(o: Out, count: nat): Out {
    Scaled(o.(offset := o.offset + count, tls := ""))
  }

  /** An answer after the retries that WANT_READ causes, what is left of the answers, and of the retries. */
  datatype Settled = Settled(answer: Answer, rest: seq<Answer>, tries: nat)

  function Retry(last: Answer, io: seq<Answer>, tries: nat): (s: Settled)
    ensures |s.rest| <= |io|
    decreases tries
  {
    if last.Wrote? || tries == 0 || io == [] then Settled(last, io, tries)
    else Retry(io[0], io[1..], tries - 1)
  }

  function Settle(ssl: bool, io: seq<Answer>, tries: nat): (s: Settled)
    requires io != []
    ensures |s.rest| < |io|
  {
    if ssl && io[0].WantRead? then Retry(io[0], io[1..], tries) else Settled(io[0], io[1..], tries)
  }

  /** The client after one exchange and its retries. */
  function Asking(o: Out, io: seq<Answer>, tries: nat): Out
    requires io != []
  {
    Asked(o, io[..|io| - |Settle(o.ssl, io, tries).rest|])
  }

  /** And after the transport has taken some bytes. */
  function Taking(o: Out, io: seq<Answer>, tries: nat): Out
    requires io != [] && Settle(o.ssl, io, tries).answer.Wrote?
  {
    Advanced(Asking(o, io, tries), Min(Settle(o.ssl, io, tries).answer.count, |Segment(o)|))
  }

  datatype Written = Written(out: Out, code: int)

  /** The loop of `ci_write`; running out of answers means the transport blocks. */
  function WriteLoop(o: Out, io: seq<Answer>, tries: nat): Written
    decreases |io|
  {
    if Left(o) == 0 then Written(o, 1)
    else if io == [] then Written(Held(o), 0)
    else
      var s := Settle(o.ssl, io, tries);
      match s.answer
      case Wrote(_) => WriteLoop(Taking(o, io, tries), s.rest, s.tries)
      case WantRead => Written(Asking(o, io, tries), 0)
      case Soft => Written(Asking(o, io, tries), 0)
      case Hard => Written(Asking(o, io, tries).(err := true), -1)
  }

  function Queue(o: Out, message: string): Out {
    o.(buffer := o.buffer + message, queued := o.queued + message)
  }

  function Write(o: Out, message: string, io: seq<Answer>, tries: nat): Written {
    if o.err then Written(o, -1) else WriteLoop(Queue(o, message), io, tries)
  }

  /** `ci_wbuf_len`: after a hard error the buffer is dropped, otherwise nothing changes. */
  function Polled(o: Out): Out {
    if o.err then o.(buffer := "") else o
  }

  /** Nothing lost, nothing sent twice; a held segment is what comes next. */
  predicate Sound(o: Out) {
    && o.offset <= |o.buffer|
    && Wire(o.calls) + Pending(o) == o.queued
    && |o.tls| < TLS_SEGMENT && |o.tls| <= |Pending(o)| && o.tls == Pending(o)[..|o.tls|]
    && (!o.ssl ==> o.tls == "")
  }

  lemma PendingNulFree(o: Out)
    requires Sound(o) && NulFree(o.queued)
    ensures NulFree(Pending(o))
  {
    assert forall i :: 0 <= i < |Pending(o)| ==> Pending(o)[i] == o.queued[|Wire(o.calls)| + i];
  }

  lemma SegmentIsNext(o: Out)
    requires Sound(o) && NulFree(o.queued)
    ensures |Segment(o)| <= |Pending(o)| && Segment(o) == Pending(o)[..|Segment(o)|]
    ensures Left(o) > 0 ==> Segment(o) != ""
    ensures |Segment(o)| < TLS_SEGMENT
  {
    PendingNulFree(o);
    if !(o.ssl && o.tls != "") {
      CopiedIsSame(Pending(o)[..Min(Left(o), TLS_SEGMENT - 1)]);
    }
  }

  lemma {:induction false} WireConcat(a: seq<Call>, b: seq<Call>)
    ensures Wire(a + b) == Wire(a) + Wire(b)
  {
    if b == [] {
      assert a + b == a;
    } else {
      var n := |b| - 1;
      WireConcat(a, b[..n]);
      assert (a + b)[..|a| + n] == a + b[..n];
      Assoc(Wire(a), Wire(b[..n]), Taken(b[n]));
    }
  }

  /** No answer but possibly the last one took anything. */
  predicate Refused(answers: seq<Answer>) {
    forall i :: 0 <= i < |answers| - 1 ==> !answers[i].Wrote?
  }

  lemma {:induction false} OfferedWire(o: Out, answers: seq<Answer>)
    requires Refused(answers) && answers != []
    ensures Wire(Offered(o, answers)) == Taken(Call(o.ssl, Segment(o), answers[|answers| - 1]))
  {
    var n := |answers| - 1;
    assert Offered(o, answers)[..n] == Offered(o, answers[..n]);
    if n > 0 {
      OfferedWire(o, answers[..n]);
    }
  }

  lemma {:induction false} RetryStops(last: Answer, io: seq<Answer>, tries: nat)
    ensures var s := Retry(last, io, tries); var n := |io| - |s.rest|;
            && s.rest == io[n..] && s.answer == (if n == 0 then last else io[n - 1])
            && Refused(io[..n]) && (n > 0 ==> !last.Wrote?)
    decreases tries
  {
    if !last.Wrote? && tries > 0 && io != [] {
      RetryStops(io[0], io[1..], tries - 1);
      var n := |io| - |Retry(last, io, tries).rest|;
      assert io[1..][..n - 1] == io[..n][1..];
    }
  }

  /** A call is repeated until it takes something or the retries are over. */
  lemma SettleStops(ssl: bool, io: seq<Answer>, tries: nat)
    requires io != []
    ensures var s := Settle(ssl, io, tries); var n := |io| - |s.rest|;
            n > 0 && s.rest == io[n..] && s.answer == io[n - 1] && Refused(io[..n])
  {
    if ssl && io[0].WantRead? {
      RetryStops(io[0], io[1..], tries);
      var n := |io| - |Settle(ssl, io, tries).rest|;
      assert io[1..][..n - 1] == io[..n][1..];
    }
  }

  lemma AskedWire(o: Out, answers: seq<Answer>)
    requires Refused(answers) && answers != []
    ensures var last := answers[|answers| - 1];
            Wire(Asked(o, answers).calls) == Wire(o.calls) + Taken(Call(o.ssl, Segment(o), last))
  {
    WireConcat(o.calls, Offered(o, answers));
    OfferedWire(o, answers);
  }

  /** Bytes that were taken move from the front of the pending ones to the wire. */
  lemma MovedSound(o: Out, calls: seq<Call>, k: nat)
    requires Sound(o) && k <= |Pending(o)| && Wire(calls) == Wire(o.calls) + Pending(o)[..k]
    ensures Sound(o.(calls := calls, offset := o.offset + k, tls := ""))
  {
    var next := o.(calls := calls, offset := o.offset + k, tls := "");
    assert Pending(next) == Pending(o)[k..];
    SplitAt(Wire(o.calls), Pending(o), k);
  }

  lemma HeldMoves(o: Out, calls: seq<Call>)
    requires Sound(o) && NulFree(o.queued) && Wire(calls) == Wire(o.calls)
    ensures Sound(Held(o).(calls := calls)) && Pending(Held(o).(calls := calls)) == Pending(o)
  {
    HeldSound(o);
  }

  lemma SegmentTaken(o: Out, answer: Answer)
    requires Sound(o) && NulFree(o.queued)
    ensures var k := if answer.Wrote? then Min(answer.count, |Segment(o)|) else 0;
            k <= |Pending(o)| && Taken(Call(o.ssl, Segment(o), answer)) == Pending(o)[..k]
  {
    SegmentIsNext(o);
  }

  /** What the record of one exchange adds to the wire. */
  lemma AskingWire(o: Out, io: seq<Answer>, tries: nat)
    requires io != []
    ensures var s := Settle(o.ssl, io, tries);
            Wire(Asking(o, io, tries).calls) == Wire(o.calls) + Taken(Call(o.ssl, Segment(o), s.answer))
  {
    SettleStops(o.ssl, io, tries);
    AskedWire(o, io[..|io| - |Settle(o.ssl, io, tries).rest|]);
  }

  /** How many bytes that is. */
  lemma AskingCount(o: Out, io: seq<Answer>, tries: nat, answer: Answer)
    requires io != [] && Settle(o.ssl, io, tries).answer == answer
    ensures |Wire(Asking(o, io, tries).calls)| ==
            |Wire(o.calls)| + if answer.Wrote? then Min(answer.count, |Segment(o)|) else 0
  {
    AskingWire(o, io, tries);
  }

  /** An exchange that took nothing: the segment is held. */
  lemma AskingSound(o: Out, io: seq<Answer>, tries: nat)
    requires Sound(o) && NulFree(o.queued) && io != [] && !Settle(o.ssl, io, tries).answer.Wrote?
    ensures var asking := Asking(o, io, tries);
            Sound(asking) && asking.queued == o.queued && Pending(asking) == Pending(o) && asking.err == o.err
  {
    AskingWire(o, io, tries);
    HeldMoves(o, Asking(o, io, tries).calls);
  }

  /** Nothing but the record, the offset and the held segment changes. */
  lemma TakingIs(o: Out, io: seq<Answer>, tries: nat, k: nat)
    requires io != [] && Settle(o.ssl, io, tries).answer.Wrote?
    requires k == Min(Settle(o.ssl, io, tries).answer.count, |Segment(o)|)
    ensures Taking(o, io, tries) ==
            Scaled(o.(calls := Asking(o, io, tries).calls, offset := o.offset + k, tls := ""))
  {
  }

  /** The bytes that were taken are on the wire and no longer pending. */
  lemma PassedSound(o: Out, calls: seq<Call>, answer: Answer, k: nat)
    requires Sound(o) && NulFree(o.queued) && answer.Wrote? && k == Min(answer.count, |Segment(o)|)
    requires Wire(calls) == Wire(o.calls) + Taken(Call(o.ssl, Segment(o), answer))
    ensures var next := Scaled(o.(calls := calls, offset := o.offset + k, tls := ""));
            Sound(next) && k <= Left(o) && Left(next) == Left(o) - k
  {
    SegmentTaken(o, answer);
    MovedSound(o, calls, k);
    ScaledSound(o.(calls := calls, offset := o.offset + k, tls := ""));
  }

  lemma TakingSound(o: Out, io: seq<Answer>, tries: nat)
    requires Sound(o) && NulFree(o.queued) && io != [] && Settle(o.ssl, io, tries).answer.Wrote?
    ensures var taking := Taking(o, io, tries);
            Sound(taking) && taking.queued == o.queued && taking.err == o.err && taking.tls == ""
    ensures var k := Min(Settle(o.ssl, io, tries).answer.count, |Segment(o)|);
            k <= Left(o) && Left(Taking(o, io, tries)) == Left(o) - k
  {
    var answer := Settle(o.ssl, io, tries).answer;
    var k := Min(answer.count, |Segment(o)|);
    TakingIs(o, io, tries, k);
    AskingWire(o, io, tries);
    PassedSound(o, Asking(o, io, tries).calls, answer, k);
  }

  lemma ScaledSound(o: Out)
    requires Sound(o)
    ensures Sound(Scaled(o)) && Scaled(o).queued == o.queued
  {
  }

  lemma HeldSound(o: Out)
    requires Sound(o) && NulFree(o.queued)
    ensures Sound(Held(o)) && Held(o).queued == o.queued
  {
    SegmentIsNext(o);
  }

  /** Nothing is lost; the result is 1 if and only if everything is on the wire, and -1 only on a hard error. */
  predicate WroteWell(queued: string, w: Written) {
    && Sound(w.out) && w.out.queued == queued
    && (w.code == 1 <==> Wire(w.out.calls) == queued)
    && (w.out.err <==> w.code == -1)
  }

  lemma LeftTells(o: Out)
    requires Sound(o)
    ensures Left(o) == 0 <==> Wire(o.calls) == o.queued
  {
    assert |o.queued| == |Wire(o.calls)| + |Pending(o)|;
    if Left(o) == 0 {
      assert Pending(o) == "";
    }
  }

  lemma EndsWell(o: Out, code: int)
    requires Sound(o) && (o.err <==> code == -1) && (code == 1 <==> Left(o) == 0)
    ensures WroteWell(o.queued, Written(o, code))
  {
    LeftTells(o);
  }

  lemma HeldWell(o: Out)
    requires Sound(o) && NulFree(o.queued) && !o.err && Left(o) > 0
    ensures WroteWell(o.queued, Written(Held(o), 0))
  {
    HeldSound(o);
    EndsWell(Held(o), 0);
  }

  lemma LoopTaken(o: Out, io: seq<Answer>, tries: nat)
    requires Left(o) > 0 && io != [] && Settle(o.ssl, io, tries).answer.Wrote?
    ensures var s := Settle(o.ssl, io, tries);
            WriteLoop(o, io, tries) == WriteLoop(Taking(o, io, tries), s.rest, s.tries)
  {
  }

  /** How the loop ends after an exchange that took nothing. */
  function Refusal(asking: Out, hard: bool): Written {
    if hard then Written(asking.(err := true), -1) else Written(asking, 0)
  }

  lemma LoopRefused(o: Out, io: seq<Answer>, tries: nat)
    requires Left(o) > 0 && io != [] && !Settle(o.ssl, io, tries).answer.Wrote?
    ensures WriteLoop(o, io, tries) == Refusal(Asking(o, io, tries), Settle(o.ssl, io, tries).answer.Hard?)
  {
  }

  lemma RefusalWell(asking: Out, hard: bool)
    requires Sound(asking) && !asking.err && Left(asking) > 0
    ensures WroteWell(asking.queued, Refusal(asking, hard))
  {
    EndsWell(if hard then asking.(err := true) else asking, if hard then -1 else 0);
  }

  lemma RefusedWell(o: Out, io: seq<Answer>, tries: nat)
    requires Sound(o) && NulFree(o.queued) && !o.err && Left(o) > 0
    requires io != [] && !Settle(o.ssl, io, tries).answer.Wrote?
    ensures WroteWell(o.queued, WriteLoop(o, io, tries))
  {
    var asking := Asking(o, io, tries);
    assert Sound(asking) && asking.queued == o.queued && Left(asking) > 0 && !asking.err by {
      AskingSound(o, io, tries);
      assert |Pending(asking)| == Left(asking);
    }
    LoopRefused(o, io, tries);
    RefusalWell(asking, Settle(o.ssl, io, tries).answer.Hard?);
  }

  /**
   Partial writes, errors and TLS retries put every byte on the wire exactly once and
   in order; the result is 1 if and only if nothing is left.
   */
  lemma {:induction false} WriteSound(o: Out, io: seq<Answer>, tries: nat)
    requires Sound(o) && NulFree(o.queued) && !o.err
    ensures WroteWell(o.queued, WriteLoop(o, io, tries))
    decreases |io|
  {
    if Left(o) == 0 {
      EndsWell(o, 1);
    } else if io == [] {
      HeldWell(o);
    } else if Settle(o.ssl, io, tries).answer.Wrote? {
      var s := Settle(o.ssl, io, tries);
      TakingSound(o, io, tries);
      WriteSound(Taking(o, io, tries), s.rest, s.tries);
    } else {
      RefusedWell(o, io, tries);
    }
  }

  lemma QueueSound(o: Out, message: string)
    requires Sound(o)
    ensures Sound(Queue(o, message))
  {
    assert Pending(Queue(o, message)) == Pending(o) + message;
  }

  // Runs.

  datatype Operation = Send(message: string, io: seq<Answer>, tries: nat) | StartTls | Poll

  function Operate(o: Out, op: Operation): Out {
    match op
    case Send(message, io, tries) => Write(o, message, io, tries).out
    case StartTls => o.(ssl := true)
    case Poll => Polled(o)
  }

  function Outgoing(ops: seq<Operation>): Out {
    if ops == [] then Out("", 0, "", false, false, [], "") else
    Operate(Outgoing(ops[..|ops| - 1]), ops[|ops| - 1])
  }

  function Messages(ops: seq<Operation>): string {
    if ops == [] then "" else
    Messages(ops[..|ops| - 1]) + if ops[|ops| - 1].Send? then ops[|ops| - 1].message else ""
  }

  predicate NulFreeMessages(ops: seq<Operation>) {
    forall i :: 0 <= i < |ops| ==> ops[i].Send? ==> NulFree(ops[i].message)
  }

  lemma {:induction false} MessagesNulFree(ops: seq<Operation>)
    requires NulFreeMessages(ops)
    ensures NulFree(Messages(ops))
  {
    if ops != [] {
      MessagesNulFree(ops[..|ops| - 1]);
    }
  }

  /**
   Over any run that has not hit a hard error, the bytes on the wire followed by those
   pending are exactly the messages, and a held TLS segment is a prefix of what is
   pending.
   */
  lemma {:induction false} ExactlyOnce(ops: seq<Operation>)
    requires NulFreeMessages(ops) && !Outgoing(ops).err
    ensures var o := Outgoing(ops);
            Sound(o) && Wire(o.calls) + Pending(o) == Messages(ops) && o.tls <= Pending(o)
  {
    if ops != [] {
      var n := |ops| - 1;
      ExactlyOnce(ops[..n]);
      MessagesNulFree(ops);
      var before := Outgoing(ops[..n]);
      if ops[n].Send? {
        QueueSound(before, ops[n].message);
        WriteSound(Queue(before, ops[n].message), ops[n].io, ops[n].tries);
      }
    }
  }

  // The record of calls.

  /** `after` adds calls to `before` whose answers are the first ones of `io`. */
  predicate Records(before: seq<Call>, io: seq<Answer>, after: seq<Call>) {
    && |before| <= |after| <= |before| + |io| && after[..|before|] == before
    && forall i :: |before| <= i < |after| ==> after[i].answer == io[i - |before|]
  }

  lemma AskingRecords(o: Out, io: seq<Answer>, tries: nat)
    requires io != []
    ensures var s := Settle(o.ssl, io, tries); var calls := Asking(o, io, tries).calls;
            Records(o.calls, io, calls) && s.rest == io[|calls| - |o.calls|..]
  {
    SettleStops(o.ssl, io, tries);
  }

  /** The record holds what the transport answered, in order. */
  lemma {:induction false} WriteRecords(o: Out, io: seq<Answer>, tries: nat)
    ensures Records(o.calls, io, WriteLoop(o, io, tries).out.calls)
    decreases |io|
  {
    if Left(o) > 0 && io != [] {
      var s := Settle(o.ssl, io, tries);
      AskingRecords(o, io, tries);
      if s.answer.Wrote? {
        var next := Taking(o, io, tries);
        WriteRecords(next, s.rest, s.tries);
        MoreRecords(o.calls, io, next.calls, s.rest, WriteLoop(next, s.rest, s.tries).out.calls);
      }
    }
  }

  lemma MoreRecords(before: seq<Call>, io: seq<Answer>, asked: seq<Call>, rest: seq<Answer>, after: seq<Call>)
    requires Records(before, io, asked) && Records(asked, rest, after) && rest == io[|asked| - |before|..]
    ensures Records(before, io, after)
  {
    assert after[..|before|] == after[..|asked|][..|before|];
    assert forall i :: |before| <= i < |asked| ==> after[i] == after[..|asked|][i];
  }

  /** Under TLS a segment that was not taken is given again unchanged. */
  predicate Repeated(calls: seq<Call>) {
    forall i, j :: 0 <= i && j == i + 1 < |calls| && calls[i].tls && !calls[i].answer.Wrote? ==>
      calls[j].tls && calls[j].segment == calls[i].segment
  }

  /** And until then it is held. */
  predicate StillHeld(o: Out) {
    o.calls != [] ==>
      var last := o.calls[|o.calls| - 1];
      last.tls && !last.answer.Wrote? ==> o.ssl && o.tls != "" && o.tls == last.segment
  }

  lemma RepeatsConcat(a: seq<Call>, b: seq<Call>)
    requires Repeated(a) && Repeated(b)
    requires a != [] && b != [] && a[|a| - 1].tls && !a[|a| - 1].answer.Wrote? ==>
               b[0].tls && b[0].segment == a[|a| - 1].segment
    ensures Repeated(a + b)
  {
  }

  lemma AskedRepeats(o: Out, answers: seq<Answer>)
    requires Repeated(o.calls) && StillHeld(o) && Refused(answers) && answers != [] && Segment(o) != ""
    ensures Repeated(Asked(o, answers).calls) && StillHeld(Asked(o, answers))
    ensures answers[|answers| - 1].Wrote? ==> forall k :: StillHeld(Advanced(Asked(o, answers), k))
  {
    RepeatsConcat(o.calls, Offered(o, answers));
    assert (o.calls + Offered(o, answers))[|o.calls| + |answers| - 1] == Offered(o, answers)[|answers| - 1];
  }

  lemma AskingRepeats(o: Out, io: seq<Answer>, tries: nat)
    requires Repeated(o.calls) && StillHeld(o) && Segment(o) != "" && io != []
    ensures var asking := Asking(o, io, tries); Repeated(asking.calls) && StillHeld(asking)
    ensures Settle(o.ssl, io, tries).answer.Wrote? ==>
              var taking := Taking(o, io, tries); Repeated(taking.calls) && StillHeld(taking)
  {
    SettleStops(o.ssl, io, tries);
    AskedRepeats(o, io[..|io| - |Settle(o.ssl, io, tries).rest|]);
  }

  lemma {:induction false} WriteRepeats(o: Out, io: seq<Answer>, tries: nat)
    requires Sound(o) && NulFree(o.queued) && Repeated(o.calls) && StillHeld(o)
    ensures var w := WriteLoop(o, io, tries); Repeated(w.out.calls) && StillHeld(w.out)
    decreases |io|
  {
    if Left(o) > 0 {
      assert Segment(o) != "" by {
        SegmentIsNext(o);
      }
      if io != [] {
        var s := Settle(o.ssl, io, tries);
        AskingRepeats(o, io, tries);
        if s.answer.Wrote? {
          TakingSound(o, io, tries);
          WriteRepeats(Taking(o, io, tries), s.rest, s.tries);
        }
      }
    }
  }

  lemma SendRepeats(o: Out, message: string, io: seq<Answer>, tries: nat)
    requires Sound(o) && NulFree(o.queued + message) && Repeated(o.calls) && StillHeld(o)
    ensures var w := Write(o, message, io, tries); Repeated(w.out.calls) && StillHeld(w.out)
  {
    QueueSound(o, message);
    WriteRepeats(Queue(o, message), io, tries);
  }

  /** `SSL_write` is always repeated with the bytes it refused. */
  lemma {:induction false} SegmentsRepeated(ops: seq<Operation>)
    requires NulFreeMessages(ops)
    ensures Repeated(Outgoing(ops).calls) && StillHeld(Outgoing(ops))
  {
    if ops != [] {
      var n := |ops| - 1;
      SegmentsRepeated(ops[..n]);
      var before := Outgoing(ops[..n]);
      if ops[n].Send? && !before.err {
        ExactlyOnce(ops[..n]);
        assert NulFree(before.queued + ops[n].message) by {
          MessagesNulFree(ops);
        }
        SendRepeats(before, ops[n].message, ops[n].io, ops[n].tries);
      }
    }
  }

  // What the result says.

  /** The answer to the last call. */
  function LastAnswer(calls: seq<Call>): Answer
    requires calls != []
  {
    calls[|calls| - 1].answer
  }

  lemma AskingLast(o: Out, io: seq<Answer>, tries: nat)
    requires io != []
    ensures var calls := Asking(o, io, tries).calls;
            calls != [] && |calls| > |o.calls| && LastAnswer(calls) == Settle(o.ssl, io, tries).answer
  {
    SettleStops(o.ssl, io, tries);
  }

  /** The calls after the first n, of a write with `answers` answers to come, tell its result. */
  predicate ToldBy(w: Written, n: nat, answers: nat) {
    var calls := w.out.calls;
    && n <= |calls|
    && (w.code == -1 <==> |calls| > n && LastAnswer(calls).Hard?)
    && (w.code == 0 ==>
          |calls| == n + answers || (|calls| > n && (LastAnswer(calls).Soft? || LastAnswer(calls).WantRead?)))
  }

  /** Earlier calls that ended with bytes taken do not matter. */
  lemma ToldEarlier(w: Written, n: nat, calls: seq<Call>, answers: nat, rest: nat)
    requires n < |calls| && LastAnswer(calls).Wrote? && calls <= w.out.calls
    requires ToldBy(w, |calls|, rest) && |calls| + rest == n + answers
    ensures ToldBy(w, n, answers)
  {
  }

  lemma CallsKept(o: Out, io: seq<Answer>, tries: nat)
    ensures o.calls <= WriteLoop(o, io, tries).out.calls
  {
    WriteRecords(o, io, tries);
  }

  /**
   A write fails if and only if its last call met a hard error. It stops short of the
   end only when the last call took nothing, or the transport gives no more answers.
   */
  lemma {:induction false} CodeExactly(o: Out, io: seq<Answer>, tries: nat)
    ensures ToldBy(WriteLoop(o, io, tries), |o.calls|, |io|)
    decreases |io|
  {
    if Left(o) > 0 && io != [] {
      var s := Settle(o.ssl, io, tries);
      AskingLast(o, io, tries);
      AskingRecords(o, io, tries);
      if s.answer.Wrote? {
        var next := Taking(o, io, tries);
        CodeExactly(next, s.rest, s.tries);
        CallsKept(next, s.rest, s.tries);
        LoopTaken(o, io, tries);
        ToldEarlier(WriteLoop(o, io, tries), |o.calls|, next.calls, |io|, |s.rest|);
      } else {
        LoopRefused(o, io, tries);
      }
    }
  }

  lemma {:induction false} RetryAsks(last: Answer, io: seq<Answer>, tries: nat)
    requires tries >= |io|
    ensures var s := Retry(last, io, tries); (s.answer.Wrote? || s.rest == []) && s.tries >= |s.rest|
    decreases tries
  {
    if !last.Wrote? && tries > 0 && io != [] {
      RetryAsks(io[0], io[1..], tries - 1);
    }
  }

  lemma SettleAsks(io: seq<Answer>, tries: nat)
    requires io != [] && tries >= |io|
    ensures var s := Settle(true, io, tries); (s.answer.WantRead? ==> s.rest == []) && s.tries >= |s.rest|
  {
    if io[0].WantRead? {
      RetryAsks(io[0], io[1..], tries);
    }
  }

  /** If WANT_READ is the last answer, there was no other. */
  predicate AskedAll(w: Written, n: nat, answers: nat) {
    var calls := w.out.calls;
    w.code == 0 && |calls| > n && LastAnswer(calls).WantRead? ==> |calls| == n + answers
  }

  lemma AskedEarlier(w: Written, n: nat, calls: seq<Call>, answers: nat, rest: nat)
    requires n < |calls| && LastAnswer(calls).Wrote? && calls <= w.out.calls
    requires AskedAll(w, |calls|, rest) && |calls| + rest == n + answers
    ensures AskedAll(w, n, answers)
  {
  }

  /** Under TLS a write does not give up on WANT_READ while there are retries and answers. */
  lemma {:induction false} WantReadRetried(o: Out, io: seq<Answer>, tries: nat)
    requires o.ssl && tries >= |io|
    ensures AskedAll(WriteLoop(o, io, tries), |o.calls|, |io|)
    decreases |io|
  {
    if Left(o) > 0 && io != [] {
      var s := Settle(o.ssl, io, tries);
      SettleAsks(io, tries);
      AskingLast(o, io, tries);
      AskingRecords(o, io, tries);
      if s.answer.Wrote? {
        var next := Taking(o, io, tries);
        WantReadRetried(next, s.rest, s.tries);
        CallsKept(next, s.rest, s.tries);
        LoopTaken(o, io, tries);
        AskedEarlier(WriteLoop(o, io, tries), |o.calls|, next.calls, |io|, |s.rest|);
      } else {
        LoopRefused(o, io, tries);
      }
    }
  }

  /** After a hard error nothing more is written, and a length query drops what is left. */
  lemma {:induction false} NothingAfterError(ops: seq<Operation>, more: seq<Operation>)
    requires Outgoing(ops).err
    ensures Outgoing(ops + more).err && Outgoing(ops + more).calls == Outgoing(ops).calls
    ensures more != [] && more[|more| - 1].Poll? ==> Pending(Outgoing(ops + more)) == ""
  {
    if more == [] {
      assert ops + more == ops;
    } else {
      var n := |more| - 1;
      NothingAfterError(ops, more[..n]);
      assert (ops + more)[..|ops| + n] == ops + more[..n] && (ops + more)[|ops| + n] == more[n];
    }
  }

  // A transport that makes progress.

  /** Every answer takes something. */
  predicate Progress(io: seq<Answer>) {
    forall i :: 0 <= i < |io| ==> io[i].Wrote? && io[i].count > 0
  }

  /** Every answer takes all it was given. */
  predicate Greedy(io: seq<Answer>) {
    forall i :: 0 <= i < |io| ==> io[i].Wrote? && io[i].count >= TLS_SEGMENT - 1
  }

  /** A transport that takes a byte at every call needs at most as many calls as there are bytes. */
  lemma {:induction false} ProgressFinishes(o: Out, io: seq<Answer>, tries: nat)
    requires Sound(o) && NulFree(o.queued) && Progress(io) && Left(o) <= |io|
    ensures WriteLoop(o, io, tries).code == 1
    decreases |io|
  {
    if Left(o) > 0 {
      SegmentIsNext(o);
      TakingSound(o, io, tries);
      ProgressFinishes(Taking(o, io, tries), io[1..], tries);
    }
  }

  lemma SegmentSize(o: Out)
    requires Sound(o) && NulFree(o.queued) && o.tls == ""
    ensures |Segment(o)| == Min(Left(o), TLS_SEGMENT - 1)
  {
    PendingNulFree(o);
    CopiedIsSame(Pending(o)[..Min(Left(o), TLS_SEGMENT - 1)]);
  }

  /** What n calls can take: a segment each, except for one that is held and may be short. */
  function Room(o: Out, n: nat): int {
    (if o.tls == "" then n else n - 1) * (TLS_SEGMENT - 1)
  }

  /** One that takes all it is given needs one call per segment, and one more for a held segment. */
  lemma {:induction false} GreedyFinishes(o: Out, io: seq<Answer>, tries: nat)
    requires Sound(o) && NulFree(o.queued) && Greedy(io) && Left(o) <= Room(o, |io|)
    ensures WriteLoop(o, io, tries).code == 1
    decreases |io|
  {
    if Left(o) > 0 {
      var next := Taking(o, io, tries);
      SegmentIsNext(o);
      TakingSound(o, io, tries);
      assert Left(next) <= Room(next, |io[1..]|) by {
        if o.tls == "" {
          SegmentSize(o);
        }
      }
      GreedyFinishes(next, io[1..], tries);
    }
  }

  /** After any run, such a transport gets everything that was ever written. */
  lemma Delivered(ops: seq<Operation>, message: string, io: seq<Answer>, tries: nat)
    requires NulFreeMessages(ops) && NulFree(message) && !Outgoing(ops).err
    requires Greedy(io) && Left(Outgoing(ops)) + |message| <= (|io| - 1) * (TLS_SEGMENT - 1)
    ensures var w := Write(Outgoing(ops), message, io, tries);
            w.code == 1 && Wire(w.out.calls) == Messages(ops) + message
  {
    var o := Outgoing(ops);
    ExactlyOnce(ops);
    MessagesNulFree(ops);
    QueueSound(o, message);
    Assoc(Wire(o.calls), Pending(o), message);
    GreedyFinishes(Queue(o, message), io, tries);
    WriteSound(Queue(o, message), io, tries);
  }

  // Reading.

  /** `received` is all that ever arrived, `handed` all that was given to the caller. */
  datatype In = In(buffer: string, offset: nat, err: bool, received: string, handed: string)

  function Unread(i: In): string {
    if i.offset <= |i.buffer| then i.buffer[i.offset..] else ""
  }

  predicate Intact(i: In) {
    i.offset <= |i.buffer| && i.handed + Unread(i) == i.received
  }

  function Arrived(i: In, chunk: string): In {
    i.(buffer := i.buffer + chunk, received := i.received + chunk)
  }

  /** Hands out the next n bytes and empties a buffer that is used up. */
  function Handed(i: In, n: nat): In
    requires n <= |Unread(i)|
  {
    var j := i.(offset := i.offset + n, handed := i.handed + Unread(i)[..n]);
    if j.offset == |j.buffer| then j.(buffer := "", offset := 0) else j
  }

  /** `ci_read`: all n bytes or none. */
  function Read(i: In, n: nat): In {
    if i.offset + n <= |i.buffer| then Handed(i, n) else i
  }

  /** A read hands out the next n bytes if there are that many, and otherwise nothing. */
  lemma ReadExactly(i: In, n: nat)
    requires Intact(i)
    ensures var given := if n <= |Unread(i)| then Unread(i)[..n] else "";
            Read(i, n).handed == i.handed + given && given + Unread(Read(i, n)) == Unread(i)
  {
    if n <= |Unread(i)| {
      HandedIntact(i, n);
      SplitAt("", Unread(i), n);
      assert i.buffer[i.offset + n..] == Unread(i)[n..];
    }
  }

  /** The position of the first LF before any NUL, or the length if there is none. */
  function LineEnd(s: string): nat {
    if s == "" || s[0] == '\n' then 0 else if s[0] == '\0' then |s| else
    var k := LineEnd(s[1..]);
    1 + k
  }

  lemma LineEndBound(s: string)
    ensures LineEnd(s) <= |s|
    ensures LineEnd(s) < |s| ==> s[LineEnd(s)] == '\n'
  {
  }

  lemma {:induction false} FirstLineFeed(s: string)
    requires NulFree(s)
    ensures LineEnd(s) <= |s| && forall k :: 0 <= k < LineEnd(s) ==> s[k] != '\n'
  {
    if s != "" && s[0] != '\n' {
      FirstLineFeed(s[1..]);
      assert forall k :: 0 < k < |s| ==> s[k] == s[1..][k - 1];
    }
  }

  /** `ci_readln`: up to and including the first LF, or nothing; an endless line is an error. */
  function ReadLine(i: In): In {
    var s := Unread(i);
    LineEndBound(s);
    if LineEnd(s) == |s| then i
    else if LineEnd(s) >= MAX_LINESIZE then i.(err := true)
    else Handed(i, LineEnd(s) + 1)
  }

  lemma SplitAt(before: string, s: string, n: nat)
    requires n <= |s|
    ensures before + s == (before + s[..n]) + s[n..]
  {
  }

  lemma HandedIntact(i: In, n: nat)
    requires Intact(i) && n <= |Unread(i)|
    ensures Intact(Handed(i, n)) && Handed(i, n).received == i.received
    ensures Handed(i, n).handed == i.handed + Unread(i)[..n]
  {
    SplitAt(i.handed, Unread(i), n);
    assert i.buffer[i.offset + n..] == Unread(i)[n..];
  }

  lemma ArrivedIntact(i: In, chunk: string)
    requires Intact(i)
    ensures Intact(Arrived(i, chunk)) && Unread(Arrived(i, chunk)) == Unread(i) + chunk
  {
    assert Unread(Arrived(i, chunk)) == Unread(i) + chunk;
  }

  datatype Input = Chunk(data: string) | TakeBytes(n: nat) | TakeLine

  function Consume(i: In, step: Input): In {
    match step
    case Chunk(data) => Arrived(i, data)
    case TakeBytes(n) => Read(i, n)
    case TakeLine => ReadLine(i)
  }

  function Incoming(steps: seq<Input>): In {
    if steps == [] then In("", 0, false, "", "") else
    Consume(Incoming(steps[..|steps| - 1]), steps[|steps| - 1])
  }

  /** Over any run, bytes handed out followed by bytes unread are the bytes received. */
  lemma {:induction false} InputIntact(steps: seq<Input>)
    ensures Intact(Incoming(steps))
  {
    if steps != [] {
      var n := |steps| - 1;
      InputIntact(steps[..n]);
      var i := Incoming(steps[..n]);
      match steps[n]
      case Chunk(data) => ArrivedIntact(i, data);
      case TakeBytes(k) => if i.offset + k <= |i.buffer| { HandedIntact(i, k); }
      case TakeLine =>
        LineEndBound(Unread(i));
        if LineEnd(Unread(i)) < |Unread(i)| { HandedIntact(i, LineEnd(Unread(i)) + 1); }
    }
  }

  /** A line that is handed out ends at its first LF. */
  lemma LineIsOneLine(i: In)
    requires Intact(i) && NulFree(Unread(i)) && ReadLine(i).handed != i.handed
    ensures exists line :: ReadLine(i).handed == i.handed + line && line != "" && line <= Unread(i)
              && line[|line| - 1] == '\n' && forall k :: 0 <= k < |line| - 1 ==> line[k] != '\n'
  {
    var s := Unread(i);
    LineEndBound(s);
    FirstLineFeed(s);
    var line := s[..LineEnd(s) + 1];
    assert ReadLine(i).handed == i.handed + line;
    assert forall k :: 0 <= k < |line| - 1 ==> line[k] == s[k];
  }

  /** A line is refused exactly when there is no LF yet or the line is too long. */
  lemma NoLineExactly(i: In)
    requires Intact(i) && NulFree(Unread(i))
    ensures ReadLine(i).handed == i.handed <==>
            forall k :: 0 <= k < |Unread(i)| && k < 65536 ==> Unread(i)[k] != '\n'
  {
    var s := Unread(i);
    LineEndBound(s);
    FirstLineFeed(s);
    if LineEnd(s) < |s| && LineEnd(s) < MAX_LINESIZE {
      assert ReadLine(i).handed == i.handed + s[..LineEnd(s) + 1];
      assert |ReadLine(i).handed| > |i.handed|;
    }
  }

  /** The line is given up if and only if there is an LF, but none within the limit. */
  lemma LineErrorExactly(i: In)
    requires Intact(i) && NulFree(Unread(i))
    ensures ReadLine(i).err <==>
            i.err || ('\n' in Unread(i) && forall k :: 0 <= k < |Unread(i)| && k < 65536 ==> Unread(i)[k] != '\n')
  {
    var s := Unread(i);
    LineEndBound(s);
    FirstLineFeed(s);
    if LineEnd(s) < |s| {
      assert s[LineEnd(s)] == '\n';
    }
  }
}
