/**
 The client connection object: its buffers, offsets and counters change in the
 retry loops of `ci_write`, `ci_read_cb`, `ci_read` and `ci_readln`.
 */
module ClientBase {
  import opened Basics
  import opened Spec = WireSpec

  class Client {
    var writeBuffer: string
    var writeOffset: nat
    var tlsBuffer: string
    var ssl: bool
    var writeErr: bool
    var bytesTx: nat
    var readBuffer: string
    var readOffset: nat
    var readErr: bool
    var bytesRx: nat
    ghost var calls: seq<Call>
    ghost var queued: string
    ghost var received: string
    ghost var handed: string

    constructor ()
      ensures OutState() == Outgoing([]) && InState() == Incoming([]) && bytesTx == 0 && bytesRx == 0
    {
      writeBuffer, writeOffset, tlsBuffer, ssl, writeErr, bytesTx := "", 0, "", false, false, 0;
      readBuffer, readOffset, readErr, bytesRx := "", 0, false, 0;
      calls, queued, received, handed := [], "", "", "";
    }

    ghost function OutState(): Out
      reads this
    {
      Out(writeBuffer, writeOffset, tlsBuffer, ssl, writeErr, calls, queued)
    }

    ghost function InState(): In
      reads this
    {
      In(readBuffer, readOffset, readErr, received, handed)
    }

    /** The segment for the next call; under TLS it is kept until it has been accepted. */
    method NextSegment() returns (segment: string)
      modifies this`tlsBuffer
      ensures segment == Segment(old(OutState()))
      ensures OutState() == Held(old(OutState()))
    {
      var left := if writeOffset <= |writeBuffer| then |writeBuffer| - writeOffset else 0;
      var n := if left >= TLS_SEGMENT then TLS_SEGMENT - 1 else left;
      var s := if writeOffset <= |writeBuffer| then writeBuffer[writeOffset..][..n] else "";
      if ssl {
        if tlsBuffer == "" {
          tlsBuffer := Copied(s);
        }
        segment := tlsBuffer;
      } else {
        segment := s;
      }
    }

    /** The transport has accepted t bytes. */
    method Accept(t: nat)
      requires !ssl ==> tlsBuffer == ""
      modifies this`bytesTx, this`writeOffset, this`writeBuffer, this`tlsBuffer
      ensures OutState() == Advanced(old(OutState()), t)
      ensures bytesTx == old(bytesTx) + t
    {
      bytesTx := bytesTx + t;
      writeOffset := writeOffset + t;
      if writeOffset == |writeBuffer| {
        writeBuffer := "";
        writeOffset := 0;
      }
      if ssl {
        tlsBuffer := "";
      }
    }

    /** The answer of the transport, after the retries that WANT_READ asks for. */
    static method Ask(ssl: bool, io: seq<Answer>, at: nat, tries: nat)
      returns (answer: Answer, next: nat, left: nat)
      requires at < |io|
      ensures at < next <= |io|
      ensures Settle(ssl, io[at..], tries) == Settled(answer, io[next..], left)
    {
      answer, next, left := io[at], at + 1, tries;
      if ssl && answer.WantRead? {
        assert io[at..][1..] == io[next..];
        while !answer.Wrote? && left > 0 && next < |io|
          invariant at < next <= |io|
          invariant Retry(answer, io[next..], left) == Retry(io[at], io[at + 1..], tries)
          decreases left
        {
          assert io[next..][0] == io[next] && io[next..][1..] == io[next + 1..];
          answer, next, left := io[next], next + 1, left - 1;
        }
      } else {
        assert io[at..][1..] == io[next..];
      }
    }

    static lemma WasAsked(o: Out, io: seq<Answer>, at: nat, next: nat, tries: nat, s: Settled)
      requires at < next <= |io| && s == Settle(o.ssl, io[at..], tries) && s.rest == io[next..]
      ensures Asked(o, io[at..next]) == Asking(o, io[at..], tries)
    {
      assert io[at..][..|io[at..]| - |s.rest|] == io[at..next];
    }

    /** One exchange with the transport; under TLS the segment is held until it has been taken. */
    method Exchange(io: seq<Answer>, at: nat, tries: nat)
      returns (size: nat, answer: Answer, next: nat, left: nat)
      requires at < |io|
      modifies this`tlsBuffer, this`calls
      ensures at < next <= |io| && size == |Segment(old(OutState()))|
      ensures Settle(ssl, io[at..], tries) == Settled(answer, io[next..], left)
      ensures OutState() == Asking(old(OutState()), io[at..], tries)
    {
      ghost var before := OutState();
      var segment := NextSegment();
      size := |segment|;
      answer, next, left := Ask(ssl, io, at, tries);
      calls := calls + Offered(before, io[at..next]);
      WasAsked(before, io, at, next, tries, Settled(answer, io[next..], left));
    }

    /** One turn of the loop of `ci_write`: bytes are taken, or the loop ends with a result. */
    method Turn(io: seq<Answer>, at: nat, tries: nat) returns (goOn: bool, code: int, next: nat, left: nat)
      requires at < |io| && Left(OutState()) > 0 && (!ssl ==> tlsBuffer == "")
      modifies this`bytesTx, this`writeOffset, this`writeBuffer, this`tlsBuffer, this`writeErr, this`calls
      ensures at < next <= |io| && (goOn ==> writeErr == old(writeErr) && (!ssl ==> tlsBuffer == ""))
      ensures WriteLoop(old(OutState()), io[at..], tries) ==
              if goOn then WriteLoop(OutState(), io[next..], left) else Written(OutState(), code)
      ensures bytesTx - |Wire(calls)| == old(bytesTx) - |Wire(old(calls))|
    {
      ghost var before := OutState();
      var size, answer;
      size, answer, next, left := Exchange(io, at, tries);
      AskingCount(before, io[at..], tries, answer);
      goOn, code := answer.Wrote?, 0;
      if answer.Wrote? {
        LoopTaken(before, io[at..], tries);
        Accept(Min(answer.count, size));
      } else {
        LoopRefused(before, io[at..], tries);
        if answer.Hard? {
          writeErr, code := true, -1;
        }
      }
    }

    /** `ci_write` for the given answers of the transport. */
    method Write(message: string, io: seq<Answer>, tries: nat) returns (code: int)
      requires !ssl ==> tlsBuffer == ""
      modifies this`bytesTx, this`writeOffset, this`writeBuffer, this`tlsBuffer, this`writeErr, this`calls, this`queued
      ensures OutState() == Spec.Write(old(OutState()), message, io, tries).out
      ensures code == Spec.Write(old(OutState()), message, io, tries).code
      ensures bytesTx - |Wire(calls)| == old(bytesTx) - |Wire(old(calls))|
    {
      if writeErr {
        return -1;
      }
      writeBuffer := writeBuffer + message;
      queued := queued + message;
      ghost var start := OutState();
      var at, left := 0, tries;
      while writeOffset < |writeBuffer|
        invariant 0 <= at <= |io|
        invariant !ssl ==> tlsBuffer == ""
        invariant WriteLoop(OutState(), io[at..], left) == WriteLoop(start, io, tries)
        invariant bytesTx - |Wire(calls)| == old(bytesTx) - |Wire(old(calls))|
        decreases |io| - at
      {
        if at == |io| {
          var _ := NextSegment();
          return 0;
        }
        var goOn;
        goOn, code, at, left := Turn(io, at, left);
        if !goOn {
          return;
        }
      }
      return 1;
    }

    /** `ci_wbuf_len`: what is left to write; a hard error drops the buffer. */
    method WbufLen() returns (len: nat)
      modifies this`writeBuffer
      ensures OutState() == Polled(old(OutState()))
      ensures writeErr ==> len == 0 && writeBuffer == ""
      ensures !writeErr ==> writeBuffer == old(writeBuffer) && len == Left(OutState())
    {
      if writeErr {
        writeBuffer := "";
        return 0;
      }
      len := if writeOffset <= |writeBuffer| then |writeBuffer| - writeOffset else 0;
    }

    /** `ci_read_cb`: everything that is available goes into the buffer. */
    method Receive(chunks: seq<string>)
      modifies this`readBuffer, this`bytesRx, this`received
      ensures readBuffer == old(readBuffer) + Joined(chunks) && received == old(received) + Joined(chunks)
      ensures bytesRx - |received| == old(bytesRx) - |old(received)|
    {
      for i := 0 to |chunks|
        invariant readBuffer == old(readBuffer) + Joined(chunks[..i])
        invariant received == old(received) + Joined(chunks[..i])
        invariant bytesRx - |received| == old(bytesRx) - |old(received)|
      {
        assert chunks[..i + 1][..i] == chunks[..i];
        bytesRx := bytesRx + |chunks[i]|;
        readBuffer := readBuffer + chunks[i];
        received := received + chunks[i];
      }
      assert chunks[..|chunks|] == chunks;
    }

    method Take(n: nat) returns (out: string)
      requires n <= |Unread(InState())| && readOffset <= |readBuffer|
      modifies this`readOffset, this`readBuffer, this`handed
      ensures out == Unread(old(InState()))[..n] && InState() == Handed(old(InState()), n)
    {
      out := readBuffer[readOffset..][..n];
      handed := handed + out;
      readOffset := readOffset + n;
      if readOffset == |readBuffer| {
        readBuffer := "";
        readOffset := 0;
      }
    }

    /** `ci_read`. */
    method Read(n: nat) returns (out: string)
      requires readOffset <= |readBuffer|
      modifies this`readOffset, this`readBuffer, this`handed
      ensures InState() == Spec.Read(old(InState()), n)
      ensures handed == old(handed) + out
      ensures out == if n <= |Unread(old(InState()))| then Unread(old(InState()))[..n] else ""
    {
      out := "";
      if readOffset + n <= |readBuffer| {
        out := Take(n);
      }
    }

    /** `ci_readln`. */
    method ReadLn() returns (line: string)
      requires readOffset <= |readBuffer|
      modifies this`readOffset, this`readBuffer, this`readErr, this`handed
      ensures InState() == ReadLine(old(InState()))
      ensures handed == old(handed) + line
    {
      line := "";
      var s := readBuffer[readOffset..];
      var l := FindLineFeed(s);
      if l < |s| {
        if l >= MAX_LINESIZE {
          readErr := true;
          return;
        }
        line := Take(l + 1);
      }
    }

    /** The search for the first LF in a NUL-terminated string. */
    static method FindLineFeed(s: string) returns (l: nat)
      ensures l == LineEnd(s) && l <= |s|
    {
      l := 0;
      assert s[0..] == s;
      while l < |s| && s[l] != '\n' && s[l] != '\0'
        invariant l <= |s|
        invariant l + LineEnd(s[l..]) == LineEnd(s)
      {
        assert s[l..][1..] == s[l + 1..];
        l := l + 1;
      }
      if l < |s| && s[l] == '\0' {
        l := |s|;
      }
    }
  }

  function Joined(chunks: seq<string>): string {
    if chunks == [] then "" else Joined(chunks[..|chunks| - 1]) + chunks[|chunks| - 1]
  }
}
