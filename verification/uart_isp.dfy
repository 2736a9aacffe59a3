/**
 The client side of the STM32 USART bootloader protocol (ST application note
 AN3155): handshake, Get ID, mass erase and Write Memory, each as a pure
 function from a scripted serial link to a result and the link afterwards.
 */
module UartIsp {
  import opened Seqs
  import opened Bytes
  import opened Results
  import opened SerialLink

  const ACK: byte := 0x79
  const NACK: byte := 0x1F
  const SYNC: byte := 0x7F

  const GET_ID: byte := 0x02
  const WRITE_MEMORY: byte := 0x31
  const ERASE: byte := 0x43

  /** The bootloader accepts at most 256 bytes per Write Memory command. */
  const MaxWrite: nat := 256

  /** The retry budget `handshake` and `getChipId` use when the caller gives none. */
  const DefaultRetries: nat := 10

  /** A command is its opcode followed by the opcode's complement. */
  function Command(op: byte): (r: seq<byte>)
    ensures |r| == 2 && r[0] == op && Xor(r[0], r[1]) == 0xFF
  {
    XorNatAllOnes(op, 256);
    XorNatAssoc(op, op, 0xFF);
    XorNatSelf(op);
    [op, Complement(op)]
  }

  /** The next read delivers an ACK. */
  predicate AckAt(script: seq<Event>, i: nat)
  {
    i < |script| && script[i] == Arrive(ACK)
  }

  // ---------------------------------------------------------------------------
  // Acknowledgements

  /** The ways a read that must deliver an ACK can fail. */
  predicate AckFailure(e: Error)
  {
    e == Nack || e == Timeout || e == Disconnected || e.Unexpected?
  }

  /** `waitForAck`: ACK succeeds, NACK and any other byte fail, read errors pass through. */
  function WaitForAck(l: Link): (r: Step<()>)
    ensures r.link.sent == l.sent
    ensures r.result.Ok? <==> Head(l.script) == Arrive(ACK)
    ensures r.result.Ok? ==> r.link.script == l.script[1..]
    ensures r.result == Err(Nack) <==> Head(l.script) == Arrive(NACK)
    ensures r.result == Err(Timeout) <==> Head(l.script) == Silence
    ensures r.result == Err(Disconnected) <==> Head(l.script) == Hangup
    ensures (r.result.Err? && r.result.error.Unexpected?)
        <==> (Head(l.script).Arrive? && Head(l.script).b != ACK && Head(l.script).b != NACK)
    ensures r.result.Err? && r.result.error.Unexpected? ==> r.result.error.got == Head(l.script).b
    ensures r.result.Err? ==> AckFailure(r.result.error)
  {
    var rd := ReadByte(l);
    if rd.result.Err? then Step(Err(rd.result.error), rd.link)
    else if rd.result.value == ACK then Step(Ok(()), rd.link)
    else if rd.result.value == NACK then Step(Err(Nack), rd.link)
    else Step(Err(Unexpected(rd.result.value)), rd.link)
  }

  /** The event answers a sync byte: ACK, or NACK from a bootloader already in command mode. */
  predicate Answers(e: Event)
  {
    e == Arrive(ACK) || e == Arrive(NACK)
  }

  /** The event makes a handshake attempt fail without ending the retries early. */
  predicate Retryable(e: Event)
  {
    e.Silence? || (e.Arrive? && !Answers(e))
  }

  /** `waitForHandshakeResponse`: both ACK and NACK count as success. */
  function WaitForHandshakeResponse(l: Link): (r: Step<()>)
    ensures r.link.sent == l.sent
    ensures r.result.Ok? <==> Answers(Head(l.script))
    ensures r.result == Err(Disconnected) <==> Head(l.script) == Hangup
    ensures r.result.Err? && r.result.error != Disconnected <==> Retryable(Head(l.script))
    ensures Head(l.script) != Hangup ==> r.link.script == Rest(l.script)
    ensures Head(l.script) == Hangup ==> r.link == l
  {
    var rd := ReadByte(l);
    if rd.result.Err? then Step(Err(rd.result.error), rd.link)
    else if rd.result.value == ACK || rd.result.value == NACK then Step(Ok(()), rd.link)
    else Step(Err(Unexpected(rd.result.value)), rd.link)
  }

  // ---------------------------------------------------------------------------
  // Handshake

  /** Errors after which `handshake` stops retrying: a closed port. */
  predicate IsFatal(e: Error)
  {
    e == Disconnected
  }

  /**
   Attempts `attempt` to `maxRetries` of `handshake`. Each attempt sends one
   sync byte and reads one reply. The exhaustion test comes before the
   fatal-error test, so a disconnection on the last attempt reports
   exhaustion. With no attempt left the loop falls through and returns normally.
   */
  function HandshakeFrom(l: Link, attempt: nat, maxRetries: nat): (r: Step<()>)
    requires 1 <= attempt <= maxRetries + 1
    ensures exists n: nat :: n <= maxRetries + 1 - attempt && r.link.sent == l.sent + Repeat(SYNC, n)
    ensures r.result.Ok? || r.result.error.HandshakeFailed? || r.result == Err(Fatal(Disconnected))
    ensures attempt == maxRetries + 1 ==> r == Step(Ok(()), l)
    decreases maxRetries + 1 - attempt
  {
    if attempt == maxRetries + 1 then
      assert l.sent + Repeat(SYNC, 0) == l.sent;
      Step(Ok(()), l)
    else
      var w := WaitForHandshakeResponse(Send(l, [SYNC]));
      assert w.link.sent == l.sent + Repeat(SYNC, 1);
      if w.result.Ok? then w
      else if attempt == maxRetries then Step(Err(HandshakeFailed(w.result.error)), w.link)
      else if IsFatal(w.result.error) then Step(Err(Fatal(w.result.error)), w.link)
      else
        var r := HandshakeFrom(w.link, attempt + 1, maxRetries);
        var n: nat :| n <= maxRetries - attempt && r.link.sent == w.link.sent + Repeat(SYNC, n);
        RepeatAppend(SYNC, 1, n);
        assert r.link.sent == l.sent + Repeat(SYNC, n + 1);
        r
  }

  /** `handshake(maxRetries)`: never more than `maxRetries` sync bytes are sent. */
  function Handshake(l: Link, maxRetries: nat): (r: Step<()>)
    ensures exists n: nat :: n <= maxRetries && r.link.sent == l.sent + Repeat(SYNC, n)
    ensures r.result.Ok? || r.result.error.HandshakeFailed? || r.result == Err(Fatal(Disconnected))
    ensures maxRetries == 0 ==> r == Step(Ok(()), l)
  {
    HandshakeFrom(l, 1, maxRetries)
  }

  /**
   If the first `k - 1` attempts fail retryably and attempt `k` is answered
   with ACK or NACK, the handshake succeeds after exactly `k` sync bytes.
   */
  lemma {:induction false} HandshakeAnsweredOn(l: Link, attempt: nat, k: nat, maxRetries: nat)
    requires 1 <= attempt && 1 <= k && attempt + k - 1 <= maxRetries
    requires forall i :: 0 <= i < k - 1 ==> Retryable(Pending(l.script, i))
    requires Answers(Pending(l.script, k - 1))
    ensures HandshakeFrom(l, attempt, maxRetries).result.Ok?
    ensures HandshakeFrom(l, attempt, maxRetries).link.sent == l.sent + Repeat(SYNC, k)
    ensures HandshakeFrom(l, attempt, maxRetries).link.script == l.script[k..]
    decreases k
  {
    var w := WaitForHandshakeResponse(Send(l, [SYNC]));
    assert Head(l.script) == Pending(l.script, 0);
    if k > 1 {
      assert Retryable(Pending(l.script, 0));
      assert w.link.script == Rest(l.script);
      forall i | 0 <= i < k - 2
        ensures Retryable(Pending(w.link.script, i))
      {
        assert Pending(w.link.script, i) == Pending(l.script, i + 1);
      }
      assert Pending(w.link.script, k - 2) == Pending(l.script, k - 1);
      HandshakeAnsweredOn(w.link, attempt + 1, k - 1, maxRetries);
      RepeatAppend(SYNC, 1, k - 1);
      assert l.sent + [SYNC] + Repeat(SYNC, k - 1) == l.sent + Repeat(SYNC, k);
      assert l.script[1..][k - 1..] == l.script[k..];
    }
  }

  /** A reply on attempt `k` (of at most `maxRetries`) costs exactly `k` sync bytes. */
  lemma HandshakeSucceedsOnAttempt(l: Link, k: nat, maxRetries: nat)
    requires 1 <= k <= maxRetries
    requires forall i :: 0 <= i < k - 1 ==> Retryable(Pending(l.script, i))
    requires Answers(Pending(l.script, k - 1))
    ensures Handshake(l, maxRetries).result.Ok?
    ensures Handshake(l, maxRetries).link.sent == l.sent + Repeat(SYNC, k)
  {
    HandshakeAnsweredOn(l, 1, k, maxRetries);
  }

  /**
   A port that hangs up on attempt `k` ends the handshake there: as fatal
   when attempts remain, as exhausted when it was the last one.
   */
  lemma {:induction false} HandshakeHangupOn(l: Link, attempt: nat, k: nat, maxRetries: nat)
    requires 1 <= attempt && 1 <= k && attempt + k - 1 <= maxRetries
    requires forall i :: 0 <= i < k - 1 ==> Retryable(Pending(l.script, i))
    requires Pending(l.script, k - 1) == Hangup
    ensures HandshakeFrom(l, attempt, maxRetries).link.sent == l.sent + Repeat(SYNC, k)
    ensures attempt + k - 1 < maxRetries ==> HandshakeFrom(l, attempt, maxRetries).result == Err(Fatal(Disconnected))
    ensures attempt + k - 1 == maxRetries ==> HandshakeFrom(l, attempt, maxRetries).result == Err(HandshakeFailed(Disconnected))
    decreases k
  {
    var w := WaitForHandshakeResponse(Send(l, [SYNC]));
    assert Head(l.script) == Pending(l.script, 0);
    if k > 1 {
      assert Retryable(Pending(l.script, 0));
      assert w.link.script == Rest(l.script);
      forall i | 0 <= i < k - 2
        ensures Retryable(Pending(w.link.script, i))
      {
        assert Pending(w.link.script, i) == Pending(l.script, i + 1);
      }
      assert Pending(w.link.script, k - 2) == Pending(l.script, k - 1);
      HandshakeHangupOn(w.link, attempt + 1, k - 1, maxRetries);
      RepeatAppend(SYNC, 1, k - 1);
      assert l.sent + [SYNC] + Repeat(SYNC, k - 1) == l.sent + Repeat(SYNC, k);
    }
  }

  /** A disconnection before the last attempt stops retrying at once. */
  lemma HandshakeStopsOnDisconnect(l: Link, k: nat, maxRetries: nat)
    requires 1 <= k <= maxRetries
    requires forall i :: 0 <= i < k - 1 ==> Retryable(Pending(l.script, i))
    requires Pending(l.script, k - 1) == Hangup
    ensures Handshake(l, maxRetries).link.sent == l.sent + Repeat(SYNC, k)
    ensures k < maxRetries ==> Handshake(l, maxRetries).result == Err(Fatal(Disconnected))
    ensures k == maxRetries ==> Handshake(l, maxRetries).result == Err(HandshakeFailed(Disconnected))
  {
    HandshakeHangupOn(l, 1, k, maxRetries);
  }

  lemma {:induction false} HandshakeUnansweredFrom(l: Link, attempt: nat, maxRetries: nat)
    requires 1 <= attempt <= maxRetries
    requires forall i :: 0 <= i <= maxRetries - attempt ==> Retryable(Pending(l.script, i))
    ensures HandshakeFrom(l, attempt, maxRetries).result.Err?
    ensures HandshakeFrom(l, attempt, maxRetries).result.error.HandshakeFailed?
    ensures HandshakeFrom(l, attempt, maxRetries).link.sent == l.sent + Repeat(SYNC, maxRetries + 1 - attempt)
    decreases maxRetries - attempt
  {
    var w := WaitForHandshakeResponse(Send(l, [SYNC]));
    assert Head(l.script) == Pending(l.script, 0);
    if attempt < maxRetries {
      assert w.link.script == Rest(l.script);
      forall i | 0 <= i <= maxRetries - attempt - 1
        ensures Retryable(Pending(w.link.script, i))
      {
        assert Pending(w.link.script, i) == Pending(l.script, i + 1);
      }
      HandshakeUnansweredFrom(w.link, attempt + 1, maxRetries);
      RepeatAppend(SYNC, 1, maxRetries - attempt);
      assert l.sent + [SYNC] + Repeat(SYNC, maxRetries - attempt) == l.sent + Repeat(SYNC, maxRetries + 1 - attempt);
    }
  }

  /** A bootloader that never answers exhausts every attempt, one sync byte each. */
  lemma HandshakeExhausts(l: Link, maxRetries: nat)
    requires maxRetries >= 1
    requires forall i :: 0 <= i < maxRetries ==> Retryable(Pending(l.script, i))
    ensures Handshake(l, maxRetries).result.Err?
    ensures Handshake(l, maxRetries).result.error.HandshakeFailed?
    ensures Handshake(l, maxRetries).link.sent == l.sent + Repeat(SYNC, maxRetries)
  {
    HandshakeUnansweredFrom(l, 1, maxRetries);
  }

  /** With the default budget, a bootloader that never answers costs ten sync bytes. */
  lemma DefaultHandshakeGivesUp(l: Link)
    requires forall i :: 0 <= i < DefaultRetries ==> Retryable(Pending(l.script, i))
    ensures Handshake(l, DefaultRetries).result.Err?
    ensures Handshake(l, DefaultRetries).result.error.HandshakeFailed?
    ensures Handshake(l, DefaultRetries).link.sent == l.sent + Repeat(SYNC, 10)
  {
    HandshakeExhausts(l, DefaultRetries);
  }

  // ---------------------------------------------------------------------------
  // Get ID

  /**
   The script starts with a complete Get ID reply: ACK, a length byte L,
   L + 1 bytes and a final ACK.
   */
  predicate IdReply(script: seq<Event>)
  {
    && 2 <= |script|
    && script[0] == Arrive(ACK)
    && script[1].Arrive?
    && script[1].b + 4 <= |script|
    && (forall i :: 2 <= i < script[1].b + 3 ==> script[i].Arrive?)
    && script[script[1].b + 3] == Arrive(ACK)
  }

  /** The identification bytes of a complete Get ID reply. */
  function IdBytes(script: seq<Event>): (id: seq<byte>)
    requires IdReply(script)
    ensures |id| == script[1].b + 1
    ensures Delivers(script[2..], id)
  {
    seq(script[1].b + 1, i requires 0 <= i < script[1].b + 1 => script[2 + i].b)
  }

  /** One Get ID exchange: `[0x02, 0xFD]`, ACK, L, L + 1 bytes, ACK. */
  function GetIdAttempt(l: Link): (r: Step<seq<byte>>)
    ensures r.link.sent == l.sent + Command(GET_ID)
    ensures r.result.Ok? <==> IdReply(l.script)
    ensures r.result.Ok? ==> r.result.value == IdBytes(l.script)
    ensures r.result.Ok? ==> r.link.script == l.script[|r.result.value| + 3..]
    ensures Head(l.script) == Hangup ==> r == Step(Err(Disconnected), Send(l, Command(GET_ID)))
  {
    var l1 := Send(l, Command(GET_ID));
    var a := WaitForAck(l1);
    if a.result.Err? then Step(Err(a.result.error), a.link)
    else
      var len := ReadByte(a.link);
      if len.result.Err? then Step(Err(len.result.error), len.link)
      else
        var data := ReadBytes(len.link, len.result.value + 1);
        if data.result.Err? then Step(Err(data.result.error), data.link)
        else
          var f := WaitForAck(data.link);
          if f.result.Err? then Step(Err(f.result.error), f.link)
          else
            assert l.script[2..][len.result.value + 1..] == l.script[len.result.value + 3..];
            Step(Ok(data.result.value), f.link)
  }

  /** Repeated Get ID commands, one per attempt. */
  function GetIdCommands(n: nat): (r: seq<byte>)
    ensures |r| == 2 * n
  {
    if n == 0 then [] else Command(GET_ID) + GetIdCommands(n - 1)
  }

  /**
   Attempts `attempt` to `maxRetries` of `getChipId`. Unlike the handshake,
   every failure is retried, a disconnection included. With no attempt left
   the loop falls through and `undefined` (here `None`) is returned.
   */
  function GetChipIdFrom(l: Link, attempt: nat, maxRetries: nat): (r: Step<Option<seq<byte>>>)
    requires 1 <= attempt <= maxRetries + 1
    ensures SentIdCommands(l.sent, r.link.sent, maxRetries + 1 - attempt)
    ensures r.result.Ok? && r.result.value.Some? ==> 1 <= |r.result.value.value| <= 256
    ensures r.result == Ok(None) <==> attempt == maxRetries + 1
    ensures r.result.Err? ==> r.result.error.GetIdFailed?
    ensures r.result.Err? ==> r.link.sent == l.sent + GetIdCommands(maxRetries + 1 - attempt)
    decreases maxRetries + 1 - attempt
  {
    if attempt == maxRetries + 1 then
      SentNoIdCommand(l.sent, 0);
      Step(Ok(None), l)
    else
      var a := GetIdAttempt(l);
      SentOneIdCommand(l.sent, maxRetries + 1 - attempt);
      if a.result.Ok? then Step(Ok(Some(a.result.value)), a.link)
      else if attempt == maxRetries then
        IdCommandsCons(l.sent, 0);
        Step(Err(GetIdFailed(a.result.error)), a.link)
      else
        var r := GetChipIdFrom(a.link, attempt + 1, maxRetries);
        SentIdCommandsStep(l.sent, r.link.sent, maxRetries - attempt);
        IdCommandsCons(l.sent, maxRetries - attempt);
        r
  }

  /** One more Get ID command in front of `n` of them. */
  lemma IdCommandsCons(before: seq<byte>, n: nat)
    ensures before + Command(GET_ID) + GetIdCommands(n) == before + GetIdCommands(n + 1)
  {
    assert GetIdCommands(n + 1) == Command(GET_ID) + GetIdCommands(n);
  }

  /** `after` is `before` followed by at most `bound` Get ID commands. */
  predicate SentIdCommands(before: seq<byte>, after: seq<byte>, bound: nat)
  {
    exists n: nat :: n <= bound && after == before + GetIdCommands(n)
  }

  lemma SentNoIdCommand(before: seq<byte>, bound: nat)
    ensures SentIdCommands(before, before, bound)
  {
    assert before + GetIdCommands(0) == before;
  }

  lemma SentOneIdCommand(before: seq<byte>, bound: nat)
    requires bound >= 1
    ensures SentIdCommands(before, before + Command(GET_ID), bound)
  {
    assert GetIdCommands(1) == Command(GET_ID);
  }

  /** One more command in front keeps the form, with one more allowed. */
  lemma SentIdCommandsStep(before: seq<byte>, after: seq<byte>, bound: nat)
    requires SentIdCommands(before + Command(GET_ID), after, bound)
    ensures SentIdCommands(before, after, bound + 1)
  {
    var n: nat :| n <= bound && after == before + Command(GET_ID) + GetIdCommands(n);
    assert after == before + GetIdCommands(n + 1);
  }

  /** `getChipId(maxRetries)`. */
  function GetChipId(l: Link, maxRetries: nat): (r: Step<Option<seq<byte>>>)
    ensures SentIdCommands(l.sent, r.link.sent, maxRetries)
    ensures r.result.Ok? && r.result.value.Some? ==> 1 <= |r.result.value.value| <= 256
    ensures r.result == Ok(None) <==> maxRetries == 0
    ensures r.result.Err? ==> r.result.error.GetIdFailed?
    ensures r.result.Err? ==> r.link.sent == l.sent + GetIdCommands(maxRetries)
  {
    GetChipIdFrom(l, 1, maxRetries)
  }

  /**
   The first `n` Get ID exchanges run back to back whatever their outcome,
   each on the link the previous one left: the reference the retry loop is
   measured against.
   */
  function Attempts(l: Link, n: nat): (r: seq<Step<seq<byte>>>)
    ensures |r| == n
    ensures n > 0 ==> r[0] == GetIdAttempt(l)
    decreases n
  {
    if n == 0 then [] else [GetIdAttempt(l)] + Attempts(GetIdAttempt(l).link, n - 1)
  }

  /** The first `k` exchanges of `rs` (or all of them, if fewer) failed. */
  predicate FailFirst(rs: seq<Step<seq<byte>>>, k: nat)
  {
    forall j :: 0 <= j < k && j < |rs| ==> rs[j].result.Err?
  }

  /** Exchange `i` runs on the link exchange `i - 1` left, and `i + 1` commands are sent by its end. */
  lemma {:induction false} AttemptsChain(l: Link, n: nat, i: nat)
    requires i < n
    ensures 0 < i ==> Attempts(l, n)[i] == GetIdAttempt(Attempts(l, n)[i - 1].link)
    ensures Attempts(l, n)[i].link.sent == l.sent + GetIdCommands(i + 1)
    decreases i
  {
    var a := GetIdAttempt(l);
    if i == 0 {
      assert GetIdCommands(1) == Command(GET_ID);
    } else {
      AttemptsShift(l, n, i);
      if i > 1 {
        AttemptsShift(l, n, i - 1);
      }
      AttemptsChain(a.link, n - 1, i - 1);
      IdCommandsCons(l.sent, i);
    }
  }

  /** Failures among the exchanges after the first are failures among the later exchanges' own run. */
  lemma AttemptsTail(l: Link, n: nat, k: nat)
    requires 0 < n
    ensures FailFirst(Attempts(l, n), k + 1)
        <==> Attempts(l, n)[0].result.Err? && FailFirst(Attempts(GetIdAttempt(l).link, n - 1), k)
  {
    var rs, rest := Attempts(l, n), Attempts(GetIdAttempt(l).link, n - 1);
    assert forall j :: 0 <= j < |rest| ==> rs[j + 1] == rest[j];
    if rs[0].result.Err? && FailFirst(rest, k) {
      forall j | 0 <= j < k + 1 && j < |rs|
        ensures rs[j].result.Err?
      {
        if j > 0 {
          assert rs[j] == rest[j - 1];
        }
      }
    }
  }

  /** Exchange `i > 0` of a run is exchange `i - 1` of the run after the first exchange. */
  lemma AttemptsShift(l: Link, n: nat, i: nat)
    requires 0 < i < n
    ensures Attempts(l, n)[i] == Attempts(GetIdAttempt(l).link, n - 1)[i - 1]
  {
  }

  /** A failed exchange on the last attempt ends the loop with its error. */
  lemma GetChipIdFromLast(l: Link, maxRetries: nat)
    requires 1 <= maxRetries && GetIdAttempt(l).result.Err?
    ensures GetChipIdFrom(l, maxRetries, maxRetries)
         == Step(Err(GetIdFailed(GetIdAttempt(l).result.error)), GetIdAttempt(l).link)
  {
  }

  /** A failed exchange before the last attempt hands over to the next attempt. */
  lemma GetChipIdFromNext(l: Link, attempt: nat, maxRetries: nat)
    requires 1 <= attempt < maxRetries && GetIdAttempt(l).result.Err?
    ensures GetChipIdFrom(l, attempt, maxRetries) == GetChipIdFrom(GetIdAttempt(l).link, attempt + 1, maxRetries)
  {
  }

  /** A successful exchange ends the loop with its bytes. */
  lemma GetChipIdFromFirst(l: Link, attempt: nat, maxRetries: nat)
    requires 1 <= attempt <= maxRetries && GetIdAttempt(l).result.Ok?
    ensures GetChipIdFrom(l, attempt, maxRetries) == Step(Ok(Some(GetIdAttempt(l).result.value)), GetIdAttempt(l).link)
  {
  }

  /**
   From `attempt` on, the loop returns what the first successful exchange
   returned; `n` is the number of attempts left.
   */
  lemma {:induction false} GetChipIdFromSucceeds(l: Link, attempt: nat, maxRetries: nat, n: nat, i: nat)
    requires 1 <= attempt <= maxRetries && n == maxRetries + 1 - attempt
    requires i < n && Attempts(l, n)[i].result.Ok? && FailFirst(Attempts(l, n), i)
    ensures GetChipIdFrom(l, attempt, maxRetries)
         == Step(Ok(Some(Attempts(l, n)[i].result.value)), Attempts(l, n)[i].link)
    decreases i
  {
    if i > 0 {
      SucceedsLater(l, attempt, maxRetries, n, i);
      GetChipIdFromSucceeds(GetIdAttempt(l).link, attempt + 1, maxRetries, n - 1, i - 1);
    } else {
      GetChipIdFromFirst(l, attempt, maxRetries);
    }
  }

  /** When the first success comes later, the first exchange failed and the loop goes on. */
  lemma SucceedsLater(l: Link, attempt: nat, maxRetries: nat, n: nat, i: nat)
    requires 1 <= attempt <= maxRetries && n == maxRetries + 1 - attempt
    requires 0 < i < n && Attempts(l, n)[i].result.Ok? && FailFirst(Attempts(l, n), i)
    ensures attempt < maxRetries && GetIdAttempt(l).result.Err?
    ensures Attempts(GetIdAttempt(l).link, n - 1)[i - 1] == Attempts(l, n)[i]
    ensures FailFirst(Attempts(GetIdAttempt(l).link, n - 1), i - 1)
    ensures GetChipIdFrom(l, attempt, maxRetries) == GetChipIdFrom(GetIdAttempt(l).link, attempt + 1, maxRetries)
  {
    AttemptsTail(l, n, i - 1);
    AttemptsShift(l, n, i);
    GetChipIdFromNext(l, attempt, maxRetries);
  }

  /** From `attempt` on, when every exchange fails the loop reports the last one's error. */
  lemma {:induction false} GetChipIdFromFails(l: Link, attempt: nat, maxRetries: nat, n: nat)
    requires 1 <= attempt <= maxRetries && n == maxRetries + 1 - attempt
    requires FailFirst(Attempts(l, n), n)
    ensures GetChipIdFrom(l, attempt, maxRetries)
         == Step(Err(GetIdFailed(Attempts(l, n)[n - 1].result.error)), Attempts(l, n)[n - 1].link)
    decreases n
  {
    if attempt < maxRetries {
      FailsLater(l, attempt, maxRetries, n);
      GetChipIdFromFails(GetIdAttempt(l).link, attempt + 1, maxRetries, n - 1);
    } else {
      AttemptsTail(l, n, 0);
      GetChipIdFromLast(l, maxRetries);
    }
  }

  /** Before the last attempt, a run of failures goes on with one attempt fewer. */
  lemma FailsLater(l: Link, attempt: nat, maxRetries: nat, n: nat)
    requires 1 <= attempt < maxRetries && n == maxRetries + 1 - attempt
    requires FailFirst(Attempts(l, n), n)
    ensures GetIdAttempt(l).result.Err?
    ensures Attempts(GetIdAttempt(l).link, n - 1)[n - 2] == Attempts(l, n)[n - 1]
    ensures FailFirst(Attempts(GetIdAttempt(l).link, n - 1), n - 1)
    ensures GetChipIdFrom(l, attempt, maxRetries) == GetChipIdFrom(GetIdAttempt(l).link, attempt + 1, maxRetries)
  {
    AttemptsTail(l, n, n - 1);
    AttemptsShift(l, n, n - 1);
    GetChipIdFromNext(l, attempt, maxRetries);
  }

  /** From `attempt` on, a failure of the loop means every exchange failed. */
  lemma {:induction false} GetChipIdFromFailed(l: Link, attempt: nat, maxRetries: nat, n: nat)
    requires 1 <= attempt <= maxRetries && n == maxRetries + 1 - attempt
    requires GetChipIdFrom(l, attempt, maxRetries).result.Err?
    ensures FailFirst(Attempts(l, n), n)
    decreases n
  {
    var a := GetIdAttempt(l);
    assert a.result.Err?;
    assert Attempts(l, n)[0] == a;
    if attempt < maxRetries {
      GetChipIdFromNext(l, attempt, maxRetries);
      GetChipIdFromFailed(a.link, attempt + 1, maxRetries, n - 1);
    }
    assert FailFirst(Attempts(a.link, n - 1), n - 1);
    AttemptsTail(l, n, n - 1);
  }

  /**
   `getChipId` returns the bytes of the first exchange that succeeds and
   stops there, after exactly as many commands as exchanges ran.
   */
  lemma GetChipIdSucceedsOnAttempt(l: Link, maxRetries: nat, i: nat)
    requires i < maxRetries
    requires Attempts(l, maxRetries)[i].result.Ok?
    requires FailFirst(Attempts(l, maxRetries), i)
    ensures GetChipId(l, maxRetries).result == Ok(Some(Attempts(l, maxRetries)[i].result.value))
    ensures GetChipId(l, maxRetries).link == Attempts(l, maxRetries)[i].link
    ensures GetChipId(l, maxRetries).link.sent == l.sent + GetIdCommands(i + 1)
  {
    GetChipIdFromSucceeds(l, 1, maxRetries, maxRetries, i);
    AttemptsChain(l, maxRetries, i);
  }

  /**
   `getChipId` fails if and only if all `maxRetries` exchanges fail, every
   error a disconnection included; the error it reports wraps the last
   exchange's, after all the commands were sent.
   */
  lemma GetChipIdFails(l: Link, maxRetries: nat)
    requires maxRetries >= 1
    ensures GetChipId(l, maxRetries).result.Err? <==> FailFirst(Attempts(l, maxRetries), maxRetries)
    ensures GetChipId(l, maxRetries).result.Err? ==>
      GetChipId(l, maxRetries)
        == Step(Err(GetIdFailed(Attempts(l, maxRetries)[maxRetries - 1].result.error)),
                Attempts(l, maxRetries)[maxRetries - 1].link)
  {
    if FailFirst(Attempts(l, maxRetries), maxRetries) {
      GetChipIdFromFails(l, 1, maxRetries, maxRetries);
    }
    if GetChipId(l, maxRetries).result.Err? {
      GetChipIdFromFailed(l, 1, maxRetries, maxRetries);
    }
  }

  /** A complete reply to the first attempt yields exactly its L + 1 identification bytes. */
  lemma GetChipIdFirstAttempt(l: Link, maxRetries: nat)
    requires maxRetries >= 1
    requires IdReply(l.script)
    ensures GetChipId(l, maxRetries).result == Ok(Some(IdBytes(l.script)))
    ensures |IdBytes(l.script)| == l.script[1].b + 1
    ensures GetChipId(l, maxRetries).link.sent == l.sent + Command(GET_ID)
  {
  }

  lemma {:induction false} GetChipIdHangupFrom(l: Link, attempt: nat, maxRetries: nat)
    requires 1 <= attempt <= maxRetries
    requires Head(l.script) == Hangup
    ensures GetChipIdFrom(l, attempt, maxRetries).result == Err(GetIdFailed(Disconnected))
    ensures GetChipIdFrom(l, attempt, maxRetries).link.sent == l.sent + GetIdCommands(maxRetries + 1 - attempt)
    decreases maxRetries - attempt
  {
    var l1 := Send(l, Command(GET_ID));
    HangupAttempt(l, attempt, maxRetries);
    if attempt < maxRetries {
      GetChipIdHangupFrom(l1, attempt + 1, maxRetries);
      assert l.sent + Command(GET_ID) + GetIdCommands(maxRetries - attempt)
          == l.sent + GetIdCommands(maxRetries + 1 - attempt);
    } else {
      assert GetIdCommands(1) == Command(GET_ID);
    }
  }

  /** On a closed port an attempt only sends its command; the next attempt, if any, sees the same port. */
  lemma HangupAttempt(l: Link, attempt: nat, maxRetries: nat)
    requires 1 <= attempt <= maxRetries
    requires Head(l.script) == Hangup
    ensures Head(Send(l, Command(GET_ID)).script) == Hangup
    ensures attempt == maxRetries ==>
      GetChipIdFrom(l, attempt, maxRetries) == Step(Err(GetIdFailed(Disconnected)), Send(l, Command(GET_ID)))
    ensures attempt < maxRetries ==>
      GetChipIdFrom(l, attempt, maxRetries) == GetChipIdFrom(Send(l, Command(GET_ID)), attempt + 1, maxRetries)
  {
    var a := GetIdAttempt(l);
  }

  /**
   A closed port does not stop `getChipId`: every one of the `maxRetries`
   attempts sends its command before the error is reported.
   */
  lemma GetChipIdRetriesDisconnect(l: Link, maxRetries: nat)
    requires maxRetries >= 1
    requires Head(l.script) == Hangup
    ensures GetChipId(l, maxRetries).result == Err(GetIdFailed(Disconnected))
    ensures GetChipId(l, maxRetries).link.sent == l.sent + GetIdCommands(maxRetries)
  {
    GetChipIdHangupFrom(l, 1, maxRetries);
  }

  // ---------------------------------------------------------------------------
  // Erase

  /** The mass-erase parameter: 0xFF and its complement 0x00. */
  function MassErase(): (r: seq<byte>)
    ensures r == [0xFF, 0x00]
    ensures Xor(r[0], r[1]) == 0xFF
  {
    Command(0xFF)
  }

  /** `eraseAll`: `[0x43, 0xBC]`, ACK, `[0xFF, 0x00]`, ACK. */
  function EraseAll(l: Link): (r: Step<()>)
    ensures !AckAt(l.script, 0) ==> r.result.Err? && r.link.sent == l.sent + Command(ERASE)
    ensures AckAt(l.script, 0) ==> r.link.sent == l.sent + Command(ERASE) + MassErase()
    ensures r.result.Ok? <==> AckAt(l.script, 0) && AckAt(l.script, 1)
    ensures r.result.Ok? ==> r.link.script == l.script[2..]
    ensures r.result.Err? ==> AckFailure(r.result.error)
  {
    var a := SendAcked(l, Command(ERASE));
    if a.result.Err? then a
    else
      var b := SendAcked(a.link, MassErase());
      if b.result.Ok? then
        assert l.script[1..][1..] == l.script[2..];
        b
      else b
  }

  // ---------------------------------------------------------------------------
  // Write Memory

  /** A block sent and then acknowledged: the step each Write Memory block takes. */
  function SendAcked(l: Link, block: seq<byte>): (r: Step<()>)
    ensures r.link.sent == l.sent + block
    ensures r.result.Ok? <==> AckAt(l.script, 0)
    ensures r.result.Ok? ==> r.link.script == l.script[1..]
    ensures r.result.Err? ==> AckFailure(r.result.error)
  {
    WaitForAck(Send(l, block))
  }

  /** The N - 1 length byte, as stored into a `Uint8Array`: 0 bytes wrap to 0xFF. */
  function LengthByte(n: nat): (b: byte)
    ensures 1 <= n <= 256 ==> b == n - 1
    ensures n == 0 ==> b == 0xFF
  {
    (n - 1) % 256
  }

  /** The big-endian address and its checksum. */
  function AddressBlock(address: int): (r: seq<byte>)
    ensures |r| == 5 && Checksum(r) == 0
    ensures r[..4] == Be32(address)
  {
    ChecksumSeals(Be32(address));
    Be32(address) + [Checksum(Be32(address))]
  }

  /** The length byte, the data and the checksum of both. */
  function DataBlock(data: seq<byte>): (r: seq<byte>)
    ensures |r| == |data| + 2 && Checksum(r) == 0
    ensures r[0] == LengthByte(|data|) && r[1..|data| + 1] == data
  {
    var body := [LengthByte(|data|)] + data;
    ChecksumSeals(body);
    var r := body + [Checksum(body)];
    assert r[1..|data| + 1] == data;
    r
  }

  /** Every byte a complete Write Memory exchange sends. */
  function WriteFrame(address: int, data: seq<byte>): seq<byte>
  {
    Command(WRITE_MEMORY) + AddressBlock(address) + DataBlock(data)
  }

  /**
   `writeMemory(address, data)`. An oversized payload is refused before
   anything is sent; otherwise each of the three blocks is sent only after
   the previous one was acknowledged, and the first non-ACK ends the exchange.
   */
  function WriteMemory(l: Link, address: int, data: seq<byte>): (r: Step<()>)
    ensures |data| > MaxWrite ==> r == Step(Err(TooLarge), l)
    ensures |data| <= MaxWrite && !AckAt(l.script, 0) ==>
      r.result.Err? && r.link.sent == l.sent + Command(WRITE_MEMORY)
    ensures |data| <= MaxWrite && AckAt(l.script, 0) && !AckAt(l.script, 1) ==>
      r.result.Err? && r.link.sent == l.sent + Command(WRITE_MEMORY) + AddressBlock(address)
    ensures |data| <= MaxWrite && AckAt(l.script, 0) && AckAt(l.script, 1) ==>
      r.link.sent == l.sent + WriteFrame(address, data)
    ensures r.result.Ok? <==> |data| <= MaxWrite && AckAt(l.script, 0) && AckAt(l.script, 1) && AckAt(l.script, 2)
    ensures r.result.Ok? ==> r.link.script == l.script[3..]
    ensures r.result.Err? && |data| <= MaxWrite ==> AckFailure(r.result.error)
  {
    if |data| > MaxWrite then Step(Err(TooLarge), l)
    else
      var a := SendAcked(l, Command(WRITE_MEMORY));
      if a.result.Err? then a
      else
        var b := SendAcked(a.link, AddressBlock(address));
        if b.result.Err? then b
        else
          assert l.script[1..][1..] == l.script[2..];
          var c := SendAcked(b.link, DataBlock(data));
          if c.result.Ok? then
            assert l.script[2..][1..] == l.script[3..];
            c
          else c
  }

  /** A Write Memory request as the bootloader takes it off the wire. */
  datatype WriteRequest = WriteRequest(address: int, data: seq<byte>)

  /**
   The bootloader's side of Write Memory (section 3.6 of AN3155): the opcode
   and its complement, four address bytes whose XOR with their checksum is
   zero, then N, N + 1 data bytes and a checksum making that block XOR to zero.
   */
  function DecodeWriteFrame(f: seq<byte>): Option<WriteRequest>
  {
    if |f| < 9 || f[0] != WRITE_MEMORY || f[1] != Complement(WRITE_MEMORY) then None
    else if Checksum(f[2..7]) != 0 then None
    else if |f| != (f[7] as int) + 10 || Checksum(f[7..]) != 0 then None
    else Some(WriteRequest(DecodeBe32(f[2..6]), f[8..|f| - 1]))
  }

  /**
   For 1 to 256 data bytes the bootloader recovers the address modulo 2^32
   and exactly the data.
   */
  lemma WriteFrameRoundTrip(address: int, data: seq<byte>)
    requires 1 <= |data| <= MaxWrite
    ensures DecodeWriteFrame(WriteFrame(address, data)) == Some(WriteRequest(address % TwoTo32, data))
  {
    var f := WriteFrame(address, data);
    assert f[2..7] == AddressBlock(address);
    assert f[7..] == DataBlock(data);
    assert f[2..6] == Be32(address);
    Be32RoundTrip(address);
    assert f[8..|f| - 1] == data;
  }

  /**
   An empty write announces 256 bytes (its length byte wraps to 0xFF) but
   carries none, so the bootloader cannot take it as a valid request.
   */
  lemma EmptyWriteIsMalformed(address: int)
    ensures LengthByte(0) == 0xFF
    ensures DecodeWriteFrame(WriteFrame(address, [])) == None
  {
    var f := WriteFrame(address, []);
    assert |f| == 9;
  }
}
