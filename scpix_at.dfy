/** The newer tool's AT sender and SCPI response reader (src/e355-scpix.js).

    The AT sender writes one command line and then polls every 20 ticks. A
    poll first strips every forwarding-timeout notice the SCPI server has
    inserted, answering it with a keep-alive line. It then succeeds if any
    expected pattern occurs in the response. Otherwise it gives up once no
    data has arrived for `timeout` ticks. Every chunk of data pushes that
    deadline back. */
module ScpixAt {
  import opened JsText
  import opened Protocol
  import LineReader

  /** What the SCPI server inserts when its own forwarding timeout expires. */
  const Sentinel: String := "\r\nMODEM TIMEOUT\r\n"
  /** Written back to make the server forward to the modem again. */
  const KeepAlive: String := " \r\n"
  const PollInterval: nat := 20

  /** One exchange: the response so far, the time of the last data, every line
      written to the device, and the reply once the exchange has ended. */
  datatype SenderState = SenderState(response: String, lastRecvTime: int, written: seq<String>, reply: Option<AtReply>)

  /** `elapsed >= timeout`; with a NaN timeout the comparison is always false. */
  predicate Expired(elapsed: int, timeout: Num) {
    timeout.Finite? && elapsed >= timeout.value
  }

  function Start(spec: AtSpec, raw: bool, now: int): SenderState {
    SenderState([], now, [LineBytes(spec.command, raw)], None)
  }

  /** A chunk of data: appended, and the silence clock restarted, until the exchange has ended. */
  function Receive(s: SenderState, chunk: String, now: int): SenderState {
    if s.reply.Some? then s else s.(response := s.response + chunk, lastRecvTime := now)
  }

  /** One poll of an exchange that is still open. */
  function Poll(patterns: seq<String>, timeout: Num, s: SenderState, now: int): (r: SenderState)
    ensures s.reply.Some? ==> r == s
    ensures s.reply.None? ==>
      r.lastRecvTime == s.lastRecvTime
      && r.response == RemoveAll(s.response, Sentinel)
      && (!Contains(s.response, Sentinel) ==> r.response == s.response)
    ensures s.reply.None? ==>
      r.written == s.written + (if Contains(s.response, Sentinel) then [KeepAlive] else [])
    ensures s.reply.None? && r.reply.Some? ==> r.reply.value.response == r.response
    ensures s.reply.None? ==>
      (r.reply == None <==> !Found(r.response, patterns) && !Expired(now - s.lastRecvTime, timeout))
    ensures s.reply.None? && r.reply.Some? ==>
      (r.reply.value.outcome == Pass <==> patterns == [] || Found(r.response, patterns))
    ensures s.reply.None? && r.reply.Some? && r.reply.value.outcome.Fail? ==>
      r.reply.value.outcome.message == AtFailed && Expired(now - s.lastRecvTime, timeout)
  {
    if s.reply.Some? then s
    else
      var cleaned := RemoveAll(s.response, Sentinel);
      var written := if IndexOf(s.response, Sentinel) >= 0 then s.written + [KeepAlive] else s.written;
      var reply :=
        if Found(cleaned, patterns) then Some(AtReply(Pass, cleaned))
        else if Expired(now - s.lastRecvTime, timeout) then Some(AtReply(if patterns == [] then Pass else Fail(AtFailed), cleaned))
        else None;
      SenderState(cleaned, s.lastRecvTime, written, reply)
  }

  /** What the device does between polls, and the polls themselves. */
  datatype Event = Chunk(data: String, at: int) | Tick(at: int)

  function Replay(patterns: seq<String>, timeout: Num, s: SenderState, events: seq<Event>): SenderState
    decreases |events|
  {
    if events == [] then s
    else
      var e := events[0];
      var next := if e.Chunk? then Receive(s, e.data, e.at) else Poll(patterns, timeout, s, e.at);
      Replay(patterns, timeout, next, events[1..])
  }

  /** The callback's verdict agrees with the response it is given: success
      exactly when nothing was expected or an expected pattern occurs. */
  predicate Consistent(patterns: seq<String>, s: SenderState) {
    s.reply.Some? ==>
      s.reply.value.response == s.response
      && (s.reply.value.outcome == Pass <==> patterns == [] || Found(s.response, patterns))
      && (s.reply.value.outcome.Fail? ==> s.reply.value.outcome.message == AtFailed)
  }

  /** Whatever data and polls follow, the exchange stays consistent, and once it
      has ended nothing changes any more: the callback runs once. */
  lemma {:induction false} ReplayConsistent(patterns: seq<String>, timeout: Num, s: SenderState, events: seq<Event>)
    requires Consistent(patterns, s)
    ensures Consistent(patterns, Replay(patterns, timeout, s, events))
    ensures s.reply.Some? ==> Replay(patterns, timeout, s, events) == s
    decreases |events|
  {
    if events != [] {
      var e := events[0];
      var next := if e.Chunk? then Receive(s, e.data, e.at) else Poll(patterns, timeout, s, e.at);
      assert Consistent(patterns, next);
      ReplayConsistent(patterns, timeout, next, events[1..]);
    }
  }

  /** A silent device: a poll at or past the deadline ends the exchange, and
      earlier polls end it only when a pattern has already arrived. */
  lemma SilenceEnds(patterns: seq<String>, timeout: Num, s: SenderState, now: int)
    requires s.reply.None? && !Contains(s.response, Sentinel)
    ensures Expired(now - s.lastRecvTime, timeout) ==> Poll(patterns, timeout, s, now).reply.Some?
    ensures !Found(s.response, patterns) && !Expired(now - s.lastRecvTime, timeout) ==>
      Poll(patterns, timeout, s, now) == s
  {
  }

  /** `n` polls, PollInterval ticks apart from `now`, with no data arriving. */
  function PollSilently(patterns: seq<String>, timeout: Num, s: SenderState, now: int, n: nat): SenderState
    decreases n
  {
    if n == 0 then s
    else PollSilently(patterns, timeout, Poll(patterns, timeout, s, now), now + PollInterval, n - 1)
  }

  /** Polls after the exchange has ended change nothing. */
  lemma {:induction false} PollSilentlyDone(patterns: seq<String>, timeout: Num, s: SenderState, now: int, n: nat)
    requires s.reply.Some?
    ensures PollSilently(patterns, timeout, s, now, n) == s
    decreases n
  {
    if n > 0 {
      PollSilentlyDone(patterns, timeout, s, now + PollInterval, n - 1);
    }
  }

  /** With a finite timeout and no data, the poll numbered k + 1, the first
      at or past the silence deadline, has ended the exchange. */
  lemma {:induction false} SilentPollsEnd(patterns: seq<String>, timeout: Num, s: SenderState, now: int, k: nat)
    requires s.reply.None? && timeout.Finite?
    requires now + k * PollInterval >= s.lastRecvTime + timeout.value
    ensures PollSilently(patterns, timeout, s, now, k + 1).reply.Some?
    decreases k
  {
    var next := Poll(patterns, timeout, s, now);
    if next.reply.Some? {
      PollSilentlyDone(patterns, timeout, next, now + PollInterval, k);
    } else {
      assert k > 0;
      assert now + PollInterval + (k - 1) * PollInterval == now + k * PollInterval;
      SilentPollsEnd(patterns, timeout, next, now + PollInterval, k - 1);
    }
  }

  /** The polling schedule bounds the failure time: with no data, a finite
      timeout ends the exchange at a poll less than one PollInterval after the
      silence deadline (or at the first poll, when that is already late). */
  lemma SilentPollsEndBy(patterns: seq<String>, timeout: Num, s: SenderState, now: int)
    requires s.reply.None? && timeout.Finite? && now <= s.lastRecvTime + timeout.value
    ensures var k := (s.lastRecvTime + timeout.value - now + PollInterval - 1) / PollInterval;
      now + k * PollInterval < s.lastRecvTime + timeout.value + PollInterval
      && PollSilently(patterns, timeout, s, now, k + 1).reply.Some?
  {
    var k := (s.lastRecvTime + timeout.value - now + PollInterval - 1) / PollInterval;
    SilentPollsEnd(patterns, timeout, s, now, k);
  }

  /** A NaN timeout never expires: with no data, no notice and no match,
      polling goes on for ever. */
  lemma {:induction false} NaNTimeoutPollsForever(patterns: seq<String>, s: SenderState, now: int, n: nat)
    requires s.reply.None? && !Contains(s.response, Sentinel) && !Found(s.response, patterns)
    ensures PollSilently(patterns, NaN, s, now, n) == s
    decreases n
  {
    if n > 0 {
      SilenceEnds(patterns, NaN, s, now);
      NaNTimeoutPollsForever(patterns, s, now + PollInterval, n - 1);
    }
  }

  /** The AT sender of one exchange, as the closure in makeAtSender keeps it. */
  class AtSender {
    const patterns: seq<String>
    const timeout: Num
    var response: String
    var lastRecvTime: int
    var written: seq<String>
    var reply: Option<AtReply>

    function State(): SenderState
      reads this
    {
      SenderState(response, lastRecvTime, written, reply)
    }

    /** Writes the command, starts the silence clock and schedules the first poll. */
    constructor (spec: AtSpec, raw: bool, now: int)
      ensures patterns == Normalise(spec.expected) && timeout == spec.timeout
      ensures State() == Start(spec, raw, now)
      ensures Consistent(patterns, State())
    {
      patterns := Normalise(spec.expected);
      timeout := spec.timeout;
      response := [];
      lastRecvTime := now;
      written := [LineBytes(spec.command, raw)];
      reply := None;
    }

    method OnData(chunk: String, now: int)
      modifies this
      ensures State() == Receive(old(State()), chunk, now)
    {
      if reply.None? {
        lastRecvTime := now;
        response := response + chunk;
      }
    }

    /** One poll; `next` is when the next poll runs, if one is scheduled. */
    method OnPoll(now: int) returns (next: Option<int>)
      modifies this
      ensures State() == Poll(patterns, timeout, old(State()), now)
      ensures next.Some? <==> reply.None?
      ensures next.Some? ==> next.value == now + PollInterval
    {
      if reply.Some? {
        return None;
      }
      if IndexOf(response, Sentinel) >= 0 {
        response := RemoveAll(response, Sentinel);
        written := written + [KeepAlive];
      }
      var found := SearchExpect(response, patterns);
      if found {
        reply := Some(AtReply(Pass, response));
        return None;
      }
      if Expired(now - lastRecvTime, timeout) {
        reply := Some(AtReply(if |patterns| == 0 then Pass else Fail(AtFailed), response));
        return None;
      }
      next := Some(now + PollInterval);
    }
  }

  /** The reader behind runScpi: it hands on the buffered text, trimmed, once
      the buffer ends with a newline, and then starts again from empty. */
  class ScpiResponseHandler {
    var buffer: String

    constructor ()
      ensures buffer == []
    {
      buffer := [];
    }

    method OnData(chunk: String) returns (line: Option<String>)
      modifies this
      ensures var st := LineReader.Reset(old(buffer), chunk);
        buffer == st.buffer
        && (line.Some? <==> st.raw.Some?)
        && (line.Some? ==> line.value == Trim(st.raw.value))
    {
      buffer := buffer + chunk;
      if !LineReader.EndsWithNewline(buffer) {
        return None;
      }
      line := Some(Trim(buffer));
      buffer := [];
    }
  }
}
