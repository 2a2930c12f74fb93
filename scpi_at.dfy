/** The older tool's AT sender and response reader (src/e355scpi.js).

    The AT sender arms one timer when it writes the command; data never moves
    it. Every chunk of data is appended to the response, and the exchange
    succeeds as soon as the response contains an expected pattern. When the
    timer fires first, the exchange succeeds only if nothing was expected.
    There is no forwarding-timeout notice to strip and nothing is written
    back. */
module ScpiAt {
  import opened JsText
  import opened Protocol
  import LineReader

  /** One exchange: the response so far, the time the timer fires, every line
      written, whether an expected pattern has been seen (foundExpected), and
      the reply once the exchange has ended. */
  datatype SenderState = SenderState(response: String, deadline: int, written: seq<String>, found: bool, reply: Option<AtReply>)

  /** Writes the command and arms the timer for `timeout` as Node reads it. */
  function Start(spec: AtSpec, raw: bool, now: int): SenderState {
    SenderState([], now + TimerDelay(spec.timeout), [LineBytes(spec.command, raw)], false, None)
  }

  /** A chunk of data while the exchange is open: appended, and the exchange
      ends with success if an expected pattern now occurs. */
  function Receive(patterns: seq<String>, s: SenderState, chunk: String): (r: SenderState)
    ensures s.reply.Some? ==> r == s
    ensures s.reply.None? ==> r.response == s.response + chunk && r.deadline == s.deadline && r.written == s.written
    ensures s.reply.None? ==> (r.reply.Some? <==> Found(s.response + chunk, patterns))
    ensures s.reply.None? && r.reply.Some? ==> r.found && r.reply.value == AtReply(Pass, r.response)
  {
    if s.reply.Some? then s
    else
      var response := s.response + chunk;
      if Found(response, patterns) then s.(response := response, found := true, reply := Some(AtReply(Pass, response)))
      else s.(response := response)
  }

  /** The timer fires while the exchange is open: it ends, and succeeds only
      if nothing was expected. */
  function Fire(patterns: seq<String>, s: SenderState): (r: SenderState)
    ensures s.reply.Some? ==> r == s
    ensures s.reply.None? ==> r.response == s.response && r.found == s.found && r.reply.Some?
    ensures s.reply.None? && !s.found ==> (r.reply.value.outcome == Pass <==> patterns == [])
  {
    if s.reply.Some? then s
    else s.(reply := Some(AtReply(if patterns == [] || s.found then Pass else Fail(AtFailed), s.response)))
  }

  /** The data the device sends and the timer's firing, in the order they happen. */
  datatype Event = Data(chunk: String) | Timer

  function Replay(patterns: seq<String>, s: SenderState, events: seq<Event>): SenderState
    decreases |events|
  {
    if events == [] then s
    else
      var next := if events[0].Data? then Receive(patterns, s, events[0].chunk) else Fire(patterns, s);
      Replay(patterns, next, events[1..])
  }

  /** The callback's verdict agrees with how the exchange ended: success exactly
      when nothing was expected or an expected pattern was seen in the data,
      and a seen pattern does occur in the response. */
  predicate Consistent(patterns: seq<String>, s: SenderState) {
    (s.found ==> Found(s.response, patterns) && s.reply.Some?)
    && (s.reply.Some? ==>
      s.reply.value.response == s.response
      && (s.reply.value.outcome == Pass <==> patterns == [] || s.found)
      && (s.reply.value.outcome.Fail? ==> s.reply.value.outcome.message == AtFailed))
  }

  /** Whatever data and timer events follow, the exchange stays consistent,
      the timer's deadline and the lines written stay as they were at the
      start, and once it has ended nothing changes: the callback runs once. */
  lemma {:induction false} ReplayConsistent(patterns: seq<String>, s: SenderState, events: seq<Event>)
    requires Consistent(patterns, s)
    ensures var r := Replay(patterns, s, events);
      Consistent(patterns, r) && r.deadline == s.deadline && r.written == s.written
    ensures s.reply.Some? ==> Replay(patterns, s, events) == s
    decreases |events|
  {
    if events != [] {
      var next := if events[0].Data? then Receive(patterns, s, events[0].chunk) else Fire(patterns, s);
      assert Consistent(patterns, next);
      ReplayConsistent(patterns, next, events[1..]);
    }
  }

  /** A pattern found in a text is found in any extension of it. */
  lemma FoundExtends(a: String, b: String, patterns: seq<String>)
    requires Found(a, patterns)
    ensures Found(a + b, patterns)
  {
    var i :| 0 <= i < |patterns| && Contains(a, patterns[i]);
    var k :| 0 <= k <= |a| - |patterns[i]| && OccursAt(a, patterns[i], k);
    assert (a + b)[k..k + |patterns[i]|] == a[k..k + |patterns[i]|];
    assert OccursAt(a + b, patterns[i], k);
  }

  /** Data alone, with no timer event. */
  function Feed(patterns: seq<String>, s: SenderState, chunks: seq<String>): SenderState
    decreases |chunks|
  {
    if chunks == [] then s else Feed(patterns, Receive(patterns, s, chunks[0]), chunks[1..])
  }

  lemma {:induction false} FeedEnded(patterns: seq<String>, s: SenderState, chunks: seq<String>)
    requires s.reply.Some?
    ensures Feed(patterns, s, chunks) == s
    decreases |chunks|
  {
    if chunks != [] {
      FeedEnded(patterns, s, chunks[1..]);
    }
  }

  /** Before the timer fires, the exchange ends exactly when the data received
      so far contains an expected pattern; it then succeeds, with the response
      up to the chunk that completed the pattern; while open it holds all the
      data. */
  lemma {:induction false} FeedEndsOnMatch(patterns: seq<String>, s: SenderState, chunks: seq<String>)
    requires s.reply.None? && !Found(s.response, patterns)
    ensures var r := Feed(patterns, s, chunks);
      (r.reply.Some? <==> Found(s.response + Flatten(chunks), patterns))
      && (r.reply.Some? ==>
            r.reply.value == AtReply(Pass, r.response) && Found(r.response, patterns)
            && r.response <= s.response + Flatten(chunks))
      && (r.reply.None? ==> r.response == s.response + Flatten(chunks))
    decreases |chunks|
  {
    if chunks == [] {
      assert s.response + Flatten(chunks) == s.response;
    } else {
      var s1 := Receive(patterns, s, chunks[0]);
      var all := s.response + Flatten(chunks);
      assert all == s1.response + Flatten(chunks[1..]);
      if s1.reply.Some? {
        FeedEnded(patterns, s1, chunks[1..]);
        FoundExtends(s1.response, Flatten(chunks[1..]), patterns);
      } else {
        FeedEndsOnMatch(patterns, s1, chunks[1..]);
      }
    }
  }

  /** The AT sender of one exchange, as the closure in makeAtSender keeps it. */
  class AtSender {
    const patterns: seq<String>
    const deadline: int
    var response: String
    var written: seq<String>
    var found: bool
    var reply: Option<AtReply>

    function State(): SenderState
      reads this
    {
      SenderState(response, deadline, written, found, reply)
    }

    /** Normalises the expect list, arms the timer and writes the command. */
    constructor (spec: AtSpec, raw: bool, now: int)
      ensures patterns == Normalise(spec.expected)
      ensures State() == Start(spec, raw, now)
      ensures Consistent(patterns, State())
    {
      patterns := Normalise(spec.expected);
      deadline := now + TimerDelay(spec.timeout);
      response := [];
      written := [LineBytes(spec.command, raw)];
      found := false;
      reply := None;
    }

    /** The data listener; it is removed once the exchange has ended. */
    method OnData(chunk: String)
      modifies this
      ensures State() == Receive(patterns, old(State()), chunk)
    {
      if reply.Some? {
        return;
      }
      response := response + chunk;
      var hit := SearchExpect(response, patterns);
      if hit {
        found := true;
        reply := Some(AtReply(Pass, response));
      }
    }

    /** endReceiving from the timer; a timer cleared on success never fires. */
    method OnTimer()
      modifies this
      ensures State() == Fire(patterns, old(State()))
    {
      if reply.None? {
        reply := Some(AtReply(if |patterns| == 0 || found then Pass else Fail(AtFailed), response));
      }
    }
  }

  /** The reader behind runScpi: it keeps everything received and hands on
      the whole of it, trimmed, whenever it ends with a newline and holds at
      least three characters. */
  class RespHandler {
    var buffer: String

    constructor ()
      ensures buffer == []
    {
      buffer := [];
    }

    method OnData(chunk: String) returns (line: Option<String>)
      modifies this
      ensures (line, buffer) == LineReader.Keep(old(buffer), chunk)
    {
      buffer := buffer + chunk;
      if !LineReader.EndsWithNewline(buffer) || |buffer| < 3 {
        return None;
      }
      line := Some(Trim(buffer));
    }
  }
}
