/** The older tool's TCP commands over the modem (src/e355scpi.js): open,
    close, send one payload, send a length in slices of at most one MTU, and
    receive one `+QIRD` frame with a regular expression. */
module ScpiTcp {
  import opened JsText
  import opened Protocol

  const ConnDelay: nat := 30000
  const CloseDelay: nat := 10500
  const PromptDelay: nat := 2000
  const SendTimeout: nat := 10000
  const RecvTimeout: nat := 1000
  const OkCrLf: String := "OK\r\n"
  const ReadError: String := "socket read error:"
  /** How long the environment waits after each pass-through switch. */
  const ForwardingModeDelay: nat := 2000

  function OpenSpec(ip: String, port: nat): AtSpec {
    AtSpec("at+qiopen=1,0,\"TCP\",\"" + ip + "\"," + Dec(port) + ",0,0", Finite(ConnDelay), Pattern(OkCrLf))
  }

  /** tcpOpen: one AT command, whose outcome is the result. */
  function TcpOpen(ip: String, port: nat, outcome: Outcome): (r: Run)
    ensures Commands(r.trace) == [OpenSpec(ip, port)]
    ensures r.result == outcome
  {
    Run([Command(OpenSpec(ip, port), false)], outcome)
  }

  function CloseSpec(): AtSpec {
    AtSpec("at+qiclose=0", Finite(CloseDelay), Patterns([OkCrLf, "MODEM TIMEOUT"]))
  }

  /** tcpClose: one AT command, whose error is handed on. */
  function TcpClose(outcome: Outcome): (r: Run)
    ensures Commands(r.trace) == [CloseSpec()]
    ensures r.result == outcome
  {
    Run([Command(CloseSpec(), false)], outcome)
  }

  function PromptSpec(text: String): AtSpec {
    AtSpec("at+qisend=0," + Dec(|text|), Finite(PromptDelay), Pattern("> \r\n"))
  }

  function PayloadSpec(text: String): AtSpec {
    AtSpec(text, Finite(SendTimeout), Pattern("SEND OK\r\n"))
  }

  /** The outcomes of the two exchanges of one send: the prompt, then the payload. */
  datatype SendOutcome = SendOutcome(prompt: Outcome, payload: Outcome)

  /** tcpSend: ask for the send prompt, then write the payload, raw unless the
      link is optical, whatever became of the prompt. */
  function TcpSend(text: String, optical: bool, o: SendOutcome): (r: Run)
    ensures Commands(r.trace) == [PromptSpec(text), PayloadSpec(text)]
    ensures r.result == o.payload
  {
    var t := [Command(PromptSpec(text), false), Command(PayloadSpec(text), !optical)];
    assert Commands(t[1..][1..]) == [];
    assert Commands(t[1..]) == [PayloadSpec(text)];
    Run(t, o.payload)
  }

  /** The prompt's outcome changes nothing: the payload is written either way
      and only its outcome is reported. */
  lemma {:induction false} TcpSendIgnoresPrompt(text: String, optical: bool, p1: Outcome, p2: Outcome, payload: Outcome)
    ensures TcpSend(text, optical, SendOutcome(p1, payload)) == TcpSend(text, optical, SendOutcome(p2, payload))
    ensures TcpSend(text, optical, SendOutcome(p1, payload)).trace[1] == Command(PayloadSpec(text), !optical)
  {
  }

  /** The slice lengths of commandTcpSend's `send`: min(remaining, mtu) each
      time, until that is no longer positive. */
  function SliceSizes(len: int, mtu: int): (r: seq<nat>)
    ensures mtu <= 0 || len <= 0 ==> r == []
    decreases if len > 0 then len else 0
  {
    var thisLen := if len < mtu then len else mtu;
    if thisLen <= 0 then [] else [thisLen] + SliceSizes(len - thisLen, mtu)
  }

  /** What one call of `send` does next: stop, or write a slice of `size`
      characters and go on with `rest` still to send. */
  datatype SendNext = Stop | Next(size: Num, rest: Num)

  /** One call of `send` on the numbers the command line gives:
      `thisLen = len < mtu ? len : mtu`, stop when `thisLen <= 0`, otherwise
      go on with `len - thisLen`. Every comparison with NaN is false. */
  function SendStep(len: Num, mtu: Num): SendNext {
    var thisLen := if Less(len, mtu) then len else mtu;
    if thisLen.Finite? && thisLen.value <= 0 then Stop
    else Next(thisLen, Minus(len, thisLen))
  }

  /** On integers, `send` makes the steps SliceSizes lists. */
  lemma SendStepSizes(len: int, mtu: int)
    ensures var sizes := SliceSizes(len, mtu);
      SendStep(Finite(len), Finite(mtu))
      == if sizes == [] then Stop else Next(Finite(sizes[0]), Finite(len - sizes[0]))
  {
  }

  /** A NaN MTU, or a NaN length with a positive MTU, never stops `send`:
      what is left to send is NaN again after every step. */
  lemma NaNSendNeverStops(len: Num, mtu: Num)
    requires mtu.NaN? || (len.NaN? && mtu.value > 0)
    ensures SendStep(len, mtu) == Next(if mtu.NaN? then NaN else mtu, NaN)
    ensures SendStep(NaN, mtu) == SendStep(len, mtu)
  {
  }

  function Sum(s: seq<nat>): nat {
    if s == [] then 0 else s[0] + Sum(s[1..])
  }

  /** With a positive MTU, the slices add up to the length; each is at most
      one MTU, every one before the last is exactly one MTU, and the number of
      slices is the length divided by the MTU, rounded up. */
  lemma {:induction false} SliceSizesSum(len: nat, mtu: nat)
    requires mtu >= 1
    ensures var r := SliceSizes(len, mtu);
      Sum(r) == len
      && (forall i :: 0 <= i < |r| ==> 1 <= r[i] <= mtu)
      && (forall i :: 0 <= i < |r| - 1 ==> r[i] == mtu)
      && len <= |r| * mtu && (|r| == 0 || (|r| - 1) * mtu < len)
    decreases len
  {
    var r := SliceSizes(len, mtu);
    if len > 0 {
      var thisLen := if len < mtu then len else mtu;
      var rest := SliceSizes(len - thisLen, mtu);
      SliceSizesSum(len - thisLen, mtu);
      assert r == [thisLen] + rest;
      assert r[1..] == rest;
      forall i | 1 <= i < |r| ensures r[i] == rest[i - 1] { }
      if thisLen < mtu {
        assert rest == [];
      } else {
        MulSucc(|rest|, mtu);
      }
    }
  }

  lemma MulSucc(n: nat, m: nat)
    ensures (n + 1) * m == n * m + m
  {
  }

  /** The send loop over the generated slices: each one sent with tcpSend; the
      first payload error ends it. */
  function SendSlices(texts: seq<String>, optical: bool, outcomes: seq<SendOutcome>): Run
    requires |outcomes| == |texts|
  {
    if texts == [] then Run([], Pass)
    else
      var one := TcpSend(texts[0], optical, outcomes[0]);
      if one.result.Fail? then one
      else
        var rest := SendSlices(texts[1..], optical, outcomes[1..]);
        Run(one.trace + rest.trace, rest.result)
  }

  function PayloadOutcomes(os: seq<SendOutcome>): (r: seq<Outcome>)
    ensures |r| == |os| && forall i :: 0 <= i < |os| ==> r[i] == os[i].payload
  {
    seq(|os|, i requires 0 <= i < |os| => os[i].payload)
  }

  /** The AT commands sending the given slices issue: a prompt request and the payload for each. */
  function SendCommands(texts: seq<String>): seq<AtSpec> {
    if texts == [] then [] else [PromptSpec(texts[0]), PayloadSpec(texts[0])] + SendCommands(texts[1..])
  }

  /** How many slices the loop sends: up to and including the first whose
      payload fails, or all of them. */
  function SentCount(texts: seq<String>, outcomes: seq<SendOutcome>): (n: nat)
    requires |outcomes| == |texts|
    ensures n <= |texts|
  {
    var k := FirstFailure(PayloadOutcomes(outcomes));
    if k < |texts| then k + 1 else |texts|
  }

  /** The first outcome passes: the count and the result come from the rest. */
  lemma SentCountCons(texts: seq<String>, outcomes: seq<SendOutcome>)
    requires |outcomes| == |texts| && texts != [] && outcomes[0].payload.Pass?
    ensures SentCount(texts, outcomes) == 1 + SentCount(texts[1..], outcomes[1..])
    ensures var k := FirstFailure(PayloadOutcomes(outcomes));
      var k1 := FirstFailure(PayloadOutcomes(outcomes[1..]));
      k == k1 + 1 && (k < |texts| <==> k1 < |texts| - 1)
      && (k < |texts| ==> outcomes[k] == outcomes[1..][k1])
  {
    var ps := PayloadOutcomes(outcomes);
    assert PayloadOutcomes(outcomes[1..]) == ps[1..];
  }

  lemma SendCommandsPrefix(texts: seq<String>, n: nat)
    requires 1 <= n <= |texts|
    ensures SendCommands(texts[..n])
      == [PromptSpec(texts[0]), PayloadSpec(texts[0])] + SendCommands(texts[1..][..n - 1])
  {
    assert texts[..n][1..] == texts[1..][..n - 1];
  }

  /** The loop sends the slices in order, prompt and payload for each, up to
      and including the first whose payload fails; it reports that failure, or
      success. */
  lemma SendSlicesIssues(texts: seq<String>, optical: bool, outcomes: seq<SendOutcome>)
    requires |outcomes| == |texts|
    ensures var r := SendSlices(texts, optical, outcomes);
      var k := FirstFailure(PayloadOutcomes(outcomes));
      Commands(r.trace) == SendCommands(texts[..SentCount(texts, outcomes)])
      && r.result == (if k < |texts| then outcomes[k].payload else Pass)
  {
    SendSlicesCommands(texts, optical, outcomes);
    SendSlicesResult(texts, optical, outcomes);
  }

  lemma {:induction false} SendSlicesCommands(texts: seq<String>, optical: bool, outcomes: seq<SendOutcome>)
    requires |outcomes| == |texts|
    ensures Commands(SendSlices(texts, optical, outcomes).trace) == SendCommands(texts[..SentCount(texts, outcomes)])
  {
    if texts != [] {
      if outcomes[0].payload.Fail? {
        SendSlicesFirstFails(texts, optical, outcomes);
      } else {
        SendSlicesCommands(texts[1..], optical, outcomes[1..]);
        SendSlicesCommandsStep(texts, optical, outcomes);
      }
    }
  }

  lemma SendSlicesFirstFails(texts: seq<String>, optical: bool, outcomes: seq<SendOutcome>)
    requires |outcomes| == |texts| && texts != [] && outcomes[0].payload.Fail?
    ensures Commands(SendSlices(texts, optical, outcomes).trace) == SendCommands(texts[..SentCount(texts, outcomes)])
  {
    assert FirstFailure(PayloadOutcomes(outcomes)) == 0;
    SendCommandsPrefix(texts, 1);
  }

  lemma SendSlicesCommandsStep(texts: seq<String>, optical: bool, outcomes: seq<SendOutcome>)
    requires |outcomes| == |texts| && texts != [] && outcomes[0].payload.Pass?
    requires Commands(SendSlices(texts[1..], optical, outcomes[1..]).trace)
      == SendCommands(texts[1..][..SentCount(texts[1..], outcomes[1..])])
    ensures Commands(SendSlices(texts, optical, outcomes).trace) == SendCommands(texts[..SentCount(texts, outcomes)])
  {
    var one := TcpSend(texts[0], optical, outcomes[0]);
    var rest := SendSlices(texts[1..], optical, outcomes[1..]);
    var r := SendSlices(texts, optical, outcomes);
    var n := SentCount(texts, outcomes);
    var tail := SendCommands(texts[1..][..n - 1]);
    assert r == Run(one.trace + rest.trace, rest.result);
    SentCountCons(texts, outcomes);
    assert Commands(r.trace) == [PromptSpec(texts[0]), PayloadSpec(texts[0])] + tail by {
      CommandsAppend(one.trace, rest.trace);
    }
    assert SendCommands(texts[..n]) == [PromptSpec(texts[0]), PayloadSpec(texts[0])] + tail by {
      SendCommandsPrefix(texts, n);
    }
  }

  lemma {:induction false} SendSlicesResult(texts: seq<String>, optical: bool, outcomes: seq<SendOutcome>)
    requires |outcomes| == |texts|
    ensures var k := FirstFailure(PayloadOutcomes(outcomes));
      SendSlices(texts, optical, outcomes).result == (if k < |texts| then outcomes[k].payload else Pass)
  {
    if texts != [] {
      var one := TcpSend(texts[0], optical, outcomes[0]);
      if one.result.Fail? {
        assert FirstFailure(PayloadOutcomes(outcomes)) == 0;
      } else {
        SentCountCons(texts, outcomes);
        SendSlicesResult(texts[1..], optical, outcomes[1..]);
      }
    }
  }

  /** commandTcpSend: `len` characters in slices of at most `mtu`, inside the
      environment; texts[i] is the generated text of the i-th slice. */
  function CommandTcpSend(len: int, mtu: int, texts: seq<String>, optical: bool, outcomes: seq<SendOutcome>): Run
    requires |texts| == |outcomes| == |SliceSizes(len, mtu)|
    requires forall i :: 0 <= i < |texts| ==> |texts[i]| == SliceSizes(len, mtu)[i]
  {
    Bracket(ForwardingModeDelay, SendSlices(texts, optical, outcomes))
  }

  /** When every payload goes through, the payloads written are the slices, in
      order, of the sizes SliceSizes gives, and so add up to `len`. */
  lemma CommandTcpSendAll(len: nat, mtu: nat, texts: seq<String>, optical: bool, outcomes: seq<SendOutcome>)
    requires mtu >= 1 && |texts| == |outcomes| == |SliceSizes(len, mtu)|
    requires forall i :: 0 <= i < |texts| ==> |texts[i]| == SliceSizes(len, mtu)[i]
    requires forall i :: 0 <= i < |outcomes| ==> outcomes[i].payload.Pass?
    ensures var r := CommandTcpSend(len, mtu, texts, optical, outcomes);
      r.result == Pass && Commands(r.trace) == SendCommands(texts)
    ensures Sum(SliceSizes(len, mtu)) == len
  {
    SendSlicesIssues(texts, optical, outcomes);
    BracketCommands(ForwardingModeDelay, SendSlices(texts, optical, outcomes));
    assert texts[..|texts|] == texts;
    SliceSizesSum(len, mtu);
  }

  function RecvSpec(mtu: int): AtSpec {
    AtSpec("at+qird=0," + IntStr(mtu), Finite(RecvTimeout), Pattern(OkCrLf))
  }

  /** Where the run of characters `.` matches, starting at k, ends: the first
      line terminator at or after k, or the end of the text. */
  function LineEnd(s: String, k: nat): (e: nat)
    requires k <= |s|
    ensures k <= e <= |s|
    ensures e < |s| ==> IsLineTerminator(s[e])
    ensures forall j :: k <= j < e ==> !IsLineTerminator(s[j])
    decreases |s| - k
  {
    if k == |s| || IsLineTerminator(s[k]) then k else LineEnd(s, k + 1)
  }

  /** `/\+QIRD: (.*)\r\n/` matches at i: the head, then characters up to the
      first line terminator, which must begin a CRLF (no shorter run can be
      followed by '\r', since `.` takes no line terminator). */
  predicate MatchAt(s: String, i: nat) {
    OccursAt(s, Head, i)
    && var e := LineEnd(s, i + |Head|);
    e + 1 < |s| && s[e] == '\r' && s[e + 1] == '\n'
  }

  /** The leftmost index at or after i where the expression matches, or -1. */
  function FirstMatch(s: String, i: nat): (r: int)
    ensures r == -1 || (i <= r && MatchAt(s, r))
    ensures forall j :: i <= j && (r == -1 || j < r) ==> !MatchAt(s, j)
    decreases |s| - i
  {
    if i + |Head| > |s| then -1
    else if MatchAt(s, i) then i
    else FirstMatch(s, i + 1)
  }

  /** tcpRecv's parse: after the first matched header line, as many characters
      as parseInt reads from the captured text, or fewer if the reply ends
      first; with no header line, the read error. */
  function OldQird(resp: String): Result<String> {
    var i := FirstMatch(resp, 0);
    if i < 0 then Err(ReadError) else Ok(MatchedData(resp, i))
  }

  /** What follows the header line matched at i: as many characters as
      parseInt reads from the captured text. */
  function MatchedData(resp: String, i: nat): String
    requires i + |Head| <= |resp|
  {
    LineData(resp, i + |Head|, LineEnd(resp, i + |Head|))
  }

  /** What follows the line running from `start` to `e` and its CRLF: as many
      characters as parseInt reads from the line. */
  function LineData(resp: String, start: nat, e: nat): String
    requires start <= e <= |resp|
  {
    FrameData(resp, e + 2, ParseInt(resp[start..e]))
  }

  /** `resp.slice(offset, offset + n)`; with a NaN length the end is NaN, which
      slice reads as 0. */
  function FrameData(resp: String, offset: int, n: Num): String {
    if n.NaN? then Slice(resp, offset, 0) else Slice(resp, offset, offset + n.value)
  }

  /** tcpRecv: one `at+qird` exchange for up to `mtu` characters; an AT error
      is handed on, otherwise the frame is parsed. */
  function TcpRecv(mtu: int, reply: AtReply): (r: Received)
    ensures Commands(r.run.trace) == [RecvSpec(mtu)] && r.run.result == reply.outcome
    ensures reply.outcome.Fail? ==> r.data == Err(reply.outcome.message)
    ensures reply.outcome.Pass? ==> r.data == OldQird(reply.response)
  {
    var run := Run([Command(RecvSpec(mtu), false)], reply.outcome);
    assert run.trace[1..] == [];
    Received(run, if reply.outcome.Fail? then Err(reply.outcome.message) else OldQird(reply.response))
  }

  /** A reply with no head anywhere is a read error. */
  lemma OldQirdNoHead(resp: String)
    requires !Contains(resp, Head)
    ensures OldQird(resp) == Err(ReadError)
  {
  }

  /** LineEnd is the one index with its two properties. */
  lemma LineEndUnique(s: String, k: nat, e: nat)
    requires k <= e <= |s|
    requires e < |s| ==> IsLineTerminator(s[e])
    requires forall j :: k <= j < e ==> !IsLineTerminator(s[j])
    ensures LineEnd(s, k) == e
  {
  }

  /** Where a line starting at a text's start ends does not depend on what precedes it. */
  lemma LineEndShift(a: String, t: String)
    ensures LineEnd(a + t, |a|) == |a| + LineEnd(t, 0)
  {
    var s := a + t;
    var e := LineEnd(t, 0);
    forall j | |a| <= j < |a| + e ensures !IsLineTerminator(s[j]) {
      assert s[j] == t[j - |a|];
    }
    if e < |t| {
      assert s[|a| + e] == t[e];
    }
    LineEndUnique(s, |a|, |a| + e);
  }

  /** Digits followed by CRLF: the line is the digits. */
  lemma DigitsLine(d: String, rest: String)
    requires AllDigits(d)
    ensures var t := d + CrLf + rest;
      LineEnd(t, 0) == |d| && t[|d|] == '\r' && t[|d| + 1] == '\n' && t[..|d|] == d
  {
    var t := d + CrLf + rest;
    forall j | 0 <= j < |d| ensures !IsLineTerminator(t[j]) {
      assert t[j] == d[j];
      assert IsDigit(d[j]);
    }
    assert t[|d|] == '\r';
    LineEndUnique(t, 0, |d|);
  }

  /** A header line of digits matches where it is written. */
  lemma MatchAtHeader(pre: String, d: String, rest: String)
    requires AllDigits(d)
    ensures var resp := pre + Head + (d + CrLf + rest);
      MatchAt(resp, |pre|) && LineEnd(resp, |pre| + |Head|) == |pre| + |Head| + |d|
  {
    OccursBetween(pre, Head, d + CrLf + rest);
    DigitsLineAfter(pre + Head, d, rest);
  }

  lemma OccursBetween(a: String, p: String, t: String)
    ensures OccursAt(a + p + t, p, |a|)
  {
    assert (a + p + t)[|a|..|a| + |p|] == p;
  }

  /** After any text, a line of digits ends at the CRLF that follows it. */
  lemma DigitsLineAfter(a: String, d: String, rest: String)
    requires AllDigits(d)
    ensures var s := a + (d + CrLf + rest);
      var e := |a| + |d|;
      LineEnd(s, |a|) == e && e + 1 < |s| && s[e] == '\r' && s[e + 1] == '\n'
  {
    var t := d + CrLf + rest;
    LineEndShift(a, t);
    DigitsLine(d, rest);
    assert (a + t)[|a| + |d|] == t[|d|] && (a + t)[|a| + |d| + 1] == t[|d| + 1];
  }

  /** The header is found where it is written, after any text without a head. */
  lemma FirstMatchAt(pre: String, d: String, rest: String)
    requires !Contains(pre, Head) && AllDigits(d)
    ensures var resp := pre + Head + (d + CrLf + rest);
      FirstMatch(resp, 0) == |pre| && LineEnd(resp, |pre| + |Head|) == |pre| + |Head| + |d|
  {
    HeadOnlyAt(pre, d + CrLf + rest);
    MatchAtHeader(pre, d, rest);
  }

  lemma OldQirdFirst(resp: String, i: nat)
    requires FirstMatch(resp, 0) == i
    ensures OldQird(resp) == Ok(MatchedData(resp, i))
  {
  }

  lemma MatchedDataLine(resp: String, i: nat, e: nat)
    requires i + |Head| <= |resp| && LineEnd(resp, i + |Head|) == e
    ensures MatchedData(resp, i) == LineData(resp, i + |Head|, e)
  {
  }

  lemma LineDataDigits(resp: String, start: nat, e: nat, d: String)
    requires start <= e <= |resp| && resp[start..e] == d
    requires d != [] && AllDigits(d)
    ensures LineData(resp, start, e) == FrameData(resp, e + 2, Finite(DecValue(d)))
  {
    ParseIntDigits(d);
  }

  lemma FrameDataTake(resp: String, offset: nat, n: nat, rest: String)
    requires offset <= |resp| && resp[offset..] == rest && n <= |rest|
    ensures FrameData(resp, offset, Finite(n)) == rest[..n]
  {
    assert resp[offset..offset + n] == rest[..n];
  }

  lemma FrameDataAll(resp: String, offset: nat, n: nat)
    requires offset <= |resp| && n > |resp| - offset
    ensures FrameData(resp, offset, Finite(n)) == resp[offset..]
  {
    assert Slice(resp, offset, offset + n) == resp[offset..];
  }

  lemma FrameParts(pre: String, d: String, rest: String)
    ensures var s := pre + Head + (d + CrLf + rest);
      var e := |pre| + |Head| + |d|;
      e + 2 <= |s| && s[|pre| + |Head|..e] == d && s[e + 2..] == rest
  {
    var a := pre + Head;
    var s := a + (d + CrLf + rest);
    assert s[|a|..|a| + |d|] == d;
    assert s[|a| + |d| + 2..] == rest;
  }

  /** What the old parse returns for a header announcing n characters: the n
      characters after the header line when that many follow, and otherwise
      whatever follows; the rest of the reply is never checked. */
  lemma OldQirdTakes(pre: String, d: String, rest: String)
    requires !Contains(pre, Head) && d != [] && AllDigits(d)
    ensures DecValue(d) <= |rest| ==> OldQird(pre + Head + (d + CrLf + rest)) == Ok(rest[..DecValue(d)])
    ensures DecValue(d) > |rest| ==> OldQird(pre + Head + (d + CrLf + rest)) == Ok(rest)
  {
    var resp := pre + Head + (d + CrLf + rest);
    var e := |pre| + |Head| + |d|;
    FirstMatchAt(pre, d, rest);
    FrameParts(pre, d, rest);
    OldQirdAt(resp, |pre|, e, d, rest);
  }

  /** The old receiver on a reply whose first header sits at i and is
      followed by the digits d, CRLF and `rest`. */
  lemma OldQirdAt(resp: String, i: nat, e: nat, d: String, rest: String)
    requires FirstMatch(resp, 0) == i && e == i + |Head| + |d| && e + 2 <= |resp|
    requires LineEnd(resp, i + |Head|) == e
    requires resp[i + |Head|..e] == d && resp[e + 2..] == rest
    requires d != [] && AllDigits(d)
    ensures OldQird(resp) == Ok(if DecValue(d) <= |rest| then rest[..DecValue(d)] else rest)
  {
    OldQirdFirst(resp, i);
    MatchedDataLine(resp, i, e);
    LineDataIs(resp, i + |Head|, e, d, rest);
  }

  /** The data after a line of digits d, running from `start` to `e` and
      followed by CRLF and `rest`. */
  lemma LineDataIs(resp: String, start: nat, e: nat, d: String, rest: String)
    requires e == start + |d| && e + 2 <= |resp|
    requires resp[start..e] == d && resp[e + 2..] == rest
    requires d != [] && AllDigits(d)
    ensures LineData(resp, start, e) == if DecValue(d) <= |rest| then rest[..DecValue(d)] else rest
  {
    var f := FrameData(resp, e + 2, Finite(DecValue(d)));
    assert LineData(resp, start, e) == f by { LineDataDigits(resp, start, e, d); }
    FrameDataIs(resp, e + 2, DecValue(d), rest);
  }

  /** The n characters at `offset`, or all that remain when fewer do. */
  lemma FrameDataIs(resp: String, offset: nat, n: nat, rest: String)
    requires offset <= |resp| && resp[offset..] == rest
    ensures FrameData(resp, offset, Finite(n)) == if n <= |rest| then rest[..n] else rest
  {
    if n <= |rest| {
      FrameDataTake(resp, offset, n, rest);
    } else {
      FrameDataAll(resp, offset, n);
    }
  }

  lemma Regroup(a: String, b: String, c: String, p: String, q: String)
    ensures a + b + c + p + q == [] + a + (b + c + (p + q))
  {
    assert [] + a == a;
  }

  /** OldQirdTakes for a reply that starts with the header line. */
  lemma OldQirdHeaderFirst(d: String, payload: String, tail: String)
    requires d != [] && AllDigits(d)
    ensures var rest := payload + tail;
      OldQird(Head + d + CrLf + payload + tail)
        == Ok(if DecValue(d) <= |rest| then rest[..DecValue(d)] else rest)
  {
    assert !Contains([], Head);
    Regroup(Head, d, CrLf, payload, tail);
    OldQirdTakes([], d, payload + tail);
  }

  /** A header announcing no more than follows it yields that many characters. */
  lemma OldQirdAnnounced(n: nat, payload: String, tail: String)
    ensures n <= |payload| + |tail| ==>
      OldQird(Head + Dec(n) + CrLf + payload + tail) == Ok((payload + tail)[..n])
  {
    OldQirdHeaderFirst(Dec(n), payload, tail);
  }

  /** A header announcing the payload's own length yields the payload,
      whatever follows it. */
  lemma OldQirdFrame(payload: String, tail: String)
    ensures OldQird(Head + Dec(|payload|) + CrLf + payload + tail) == Ok(payload)
  {
    OldQirdAnnounced(|payload|, payload, tail);
    PayloadPrefix(payload, tail);
  }

  /** An announced length longer than the payload is not caught: a header
      announcing one character more than the payload yields the payload and
      the first character after it. */
  lemma OldQirdShortFrame(payload: String, tail: String)
    requires tail != []
    ensures OldQird(Head + Dec(|payload| + 1) + CrLf + payload + tail) == Ok(payload + [tail[0]])
  {
    OldQirdAnnounced(|payload| + 1, payload, tail);
    PayloadNext(payload, tail);
  }

  lemma PayloadPrefix(payload: String, tail: String)
    ensures (payload + tail)[..|payload|] == payload
  {
  }

  lemma PayloadNext(payload: String, tail: String)
    requires tail != []
    ensures (payload + tail)[..|payload| + 1] == payload + [tail[0]]
  {
    var s := payload + tail;
    assert s[..|payload| + 1] == s[..|payload|] + [s[|payload|]];
  }
}
