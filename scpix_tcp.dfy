/** The newer tool's TCP commands over the modem (src/e355-scpix.js): open,
    close, send in slices of at most one MTU, receive one `+QIRD` frame, and
    the ping loop's decision after each receive. */
module ScpixTcp {
  import opened JsText
  import opened Protocol
  import opened ScpixScript

  /** The largest payload one `+QIRD` frame can carry through the bridge. */
  const MaxMtu: nat := 1006

  predicate ValidMtu(mtu: int) { 1 <= mtu <= MaxMtu }

  /** makeCommandHandler's MTU check as written: it refuses a number below 1
      or above 1006, but both comparisons are false for NaN, which is what a
      number option holds for non-numeric text, so a NaN MTU passes. */
  function CheckMtu(mtu: Num): (r: Result<Num>)
    ensures r.Err? <==> mtu.Finite? && !ValidMtu(mtu.value)
    ensures r.Ok? ==> r.value == mtu
    ensures r.Err? ==> r.message == "invalid mtu:"
  {
    if Less(mtu, Finite(1)) || Less(Finite(MaxMtu), mtu) then Err("invalid mtu:") else Ok(mtu)
  }

  /** The MTU the send commands hand to tcpSendBig: `mtu <= 0 ? 1 :
      parseInt(mtu)`, where parseInt gives an integer back and NaN stays NaN. */
  function SendMtu(mtu: Num): Num {
    if mtu.Finite? && mtu.value <= 0 then Finite(1) else mtu
  }

  /** One call of tcpSendBig's `send` on a non-empty text: the slice it
      writes, `text.slice(0, mtu)`, and the text it goes on with,
      `text.slice(mtu)`. */
  function SendBigStep(text: String, mtu: Num): (r: (String, String))
    ensures r.0 + r.1 == text
  {
    var k := SliceIndex(mtu);
    var r := (Slice(text, 0, k), Slice(text, k, |text|));
    assert r.0 + r.1 == text by {
      var t := RelIndex(k, |text|);
      assert r.0 == text[..t] && r.1 == text[t..];
    }
    r
  }

  /** A NaN MTU passes the check; then each call of `send` writes an empty
      slice and goes on with the whole text again, so the send never ends. */
  lemma NaNMtuSendsNothing(text: String)
    requires text != []
    ensures CheckMtu(NaN) == Ok(NaN)
    ensures SendBigStep(text, SendMtu(NaN)) == ([], text)
  {
    assert Slice(text, 0, |text|) == text[0..|text|] == text;
  }

  /** The check as intended: only an integer MTU from 1 to 1006 passes. */
  function CheckMtuStrict(mtu: Num): (r: Result<nat>)
    ensures r.Ok? <==> mtu.Finite? && ValidMtu(mtu.value)
    ensures r.Ok? ==> Finite(r.value) == mtu
    ensures r.Err? ==> r.message == "invalid mtu:"
  {
    if mtu.NaN? || !ValidMtu(mtu.value) then Err("invalid mtu:") else Ok(mtu.value)
  }

  /** With an MTU that passes the strict check, each call of `send` writes
      the next of the Chunks and goes on with the text the rest are cut from. */
  lemma StrictMtuSends(mtu: Num, text: String)
    requires CheckMtuStrict(mtu).Ok? && text != []
    ensures var m := CheckMtuStrict(mtu).value;
      var step := SendBigStep(text, SendMtu(mtu));
      Chunks(text, m) == [step.0] + Chunks(step.1, m) && step.0 != []
  {
    var m := CheckMtuStrict(mtu).value;
    SliceSplit(text, m);
  }

  const OkCrLf: String := "OK\r\n"

  function OpenSpec(ip: String, port: nat, timing: Timing): AtSpec {
    AtSpec("at+qiopen=1,0,\"TCP\",\"" + ip + "\"," + Dec(port) + ",0,0", Finite(timing.tcpConnDelay), Pattern(OkCrLf))
  }

  /** tcpOpen: one AT command, whose outcome is the result. */
  function TcpOpen(ip: String, port: nat, timing: Timing, outcome: Outcome): (r: Run)
    ensures Commands(r.trace) == [OpenSpec(ip, port, timing)]
    ensures r.result == outcome
  {
    Run([Command(OpenSpec(ip, port, timing), false)], outcome)
  }

  function CloseSpec(timing: Timing): AtSpec {
    AtSpec("at+qiclose=0", Finite(timing.tcpCloseDelay), Patterns([OkCrLf, "MODEM TIMEOUT"]))
  }

  /** tcpClose: the modem often answers nothing, so the outcome is dropped. */
  function TcpClose(timing: Timing, outcome: Outcome): (r: Run)
    ensures Commands(r.trace) == [CloseSpec(timing)]
    ensures r.result == Pass
  {
    Run([Command(CloseSpec(timing), false)], Pass)
  }

  function PromptSpec(text: String, timing: Timing): AtSpec {
    AtSpec("at+qisend=0," + Dec(|text|), Finite(timing.atRespDelay), Patterns(["> \r\n", "PROMPT\r\n", "PROMPT \r\n"]))
  }

  function PayloadSpec(text: String, timing: Timing): AtSpec {
    AtSpec(text, Finite(timing.tcpSendTimeout), Pattern("SEND OK\r\n"))
  }

  /** The outcomes of the two exchanges of one send: the prompt, then the payload. */
  datatype SendOutcome = SendOutcome(prompt: Outcome, payload: Outcome)

  /** tcpSend: ask for the send prompt announcing the length; only once it has
      come, write the payload, raw unless the link is optical. */
  function TcpSend(text: String, timing: Timing, optical: bool, o: SendOutcome): (r: Run)
    ensures o.prompt.Fail? ==> r == Run([Command(PromptSpec(text, timing), false)], o.prompt)
    ensures o.prompt.Pass? ==>
      r.result == o.payload
      && r.trace == [Command(PromptSpec(text, timing), false), Command(PayloadSpec(text, timing), !optical)]
  {
    if o.prompt.Fail? then Run([Command(PromptSpec(text, timing), false)], o.prompt)
    else Run([Command(PromptSpec(text, timing), false), Command(PayloadSpec(text, timing), !optical)], o.payload)
  }

  /** The slices tcpSendBig sends: `text.slice(0, mtu)`, then the rest. */
  function Chunks(text: String, mtu: nat): (cs: seq<String>)
    requires mtu >= 1
    ensures Flatten(cs) == text
    ensures forall i :: 0 <= i < |cs| ==> 0 < |cs[i]| <= mtu
    ensures forall i :: 0 <= i < |cs| - 1 ==> |cs[i]| == mtu
    decreases |text|
  {
    if text == [] then []
    else if |text| <= mtu then
      assert Flatten([text]) == text + Flatten([]);
      [text]
    else
      var rest := Chunks(text[mtu..], mtu);
      var cs := [text[..mtu]] + rest;
      assert cs[1..] == rest;
      assert text == text[..mtu] + text[mtu..];
      cs
  }

  /** There are ceil(|text| / mtu) slices: the fewest whose total capacity
      holds the text. */
  lemma {:induction false} ChunkCount(text: String, mtu: nat)
    requires mtu >= 1
    ensures var n := |Chunks(text, mtu)|;
      |text| <= n * mtu && (n == 0 || (n - 1) * mtu < |text|)
    decreases |text|
  {
    if |text| > mtu {
      var n := |Chunks(text[mtu..], mtu)|;
      ChunkCount(text[mtu..], mtu);
      ChunksStep(text, mtu);
      MulSucc(n, mtu);
    }
  }

  lemma ChunksStep(text: String, mtu: nat)
    requires 1 <= mtu < |text|
    ensures |Chunks(text, mtu)| == |Chunks(text[mtu..], mtu)| + 1
  {
  }

  lemma MulSucc(n: nat, m: nat)
    ensures (n + 1) * m == n * m + m
  {
  }

  /** `text.slice(0, mtu)` and `text.slice(mtu)` are the first slice and what
      remains to be sliced. */
  lemma SliceSplit(text: String, mtu: nat)
    requires mtu >= 1 && text != []
    ensures Chunks(text, mtu) == [Slice(text, 0, mtu)] + Chunks(Slice(text, mtu, |text|), mtu)
    ensures Slice(text, 0, mtu) + Slice(text, mtu, |text|) == text
  {
    if |text| <= mtu {
      assert Slice(text, mtu, |text|) == [];
      assert Slice(text, 0, mtu) == text;
    } else {
      assert Slice(text, 0, mtu) == text[..mtu];
      assert Slice(text, mtu, |text|) == text[mtu..];
    }
  }

  /** tcpSendBig: the slices are sent one after the other through tcpSend, and
      the first slice that fails ends the send with its error. */
  function SendBig(text: String, mtu: nat, timing: Timing, optical: bool, outcomes: seq<SendOutcome>): Run
    requires mtu >= 1
    requires |outcomes| == |Chunks(text, mtu)|
    decreases |text|
  {
    if text == [] then Run([], Pass)
    else
      var chunk, tail := Slice(text, 0, mtu), Slice(text, mtu, |text|);
      SliceSplit(text, mtu);
      var one := TcpSend(chunk, timing, optical, outcomes[0]);
      if one.result.Fail? then one
      else
        var rest := SendBig(tail, mtu, timing, optical, outcomes[1..]);
        Run(one.trace + rest.trace, rest.result)
  }

  predicate Sent(o: SendOutcome) { o.prompt.Pass? && o.payload.Pass? }

  function FirstUnsent(outcomes: seq<SendOutcome>): (k: nat)
    ensures k <= |outcomes|
    ensures forall i :: 0 <= i < k ==> Sent(outcomes[i])
    ensures k < |outcomes| ==> !Sent(outcomes[k])
  {
    if outcomes == [] || !Sent(outcomes[0]) then 0 else 1 + FirstUnsent(outcomes[1..])
  }

  /** The payloads written, in order. */
  function Payloads(specs: seq<AtSpec>, timing: Timing): seq<String> {
    if specs == [] then []
    else if specs[0].timeout == Finite(timing.tcpSendTimeout) && specs[0].expected == Pattern("SEND OK\r\n")
    then [specs[0].command] + Payloads(specs[1..], timing)
    else Payloads(specs[1..], timing)
  }

  /** The same sends over a list of slices already cut. */
  function SendChunks(cs: seq<String>, timing: Timing, optical: bool, outcomes: seq<SendOutcome>): Run
    requires |outcomes| == |cs|
  {
    if cs == [] then Run([], Pass)
    else
      var one := TcpSend(cs[0], timing, optical, outcomes[0]);
      if one.result.Fail? then one
      else
        var rest := SendChunks(cs[1..], timing, optical, outcomes[1..]);
        Run(one.trace + rest.trace, rest.result)
  }

  lemma {:induction false} SendBigChunks(text: String, mtu: nat, timing: Timing, optical: bool, outcomes: seq<SendOutcome>)
    requires mtu >= 1
    requires |outcomes| == |Chunks(text, mtu)|
    ensures SendBig(text, mtu, timing, optical, outcomes) == SendChunks(Chunks(text, mtu), timing, optical, outcomes)
    decreases |text|
  {
    if text != [] {
      SliceSplit(text, mtu);
      var cs := Chunks(text, mtu);
      assert cs[1..] == Chunks(Slice(text, mtu, |text|), mtu);
      if TcpSend(cs[0], timing, optical, outcomes[0]).result.Pass? {
        SendBigChunks(Slice(text, mtu, |text|), mtu, timing, optical, outcomes[1..]);
      }
    }
  }

  /** The error of one failed send: the prompt's, or else the payload's. */
  function SendError(o: SendOutcome): Outcome {
    if o.prompt.Fail? then o.prompt else o.payload
  }

  lemma {:induction false} SendChunksResult(cs: seq<String>, timing: Timing, optical: bool, outcomes: seq<SendOutcome>)
    requires |outcomes| == |cs|
    ensures var k := FirstUnsent(outcomes);
      SendChunks(cs, timing, optical, outcomes).result == (if k < |cs| then SendError(outcomes[k]) else Pass)
  {
    if cs != [] && Sent(outcomes[0]) {
      SendChunksResult(cs[1..], timing, optical, outcomes[1..]);
    }
  }

  /** One send writes its slice as payload exactly when the prompt came. */
  lemma OneSendPayload(chunk: String, timing: Timing, optical: bool, o: SendOutcome)
    ensures Payloads(Commands(TcpSend(chunk, timing, optical, o).trace), timing)
      == (if o.prompt.Pass? then [chunk] else [])
  {
    var one := TcpSend(chunk, timing, optical, o);
    var prompt := Command(PromptSpec(chunk, timing), false);
    var payload := Command(PayloadSpec(chunk, timing), !optical);
    assert Payloads([prompt.spec], timing) == [] by {
      assert [prompt.spec][1..] == [];
    }
    if o.prompt.Fail? {
      assert Commands(one.trace) == [prompt.spec] by {
        assert one.trace[1..] == [];
      }
    } else {
      assert Commands(one.trace) == [prompt.spec, payload.spec] by {
        assert one.trace == [prompt, payload];
        assert [prompt, payload][1..] == [payload];
        assert [payload][1..] == [];
        assert Commands([payload]) == [payload.spec];
      }
      assert Payloads([prompt.spec, payload.spec], timing) == [chunk] by {
        assert [prompt.spec, payload.spec][1..] == [payload.spec];
        assert [payload.spec][1..] == [];
      }
    }
  }

  /** A slice sent in full contributes its payload ahead of the later ones. */
  lemma SendChunksPayloadsCons(cs: seq<String>, timing: Timing, optical: bool, outcomes: seq<SendOutcome>)
    requires |outcomes| == |cs| && cs != [] && Sent(outcomes[0])
    ensures Payloads(Commands(SendChunks(cs, timing, optical, outcomes).trace), timing)
      == [cs[0]] + Payloads(Commands(SendChunks(cs[1..], timing, optical, outcomes[1..]).trace), timing)
  {
    var one := TcpSend(cs[0], timing, optical, outcomes[0]);
    var rest := SendChunks(cs[1..], timing, optical, outcomes[1..]);
    OneSendPayload(cs[0], timing, optical, outcomes[0]);
    assert SendChunks(cs, timing, optical, outcomes).trace == one.trace + rest.trace;
    CommandsAppend(one.trace, rest.trace);
    PayloadsAppend(Commands(one.trace), Commands(rest.trace), timing);
  }

  /** The slices whose payload was written: all before the first failed send,
      and that one too when its prompt came. */
  function Delivered(cs: seq<String>, outcomes: seq<SendOutcome>): seq<String>
    requires |outcomes| == |cs|
  {
    var k := FirstUnsent(outcomes);
    cs[..k] + (if k < |cs| && outcomes[k].prompt.Pass? then [cs[k]] else [])
  }

  lemma DeliveredCons(cs: seq<String>, outcomes: seq<SendOutcome>)
    requires |outcomes| == |cs| && cs != [] && Sent(outcomes[0])
    ensures Delivered(cs, outcomes) == [cs[0]] + Delivered(cs[1..], outcomes[1..])
  {
    var k := FirstUnsent(outcomes);
    assert k == 1 + FirstUnsent(outcomes[1..]);
    var tail, after := cs[1..], outcomes[1..];
    var part := if k < |cs| && outcomes[k].prompt.Pass? then [cs[k]] else [];
    assert part == if k - 1 < |tail| && after[k - 1].prompt.Pass? then [tail[k - 1]] else [] by {
      assert k < |cs| ==> cs[k] == tail[k - 1] && outcomes[k] == after[k - 1];
    }
    assert cs[..k] == [cs[0]] + tail[..k - 1];
  }

  lemma {:induction false} SendChunksPayloads(cs: seq<String>, timing: Timing, optical: bool, outcomes: seq<SendOutcome>)
    requires |outcomes| == |cs|
    ensures Payloads(Commands(SendChunks(cs, timing, optical, outcomes).trace), timing) == Delivered(cs, outcomes)
  {
    if cs != [] {
      if Sent(outcomes[0]) {
        SendChunksPayloadsCons(cs, timing, optical, outcomes);
        SendChunksPayloads(cs[1..], timing, optical, outcomes[1..]);
        DeliveredCons(cs, outcomes);
      } else {
        OneSendPayload(cs[0], timing, optical, outcomes[0]);
        assert SendChunks(cs, timing, optical, outcomes) == TcpSend(cs[0], timing, optical, outcomes[0]);
        assert FirstUnsent(outcomes) == 0;
        assert cs[..0] == [];
      }
    }
  }

  /** The payload slices reach the modem in order up to the first slice whose
      send fails; when none fails, they make up the whole text, and the send
      succeeds. Otherwise the send ends with that slice's error. */
  lemma SendBigInOrder(text: String, mtu: nat, timing: Timing, optical: bool, outcomes: seq<SendOutcome>)
    requires mtu >= 1
    requires |outcomes| == |Chunks(text, mtu)|
    ensures var r := SendBig(text, mtu, timing, optical, outcomes);
      var k := FirstUnsent(outcomes);
      var cs := Chunks(text, mtu);
      Payloads(Commands(r.trace), timing) == cs[..k] + (if k < |cs| && outcomes[k].prompt.Pass? then [cs[k]] else [])
      && (k == |cs| ==> r.result == Pass && Flatten(Payloads(Commands(r.trace), timing)) == text)
      && (k < |cs| ==> r.result == SendError(outcomes[k]))
  {
    var cs := Chunks(text, mtu);
    SendBigChunks(text, mtu, timing, optical, outcomes);
    SendChunksResult(cs, timing, optical, outcomes);
    SendChunksPayloads(cs, timing, optical, outcomes);
    assert cs[..|cs|] + [] == cs;
  }

  lemma {:induction false} PayloadsAppend(a: seq<AtSpec>, b: seq<AtSpec>, timing: Timing)
    ensures Payloads(a + b, timing) == Payloads(a, timing) + Payloads(b, timing)
  {
    if a == [] {
      assert a + b == b;
    } else {
      assert (a + b)[0] == a[0];
      assert (a + b)[1..] == a[1..] + b;
      PayloadsAppend(a[1..], b, timing);
    }
  }

  /** The `+QIRD` frame: `+QIRD: <n>\r\n<payload>\r\nOK\r\n`. */
  const Tail: String := "\r\nOK\r\n"
  const FrameInvalid: String := "+QIRD message invalid"

  function RecvSpec(mtu: nat, timing: Timing): AtSpec {
    AtSpec("at+qird=0," + Dec(mtu), Finite(timing.tcpRecvTimeout), Pattern(Tail))
  }

  /** What tcpRecv makes of what follows the digits: a line break, then at
      least `len` characters, of which the first `len` are the payload. */
  function QirdAfter(len: nat, after: String): Result<String> {
    if |after| < 2 || after[..2] != CrLf then Err(FrameInvalid)
    else if |after| - 2 < len then Err(FrameInvalid)
    else Ok(after[2..2 + len])
  }

  /** What tcpRecv makes of the text between the first head and the final
      tail: a decimal length, then what QirdAfter accepts. */
  function QirdBody(data: String): Result<String> {
    var digits := LeadingDigits(data);
    QirdAfter(DecValue(digits), data[|digits|..])
  }

  /** What tcpRecv makes of a response: it needs a head somewhere and the tail
      at the very end. */
  function Qird(resp: String): Result<String> {
    var h := IndexOf(resp, Head);
    if h < 0 || !EndsWith(resp, Tail) then Err(FrameInvalid)
    else QirdBody(Slice(resp, h + |Head|, |resp| - |Tail|))
  }

  lemma DecValueSnoc(s: String, k: nat)
    requires k < |s| && AllDigits(s[..k + 1])
    ensures AllDigits(s[..k]) && DecValue(s[..k + 1]) == 10 * DecValue(s[..k]) + DigitValue(s[k])
  {
    assert s[..k + 1][..k] == s[..k];
  }

  /** `s.slice(from, from + |t|) != t`, as JavaScript evaluates it for a slice
      running to the end of the string or into it. */
  lemma SliceMatches(s: String, from: int, t: String)
    requires 0 <= from <= |s| || from == |s| - |t|
    ensures (Slice(s, from, from + |t|) == t) <==> (0 <= from && from + |t| <= |s| && s[from..from + |t|] == t)
  {
    if 0 <= from && from + |t| <= |s| {
      assert Slice(s, from, from + |t|) == s[from..from + |t|];
    } else if from >= 0 {
      assert |Slice(s, from, from + |t|)| <= |s| - from;
    } else {
      assert |Slice(s, from, from + |t|)| <= |s|;
    }
  }

  /** tcpRecv's digit loop: accumulates the announced length while it strips
      the leading digits off the data. */
  method ReadLength(data: String) returns (len: nat, rest: String)
    ensures len == DecValue(LeadingDigits(data))
    ensures rest == data[|LeadingDigits(data)|..]
  {
    rest := data;
    len := 0;
    ghost var k: nat := 0;
    while rest != [] && IsDigit(rest[0])
      invariant k <= |data| && rest == data[k..]
      invariant AllDigits(data[..k]) && len == DecValue(data[..k])
      decreases |rest|
    {
      DecValueSnoc(data, k);
      len := len * 10 + DigitValue(rest[0]);
      rest := rest[1..];
      k := k + 1;
    }
    LeadingDigitsAt(data, k);
  }

  /** The head and tail checks of tcpRecv, as JavaScript evaluates them. */
  lemma QirdChecks(resp: String, h: int)
    requires h == IndexOf(resp, Head)
    ensures h < 0 || Slice(resp, |resp| - |Tail|, |resp|) != Tail ==> Qird(resp) == Err(FrameInvalid)
    ensures h >= 0 && Slice(resp, |resp| - |Tail|, |resp|) == Tail ==>
      Qird(resp) == QirdBody(Slice(resp, h + |Head|, |resp| - |Tail|))
  {
    SliceMatches(resp, |resp| - |Tail|, Tail);
  }

  /** The line-break and length checks after the digits, as JavaScript
      evaluates them. */
  lemma QirdAfterChecks(len: nat, data: String)
    ensures Slice(data, 0, 2) != CrLf ==> QirdAfter(len, data) == Err(FrameInvalid)
    ensures Slice(data, 0, 2) == CrLf ==>
      var rest := Slice(data, 2, |data|);
      rest == data[2..]
      && (|rest| < len ==> QirdAfter(len, data) == Err(FrameInvalid))
      && (|rest| >= len ==> QirdAfter(len, data) == Ok(Slice(rest, 0, len)))
  {
    SliceMatches(data, 0, CrLf);
    if Slice(data, 0, 2) == CrLf {
      var rest := Slice(data, 2, |data|);
      assert rest == data[2..];
      if |rest| >= len {
        assert Slice(rest, 0, len) == data[2..2 + len];
      }
    }
  }

  /** tcpRecv's parse of a successful reply. */
  method ParseQird(resp: String) returns (r: Result<String>)
    ensures r == Qird(resp)
  {
    var h := IndexOf(resp, Head);
    QirdChecks(resp, h);
    if h < 0 || Slice(resp, |resp| - |Tail|, |resp|) != Tail {
      return Err(FrameInvalid);
    }
    var len, data := ReadLength(Slice(resp, h + |Head|, |resp| - |Tail|));
    QirdAfterChecks(len, data);
    if Slice(data, 0, 2) != CrLf {
      return Err(FrameInvalid);
    }
    data := Slice(data, 2, |data|);
    if |data| < len {
      return Err(FrameInvalid);
    }
    r := Ok(Slice(data, 0, len));
  }

  /** With no head before it, the first head is the one given, and the body
      between it and the tail is what gets parsed. */
  lemma QirdFrame(pre: String, body: String)
    requires !Contains(pre, Head)
    ensures Qird(pre + Head + body + Tail) == QirdBody(body)
  {
    var resp := pre + Head + body + Tail;
    HeadOnlyAt(pre, body + Tail);
    assert pre + Head + (body + Tail) == resp;
    assert resp[|resp| - |Tail|..] == Tail;
    assert Slice(resp, |pre| + |Head|, |resp| - |Tail|) == resp[|pre| + |Head|..|resp| - |Tail|];
    assert resp[|pre| + |Head|..|resp| - |Tail|] == body;
  }

  lemma LeadingDigitsPrefix(digits: String, after: String)
    requires AllDigits(digits) && after != [] && !IsDigit(after[0])
    ensures LeadingDigits(digits + after) == digits
  {
    var data := digits + after;
    assert data[..|digits|] == digits;
    assert data[|digits|] == after[0];
  }

  lemma QirdBodyAt(data: String, digits: String, after: String)
    requires LeadingDigits(data) == digits && data == digits + after
    ensures QirdBody(data) == QirdAfter(DecValue(digits), after)
  {
    assert data[|digits|..] == after;
  }

  /** Digits followed by a non-digit: the parse reads exactly those digits. */
  lemma QirdBodySplit(digits: String, after: String)
    requires AllDigits(digits) && after != [] && !IsDigit(after[0])
    ensures QirdBody(digits + after) == QirdAfter(DecValue(digits), after)
  {
    LeadingDigitsPrefix(digits, after);
    QirdBodyAt(digits + after, digits, after);
  }

  lemma QirdAfterComplete(payload: String, extra: String)
    ensures QirdAfter(|payload|, CrLf + payload + extra) == Ok(payload)
  {
    var after := CrLf + payload + extra;
    assert after[..2] == CrLf;
    assert after[2..2 + |payload|] == payload;
  }

  lemma QirdBodyComplete(digits: String, payload: String, extra: String)
    requires AllDigits(digits) && DecValue(digits) == |payload|
    ensures QirdBody(digits + CrLf + payload + extra) == Ok(payload)
  {
    var after := CrLf + payload + extra;
    assert after[0] == '\r';
    assert digits + CrLf + payload + extra == digits + after;
    QirdBodySplit(digits, after);
    QirdAfterComplete(payload, extra);
  }

  /** Every well-formed frame yields its payload, whatever comes before the
      head and whatever follows the payload before the tail. */
  lemma QirdComplete(pre: String, digits: String, payload: String, extra: String)
    requires !Contains(pre, Head)
    requires AllDigits(digits) && DecValue(digits) == |payload|
    ensures Qird(pre + Head + digits + CrLf + payload + extra + Tail) == Ok(payload)
  {
    var body := digits + CrLf + payload + extra;
    Regroup(pre, Head, digits, CrLf, payload, extra, Tail);
    QirdFrame(pre, body);
    QirdBodyComplete(digits, payload, extra);
  }

  lemma QirdBodySound(data: String) returns (digits: String, extra: String)
    requires QirdBody(data).Ok?
    ensures data == digits + CrLf + QirdBody(data).value + extra
    ensures AllDigits(digits) && DecValue(digits) == |QirdBody(data).value|
  {
    digits := LeadingDigits(data);
    var after := data[|digits|..];
    var p := QirdBody(data).value;
    extra := after[2 + |p|..];
    assert after[..2] == CrLf && after[2..2 + |p|] == p;
    Around(after, 0, 2 + |p|, CrLf, extra);
    assert data == digits + after by { SplitAt(data, |digits|); }
  }

  /** A text with p at i and q at its end is what precedes p, p, what lies between, and q. */
  lemma Around(s: String, i: nat, j: nat, p: String, q: String)
    requires i + |p| <= j && j + |q| == |s|
    requires s[i..i + |p|] == p && s[j..] == q
    ensures s == s[..i] + p + s[i + |p|..j] + q
  {
    assert s == s[..i] + s[i..i + |p|] + s[i + |p|..j] + s[j..];
  }

  lemma SplitAt(s: String, i: nat)
    requires i <= |s|
    ensures s == s[..i] + s[i..]
  {
  }

  lemma QirdFrameSound(resp: String) returns (pre: String, body: String)
    requires Qird(resp).Ok?
    ensures resp == pre + Head + body + Tail && Qird(resp) == QirdBody(body)
  {
    var h := IndexOf(resp, Head);
    body := Slice(resp, h + |Head|, |resp| - |Tail|);
    pre := resp[..h];
    assert body == resp[h + |Head|..|resp| - |Tail|];
    assert resp[h..h + |Head|] == Head;
    assert resp[|resp| - |Tail|..] == Tail;
    Around(resp, h, |resp| - |Tail|, Head, Tail);
  }

  /** Every payload the parse returns comes from a frame of that shape. */
  lemma QirdSound(resp: String)
    requires Qird(resp).Ok?
    ensures exists pre, digits, extra ::
      resp == pre + Head + digits + CrLf + Qird(resp).value + extra + Tail
      && AllDigits(digits) && DecValue(digits) == |Qird(resp).value|
  {
    var pre, body := QirdFrameSound(resp);
    var digits, extra := QirdBodySound(body);
    var p := Qird(resp).value;
    assert body == digits + CrLf + p + extra;
    Regroup(pre, Head, digits, CrLf, p, extra, Tail);
    assert resp == pre + Head + digits + CrLf + p + extra + Tail;
  }

  /** A frame holding its own length yields its payload. */
  lemma QirdOwnLength(payload: String)
    ensures Qird(Head + Dec(|payload|) + CrLf + payload + Tail) == Ok(payload)
  {
    QirdDecLength(payload, |payload|);
  }

  lemma QirdDecLength(payload: String, n: nat)
    requires n == |payload|
    ensures Qird(Head + Dec(n) + CrLf + payload + Tail) == Ok(payload)
  {
    QirdAnnounced(Dec(n), payload);
  }

  lemma QirdAnnounced(d: String, payload: String)
    requires AllDigits(d) && DecValue(d) == |payload|
    ensures Qird(Head + d + CrLf + payload + Tail) == Ok(payload)
  {
    assert !Contains([], Head);
    Unpad(Head, d, CrLf, payload, Tail);
    QirdComplete([], d, payload, []);
  }

  lemma Regroup(a: String, b: String, c: String, d: String, e: String, f: String, g: String)
    ensures a + b + c + d + e + f + g == a + b + (c + d + e + f) + g
  {
  }

  lemma Nest(a: String, b: String, c: String, p: String, q: String)
    ensures a + b + c + p + q == [] + a + (b + (c + p)) + q
  {
    assert [] + a == a;
  }

  lemma Unpad(a: String, b: String, c: String, p: String, q: String)
    ensures [] + a + b + c + p + [] + q == a + b + c + p + q
  {
    assert [] + a == a && p + [] == p;
  }

  lemma QirdExampleFour()
    ensures Qird("+QIRD: 4\r\nABCD\r\nOK\r\n") == Ok("ABCD")
  {
    assert !Contains([], Head);
    assert DecValue("4") == 4;
    assert "+QIRD: 4\r\nABCD\r\nOK\r\n" == [] + Head + "4" + CrLf + "ABCD" + [] + Tail;
    QirdComplete([], "4", "ABCD", []);
  }

  lemma QirdExampleEmpty()
    ensures Qird("+QIRD: 0\r\n\r\nOK\r\n") == Ok("")
  {
    assert !Contains([], Head);
    assert DecValue("0") == 0;
    assert "+QIRD: 0\r\n\r\nOK\r\n" == [] + Head + "0" + CrLf + "" + [] + Tail;
    QirdComplete([], "0", "", []);
  }

  /** A frame that announces more than it carries is invalid. */
  lemma QirdExampleShort()
    ensures Qird("+QIRD: 5\r\nABCD\r\nOK\r\n") == Err(FrameInvalid)
  {
    assert !Contains([], Head);
    var after := "\r\nABCD";
    assert "+QIRD: 5\r\nABCD\r\nOK\r\n" == [] + Head + ("5" + after) + Tail;
    QirdFrame([], "5" + after);
    assert DecValue("5") == 5;
    QirdBodySplit("5", after);
  }

  /** Digits announcing more than follows the line break: invalid. */
  lemma QirdBodyShort(digits: String, payload: String)
    requires AllDigits(digits) && DecValue(digits) > |payload|
    ensures QirdBody(digits + (CrLf + payload)) == Err(FrameInvalid)
  {
    var after := CrLf + payload;
    assert after[0] == '\r' && after[..2] == CrLf;
    QirdBodySplit(digits, after);
  }

  /** Every frame announcing one character more than it carries is invalid. */
  lemma QirdShortFrame(payload: String)
    ensures Qird(Head + Dec(|payload| + 1) + CrLf + payload + Tail) == Err(FrameInvalid)
  {
    QirdDecShort(payload, |payload| + 1);
  }

  lemma QirdDecShort(payload: String, n: nat)
    requires n == |payload| + 1
    ensures Qird(Head + Dec(n) + CrLf + payload + Tail) == Err(FrameInvalid)
  {
    var d := Dec(n);
    var body := d + (CrLf + payload);
    Nest(Head, d, CrLf, payload, Tail);
    assert !Contains([], Head);
    QirdFrame([], body);
    QirdBodyShort(d, payload);
  }

  /** tcpRecv: one `at+qird` exchange for up to one MTU of data; an AT
      failure is the error, otherwise the reply is parsed. */
  method TcpRecv(mtu: nat, timing: Timing, reply: AtReply) returns (run: Run, r: Result<String>)
    ensures Commands(run.trace) == [RecvSpec(mtu, timing)] && run.result == reply.outcome
    ensures reply.outcome.Fail? ==> r == Err(reply.outcome.message)
    ensures reply.outcome.Pass? ==> r == Qird(reply.response)
  {
    run := Run([Command(RecvSpec(mtu, timing), false)], reply.outcome);
    assert run.trace[1..] == [];
    if reply.outcome.Fail? {
      return run, Err(reply.outcome.message);
    }
    r := ParseQird(reply.response);
  }

  /** What the ping loop does after each receive. */
  datatype PingNext = Error(message: String) | ReceiveAgain(received: String) | Done(outcome: Outcome)

  const Mismatched: String := "received data mismatched"

  /** commandTcpPing's receive decision: keep reading while data still comes,
      or while the echo is shorter than what was sent and the wait has not
      run out; then the echo must equal what was sent. */
  function PingStep(sent: String, received: String, recv: Result<String>, elapsed: int, timing: Timing): (r: PingNext)
    ensures recv.Err? <==> r.Error?
    ensures recv.Err? ==> r == Error(recv.message)
    ensures recv.Ok? && recv.value != [] ==> r == ReceiveAgain(received + recv.value)
    ensures recv.Ok? && recv.value == [] ==>
      (r.Done? <==> |received| >= |sent| || elapsed >= timing.tcpPingDataWaitTimeout)
    ensures recv.Ok? && recv.value == [] && r.ReceiveAgain? ==> r.received == received
    ensures r.Done? ==>
      recv.Ok? && recv.value == []
      && (|received| >= |sent| || elapsed >= timing.tcpPingDataWaitTimeout)
    ensures r.Done? ==> (r.outcome == Pass <==> received == sent)
    ensures r.Done? && r.outcome.Fail? ==> r.outcome.message == Mismatched
  {
    if recv.Err? then Error(recv.message)
    else
      var all := received + recv.value;
      if recv.value != [] then ReceiveAgain(all)
      else if |all| < |sent| && elapsed < timing.tcpPingDataWaitTimeout then ReceiveAgain(all)
      else
        assert all == received;
        Done(if all != sent then Fail(Mismatched) else Pass)
  }
}
