/** The bench-side helper (netcli.js): it talks SCPI to the optical head over
    a serial line. Every command goes out through one line sender; responses
    come back through the resetting line reader. Modelled here: the line
    sender, the power-on state machine, the modem initialisation sequence and
    the pass-through switch. Time is abstract: a pending setTimeout is a
    `Timer` that fires when the environment chooses. */
module NetCli {
  import opened JsText
  import opened Protocol
  import LineReader

  /** makeScpiSender: the bytes written for one command line. */
  function ScpiLine(cmdline: String): (b: String)
    ensures |b| == |cmdline| + 2 && b[..|cmdline|] == cmdline && b[|cmdline|..] == CrLf
  {
    cmdline + CrLf
  }

  /** The line sender writes what the modem tools' sender writes for a
      non-raw line, and distinct commands give distinct lines. */
  lemma ScpiLineAgrees(a: String, b: String)
    ensures ScpiLine(a) == LineBytes(a, false)
    ensures ScpiLine(a) == ScpiLine(b) ==> a == b
  {
    if ScpiLine(a) == ScpiLine(b) {
      assert a == ScpiLine(a)[..|a|];
      assert b == ScpiLine(b)[..|b|];
    }
  }

  // ---------------------------------------------------------------------
  // poweron-modem

  const ReadPowerGoodPin: String := "DIGital:PIN? P52"
  const AssertDcc: String := "DIGital:PIN P51,HI"
  const TurnOnPowerKey: String := "DIGital:PIN PD1,LO,500"
  const PowerOff: String := "0"
  const PowerOn: String := "1"
  /** Wait before pressing the power key, and before a repeated query. */
  const ShortDelay: nat := 200
  /** Wait after pressing the power key before querying again. */
  const KeyDelay: nat := 1000

  /** The command's `state` variable. */
  datatype PinMode = Querying | Setting

  /** What a pending timer does when it fires. */
  datatype Job =
    | PressKey    // sends the power-key command, then waits KeyDelay
    | EndSetting  // back to querying, and reads the power-good pin
    | Requery     // reads the power-good pin again

  datatype Timer = Timer(ms: nat, job: Job)

  /** Everything the command's closures share: the state variable, the line
      reader's buffer, the lines written so far, the pending timers, and
      whether the modem was seen on (the process then exits). */
  datatype PowerState = PowerState(mode: PinMode, buffer: String, written: seq<String>, timers: seq<Timer>, done: bool)

  predicate Allowed(line: String) {
    line == ScpiLine(ReadPowerGoodPin) || line == ScpiLine(AssertDcc) || line == ScpiLine(TurnOnPowerKey)
  }

  /** The number of pending timers that belong to a power-key sequence. */
  function SettingTimers(ts: seq<Timer>): nat
    decreases |ts|
  {
    if ts == [] then 0 else (if ts[0].job == Requery then 0 else 1) + SettingTimers(ts[1..])
  }

  /** What holds between events: the command is setting exactly while one
      power-key sequence is under way, nothing is pending after exit, and
      only the three pin commands are ever written. */
  predicate Inv(s: PowerState) {
    SettingTimers(s.timers) == (if s.mode == Setting then 1 else 0)
    && (s.done ==> s.timers == [])
    && (forall i :: 0 <= i < |s.written| ==> Allowed(s.written[i]))
  }

  /** The command starts querying and reads the power-good pin. */
  function PowerStart(): (s: PowerState)
    ensures Inv(s) && s.mode == Querying && s.written == [ScpiLine(ReadPowerGoodPin)]
  {
    PowerState(Querying, [], [ScpiLine(ReadPowerGoodPin)], [], false)
  }

  /** The response handler, given the trimmed response. */
  function OnResponse(s: PowerState, response: String): (r: PowerState)
    ensures s.done || s.mode == Setting ==> r == s
    ensures !s.done && s.mode == Querying && response == PowerOff ==>
      r.mode == Setting && r.written == s.written + [ScpiLine(AssertDcc)]
      && r.timers == s.timers + [Timer(ShortDelay, PressKey)] && !r.done
    ensures !s.done && s.mode == Querying && response == PowerOn ==>
      r.done && r.timers == [] && r.written == s.written
    ensures !s.done && s.mode == Querying && response != PowerOff && response != PowerOn ==>
      r.mode == Querying && r.written == s.written
      && r.timers == s.timers + [Timer(ShortDelay, Requery)] && !r.done
  {
    if s.done || s.mode != Querying then s
    else if response == PowerOff then
      s.(mode := Setting, written := s.written + [ScpiLine(AssertDcc)], timers := s.timers + [Timer(ShortDelay, PressKey)])
    else if response == PowerOn then
      s.(done := true, timers := [])
    else
      s.(timers := s.timers + [Timer(ShortDelay, Requery)])
  }

  /** A chunk of serial data: into the resetting reader, and a completed
      line, trimmed, into the response handler. */
  function Receive(s: PowerState, chunk: String): PowerState {
    if s.done then s
    else
      var st := LineReader.Reset(s.buffer, chunk);
      var s1 := s.(buffer := st.buffer);
      if st.raw.Some? then OnResponse(s1, Trim(st.raw.value)) else s1
  }

  /** The k-th pending timer fires and is no longer pending. */
  function Fire(s: PowerState, k: nat): PowerState
    requires k < |s.timers|
  {
    var s1 := s.(timers := s.timers[..k] + s.timers[k + 1..]);
    match s.timers[k].job
    case PressKey =>
      s1.(written := s.written + [ScpiLine(TurnOnPowerKey)], timers := s1.timers + [Timer(KeyDelay, EndSetting)])
    case EndSetting =>
      s1.(mode := Querying, written := s.written + [ScpiLine(ReadPowerGoodPin)])
    case Requery =>
      s1.(written := s.written + [ScpiLine(ReadPowerGoodPin)])
  }

  lemma {:induction false} SettingTimersAppend(a: seq<Timer>, b: seq<Timer>)
    ensures SettingTimers(a + b) == SettingTimers(a) + SettingTimers(b)
    decreases |a|
  {
    if a != [] {
      assert (a + b)[0] == a[0] && (a + b)[1..] == a[1..] + b;
      SettingTimersAppend(a[1..], b);
    } else {
      assert a + b == b;
    }
  }

  lemma SettingTimersRemove(ts: seq<Timer>, k: nat)
    requires k < |ts|
    ensures SettingTimers(ts) == SettingTimers(ts[..k] + ts[k + 1..]) + (if ts[k].job == Requery then 0 else 1)
  {
    TimersAround(ts, k);
    SettingTimersMiddle(ts[..k], ts[k], ts[k + 1..]);
  }

  lemma TimersAround(ts: seq<Timer>, k: nat)
    requires k < |ts|
    ensures ts == ts[..k] + ([ts[k]] + ts[k + 1..])
  {
    assert ts[k..] == [ts[k]] + ts[k + 1..];
    assert ts == ts[..k] + ts[k..];
  }

  lemma SettingTimersMiddle(a: seq<Timer>, t: Timer, c: seq<Timer>)
    ensures SettingTimers(a + ([t] + c)) == SettingTimers(a + c) + (if t.job == Requery then 0 else 1)
  {
    SettingTimersAppend(a, [t] + c);
    SettingTimersAppend([t], c);
    SettingTimersAppend(a, c);
    assert [t][1..] == [];
  }

  /** A response keeps the invariant. */
  lemma OnResponseInv(s: PowerState, response: String)
    requires Inv(s)
    ensures Inv(OnResponse(s, response))
  {
    if !s.done && s.mode == Querying && response != PowerOn {
      var r := OnResponse(s, response);
      var t := if response == PowerOff then Timer(ShortDelay, PressKey) else Timer(ShortDelay, Requery);
      SettingTimersAppend(s.timers, [t]);
      assert [t][1..] == [];
      assert forall i :: 0 <= i < |s.written| ==> r.written[i] == s.written[i];
    }
  }

  lemma ReceiveInv(s: PowerState, chunk: String)
    requires Inv(s)
    ensures Inv(Receive(s, chunk))
  {
    if !s.done {
      var st := LineReader.Reset(s.buffer, chunk);
      if st.raw.Some? {
        OnResponseInv(s.(buffer := st.buffer), Trim(st.raw.value));
      }
    }
  }

  /** A timer keeps the invariant: the power-key timer hands over to the
      end-of-setting timer, which ends the setting. */
  lemma FireInv(s: PowerState, k: nat)
    requires Inv(s) && k < |s.timers|
    ensures Inv(Fire(s, k))
  {
    var rest := s.timers[..k] + s.timers[k + 1..];
    SettingTimersRemove(s.timers, k);
    var r := Fire(s, k);
    assert forall i :: 0 <= i < |s.written| ==> r.written[i] == s.written[i];
    if s.timers[k].job == PressKey {
      SettingTimersAppend(rest, [Timer(KeyDelay, EndSetting)]);
      assert [Timer(KeyDelay, EndSetting)][1..] == [];
    }
  }

  /** The data the head sends and the timers that fire, in order; a timer
      index that is not pending stands for nothing. */
  datatype Event = Data(chunk: String) | Elapsed(k: nat)

  function Replay(s: PowerState, events: seq<Event>): PowerState
    decreases |events|
  {
    if events == [] then s
    else
      var next :=
        match events[0]
        case Data(chunk) => Receive(s, chunk)
        case Elapsed(k) => if k < |s.timers| then Fire(s, k) else s;
      Replay(next, events[1..])
  }

  /** Whatever arrives and fires, the invariant holds, the lines already
      written stay written, and once the modem is on nothing changes. */
  lemma {:induction false} ReplayInv(s: PowerState, events: seq<Event>)
    requires Inv(s)
    ensures Inv(Replay(s, events))
    ensures s.written <= Replay(s, events).written
    ensures s.done ==> Replay(s, events) == s
    decreases |events|
  {
    if events != [] {
      var next :=
        match events[0]
        case Data(chunk) => Receive(s, chunk)
        case Elapsed(k) => if k < |s.timers| then Fire(s, k) else s;
      match events[0] {
        case Data(chunk) => ReceiveInv(s, chunk);
        case Elapsed(k) => if k < |s.timers| { FireInv(s, k); }
      }
      ReplayInv(next, events[1..]);
      assert s.written <= next.written <= Replay(next, events[1..]).written;
    }
  }

  /** The power-off answer starts one power-key sequence: the DCC line is
      asserted, the power key pressed, and after it the pin is read again,
      with the command back to querying and the other timers as they were. */
  lemma PowerKeySequence(s: PowerState)
    requires Inv(s) && !s.done && s.mode == Querying
    ensures var s1 := OnResponse(s, PowerOff);
      var k := |s.timers|;
      k < |s1.timers| &&
      var s2 := Fire(s1, k);
      k < |s2.timers| &&
      var s3 := Fire(s2, k);
      s3.mode == Querying && s3.timers == s.timers
      && s3.written == s.written + [ScpiLine(AssertDcc), ScpiLine(TurnOnPowerKey), ScpiLine(ReadPowerGoodPin)]
  {
    var s1 := OnResponse(s, PowerOff);
    var k := |s.timers|;
    assert s1.timers[..k] == s.timers;
    var s2 := Fire(s1, k);
    assert s2.timers == s.timers + [Timer(KeyDelay, EndSetting)];
    var s3 := Fire(s2, k);
    assert s3.timers == s2.timers[..k];
  }

  /** commandPowerOn, as its closures keep it. */
  class PowerOnCommand {
    var mode: PinMode
    var buffer: String
    var written: seq<String>
    var timers: seq<Timer>
    var done: bool

    function State(): PowerState
      reads this
    {
      PowerState(mode, buffer, written, timers, done)
    }

    /** Installs the reader and reads the power-good pin. */
    constructor ()
      ensures State() == PowerStart()
    {
      mode := Querying;
      buffer := [];
      written := [ScpiLine(ReadPowerGoodPin)];
      timers := [];
      done := false;
    }

    /** The data listener built by makeRespHandler: the resetting reader,
        which hands each completed line, trimmed, to Respond. */
    method OnData(chunk: String)
      modifies this
      ensures State() == Receive(old(State()), chunk)
    {
      if done {
        return;
      }
      buffer := buffer + chunk;
      if !LineReader.EndsWithNewline(buffer) {
        return;
      }
      var response := Trim(buffer);
      buffer := [];
      Respond(response);
    }

    /** The response handler given to makeRespHandler. */
    method Respond(response: String)
      modifies this
      ensures State() == OnResponse(old(State()), response)
    {
      if done || mode != Querying {
        return;
      }
      if response == PowerOff {
        mode := Setting;
        written := written + [ScpiLine(AssertDcc)];
        timers := timers + [Timer(ShortDelay, PressKey)];
        return;
      }
      if response == PowerOn {
        done := true;
        timers := [];
        return;
      }
      timers := timers + [Timer(ShortDelay, Requery)];
    }

    /** The k-th pending timer fires. */
    method OnTimer(k: nat)
      requires k < |timers|
      modifies this
      ensures State() == Fire(old(State()), k)
    {
      var job := timers[k].job;
      timers := timers[..k] + timers[k + 1..];
      match job
      case PressKey =>
        written := written + [ScpiLine(TurnOnPowerKey)];
        timers := timers + [Timer(KeyDelay, EndSetting)];
      case EndSetting =>
        mode := Querying;
        written := written + [ScpiLine(ReadPowerGoodPin)];
      case Requery =>
        written := written + [ScpiLine(ReadPowerGoodPin)];
    }
  }

  // ---------------------------------------------------------------------
  // initmodem

  const AtList: seq<String> := [
    "ate0",
    "at+cimi",
    "at+cgmi",
    "at+cgmm",
    "at+cgmr",
    "at+cgsn",
    "at+qcfg=\"iotopmode\",1",
    "at+cfun=1",
    "at+cpin?",
    "AT+QCFG=\"gpio\",1,85,1,0,0,1",
    "AT+QCFG=\"gpio\",3,85,1,1",
    "at+cops=0",
    "at+qcfg=\"band\",0,8000004,0,1",
    "at+qcfg=\"band\",0,0,95,1",
    "at+qicsgp=1,1,\"CMNBIOT\",\"\",\"\",0",
    "at+cereg?",
    "at+cereg?",
    "at+cereg?",
    "at+qicsgp=1,1,\"UNINET\",\"\",\"\",1",
    "AT+QIOPEN=1,0,\"TCP\",\"116.6.51.98\",9005,0,1",
    "at+qisend=0,10"
  ]

  /** How long each step waits for its response. */
  const StepDelay: nat := 500

  /** execAt from the first command on: each command written, then its wait. */
  function ExecAtSteps(list: seq<String>): seq<Act>
    decreases |list|
  {
    if list == [] then [] else [Line(ScpiLine(list[0])), Delay(StepDelay)] + ExecAtSteps(list[1..])
  }

  /** commandInitModem for a command list: pass-through on, a wait, every
      command of the list, and a last wait before exit. */
  function InitModemTrace(list: seq<String>): seq<Act> {
    [Line(ScpiLine(ForwardingOn)), Delay(StepDelay)] + ExecAtSteps(list) + [Delay(StepDelay)]
  }

  /** The lines a trace writes, in order. */
  function Written(trace: seq<Act>): seq<String>
    decreases |trace|
  {
    if trace == [] then []
    else (if trace[0].Line? then [trace[0].text] else []) + Written(trace[1..])
  }

  function ScpiLines(list: seq<String>): (r: seq<String>)
    ensures |r| == |list| && forall i :: 0 <= i < |list| ==> r[i] == ScpiLine(list[i])
  {
    seq(|list|, i requires 0 <= i < |list| => ScpiLine(list[i]))
  }

  lemma {:induction false} WrittenAppend(a: seq<Act>, b: seq<Act>)
    ensures Written(a + b) == Written(a) + Written(b)
    decreases |a|
  {
    if a != [] {
      assert (a + b)[0] == a[0] && (a + b)[1..] == a[1..] + b;
      WrittenAppend(a[1..], b);
    } else {
      assert a + b == b;
    }
  }

  /** The stepping writes each command of the list once, in order, and
      nothing else. */
  lemma {:induction false} ExecAtWrites(list: seq<String>)
    ensures Written(ExecAtSteps(list)) == ScpiLines(list)
    decreases |list|
  {
    if list != [] {
      var head := [Line(ScpiLine(list[0])), Delay(StepDelay)];
      WrittenAppend(head, ExecAtSteps(list[1..]));
      ExecAtWrites(list[1..]);
      assert Written(head) == [ScpiLine(list[0])];
      assert ScpiLines(list) == [ScpiLine(list[0])] + ScpiLines(list[1..]);
    }
  }

  /** A list without the pass-through commands leaves the bridge's mode alone. */
  lemma {:induction false} ExecAtKeepsMode(on: bool, list: seq<String>)
    requires forall i :: 0 <= i < |list| ==> list[i] != ForwardingOn && list[i] != ForwardingOff
    ensures ModeAfter(on, ExecAtSteps(list)) == on
    decreases |list|
  {
    if list != [] {
      ScpiLineAgrees(list[0], ForwardingOn);
      ScpiLineAgrees(list[0], ForwardingOff);
      var t := ExecAtSteps(list);
      assert t[1..] == [Delay(StepDelay)] + ExecAtSteps(list[1..]);
      assert t[1..][1..] == ExecAtSteps(list[1..]);
      ExecAtKeepsMode(on, list[1..]);
    }
  }

  /** execAt: steps the index through the list, arming each wait and
      writing each command; the index reaching the list's length ends it. */
  method ExecAt(list: seq<String>) returns (steps: seq<Act>)
    ensures steps == ExecAtSteps(list)
  {
    steps := [];
    var i := 0;
    while i < |list|
      invariant i <= |list|
      invariant steps + ExecAtSteps(list[i..]) == ExecAtSteps(list)
    {
      assert list[i..][1..] == list[i + 1..];
      steps := steps + [Line(ScpiLine(list[i])), Delay(StepDelay)];
      i := i + 1;
    }
    assert list[i..] == [];
    assert steps + [] == steps;
  }

  method InitModem() returns (trace: seq<Act>)
    ensures trace == InitModemTrace(AtList)
  {
    var steps := ExecAt(AtList);
    trace := [Line(ScpiLine(ForwardingOn)), Delay(StepDelay)] + steps + [Delay(StepDelay)];
  }

  /** The list holds no pass-through command. */
  lemma AtListPlain()
    ensures forall i :: 0 <= i < |AtList| ==> AtList[i] != ForwardingOn && AtList[i] != ForwardingOff
  {
    forall i | 0 <= i < |AtList| ensures AtList[i] != ForwardingOn && AtList[i] != ForwardingOff {
      assert |AtList[i]| > 0 && AtList[i][0] in "aA";
    }
  }

  /** initmodem writes pass-through on and then every command of a list
      without pass-through commands exactly once, in order; it never switches
      pass-through off, so the bridge is left forwarding. */
  lemma InitModemIssues(list: seq<String>)
    requires forall i :: 0 <= i < |list| ==> list[i] != ForwardingOn && list[i] != ForwardingOff
    ensures Written(InitModemTrace(list)) == [ScpiLine(ForwardingOn)] + ScpiLines(list)
    ensures ModeAfter(false, InitModemTrace(list))
  {
    var head := [Line(ScpiLine(ForwardingOn)), Delay(StepDelay)];
    var body := ExecAtSteps(list);
    var tail := [Delay(StepDelay)];
    WrittenAppend(head, body);
    WrittenAppend(head + body, tail);
    ExecAtWrites(list);
    assert Written(head) == [ScpiLine(ForwardingOn)];
    assert Written(tail) == [];
    ModeAfterAppend(false, head, body);
    ModeAfterAppend(false, head + body, tail);
    assert ModeAfter(false, head);
    ExecAtKeepsMode(true, list);
  }

  lemma {:induction false} ModeAfterAppend(on: bool, a: seq<Act>, b: seq<Act>)
    ensures ModeAfter(on, a + b) == ModeAfter(ModeAfter(on, a), b)
    decreases |a|
  {
    if a != [] {
      assert (a + b)[0] == a[0] && (a + b)[1..] == a[1..] + b;
      ModeAfterAppend(Toggle(on, a[0]), a[1..], b);
    } else {
      assert a + b == b;
    }
  }

  // ---------------------------------------------------------------------
  // forward

  const BadArgument: String := "Bad argument"

  /** commandForward: `on` and `off` write the pass-through commands; any
      other argument, or none, writes nothing and reports a bad argument. */
  function Forward(arg: Option<String>): (r: Result<String>)
    ensures r.Ok? <==> arg == Some("on") || arg == Some("off")
    ensures r.Err? ==> r.message == BadArgument
    ensures r.Ok? ==> forall on :: ModeAfter(on, [Line(r.value)]) == (arg == Some("on"))
  {
    if arg == Some("on") then Ok(ScpiLine(ForwardingOn))
    else if arg == Some("off") then Ok(ScpiLine(ForwardingOff))
    else Err(BadArgument)
  }
}
