/** The newer tool's timing profiles, its AT script runner inside the
    pass-through environment, and the `runat` command that reads AT specs
    from lines of text (src/e355-scpix.js). */
module ScpixScript {
  import opened JsText
  import opened Protocol

  /** The timeouts the commands use, in ticks. */
  datatype Timing = Timing(
    atRespDelay: nat, scpiRespDelay: nat, tcpConnDelay: nat, tcpCloseDelay: nat,
    tcpSendTimeout: nat, tcpRecvTimeout: nat, tcpPingDataWaitTimeout: nat)

  const RealTiming: Timing := Timing(1000, 800, 10000, 10500, 10000, 1000, 15000)
  const SimulatingTiming: Timing :=
    Timing(MaxTimeout, MaxTimeout, MaxTimeout, MaxTimeout, MaxTimeout, MaxTimeout, MaxTimeout)

  predicate InTimerRange(d: nat) { 1 <= d <= MaxTimeout }

  predicate AllInTimerRange(t: Timing) {
    InTimerRange(t.atRespDelay) && InTimerRange(t.scpiRespDelay) && InTimerRange(t.tcpConnDelay)
    && InTimerRange(t.tcpCloseDelay) && InTimerRange(t.tcpSendTimeout) && InTimerRange(t.tcpRecvTimeout)
    && InTimerRange(t.tcpPingDataWaitTimeout)
  }

  /** The profile a run uses: when simulating, every wait is as long as a timer
      can be; otherwise the real device's delays. Either way no delay is one a
      Node timer would cut short. */
  function TimingFor(simulate: bool): (t: Timing)
    ensures AllInTimerRange(t)
    ensures simulate ==> t.atRespDelay == MaxTimeout && t.tcpPingDataWaitTimeout == MaxTimeout
    ensures !simulate ==> t.atRespDelay < t.tcpConnDelay < t.tcpCloseDelay < t.tcpPingDataWaitTimeout
  {
    if simulate then SimulatingTiming else RealTiming
  }

  /** How long the environment waits after each pass-through switch. */
  const ForwardCommandDelay: nat := 500

  /** atScriptRunner: the script inside the environment, with the AT response
      delay of the profile for bare commands. */
  method AtScriptRunner(script: seq<Entry>, timing: Timing, outcomes: seq<Outcome>) returns (r: Run)
    requires |outcomes| == |script|
    ensures r == Bracket(ForwardCommandDelay, ScriptSteps(script, timing.atRespDelay, outcomes))
  {
    var body := RunScript(script, timing.atRespDelay, outcomes);
    r := Bracket(ForwardCommandDelay, body);
  }

  /** `SERial:TIMEout 8000`: lengthens the bridge's own forwarding timeout. */
  const SetForwardingTimeout: String := "SERial:TIMEout 8000"
  /** Delay after every command of a `runat` file. */
  const ExecDelay: nat := 50
  const DefaultRunAtExpect: seq<String> := ["OK\r\n", "ERROR\r\n"]

  /** One line of a `runat` file, `command[;timeout[;expect]]`: the command and
      the expect trimmed, an absent or empty timeout replaced by the AT response
      delay, an absent expect by OK-or-ERROR. */
  function ParseRunAtLine(line: String, atRespDelay: int): AtSpec {
    FromTokens(Split(line, ';'), atRespDelay)
  }

  function FromTokens(tokens: seq<String>, atRespDelay: int): AtSpec
    requires |tokens| >= 1
  {
    AtSpec(
      Trim(tokens[0]),
      if |tokens| > 1 && tokens[1] != [] then ToNumber(tokens[1]) else Finite(atRespDelay),
      if |tokens| > 2 then Pattern(Trim(tokens[2])) else Patterns(DefaultRunAtExpect))
  }

  /** A line written from a spec reads back as that spec. */
  lemma RunAtLineRoundTrip(command: String, timeout: nat, pattern: String, atRespDelay: int)
    requires ';' !in command && ';' !in pattern
    requires Trim(command) == command && Trim(pattern) == pattern
    ensures ParseRunAtLine(command + ";" + Dec(timeout) + ";" + pattern, atRespDelay)
      == AtSpec(command, Finite(timeout), Pattern(pattern))
  {
    var t := Dec(timeout);
    assert ';' !in t by {
      forall i | 0 <= i < |t| ensures t[i] != ';' {
        assert IsDigit(t[i]);
      }
    }
    var line := command + ";" + t + ";" + pattern;
    assert line == command + [';'] + t + [';'] + pattern;
    SplitThree(command, t, pattern, ';');
    var tokens := [command, t, pattern];
    assert Split(line, ';') == tokens;
    NumberOfDec(timeout);
    FromThreeTokens(command, t, pattern, timeout, atRespDelay);
  }

  lemma FromThreeTokens(command: String, t: String, pattern: String, timeout: int, atRespDelay: int)
    requires Trim(command) == command && Trim(pattern) == pattern
    requires t != [] && ToNumber(t) == Finite(timeout)
    ensures FromTokens([command, t, pattern], atRespDelay) == AtSpec(command, Finite(timeout), Pattern(pattern))
  {
    var tokens := [command, t, pattern];
    assert tokens[0] == command && tokens[1] == t && tokens[2] == pattern;
    var spec := FromTokens(tokens, atRespDelay);
    assert spec.timeout == Finite(timeout);
  }

  /** A line without separators is a bare command with every default. */
  lemma RunAtLineDefaults(line: String, atRespDelay: int)
    requires ';' !in line
    ensures ParseRunAtLine(line, atRespDelay)
      == AtSpec(Trim(line), Finite(atRespDelay), Patterns(DefaultRunAtExpect))
  {
    SplitNoSeparator(line, ';');
  }

  /** The line handler that `runat` gives the file reader. */
  function RunAtParser(atRespDelay: int): String -> AtSpec {
    line => ParseRunAtLine(line, atRespDelay)
  }

  /** The specs of a `runat` file: one per non-blank line, in order. */
  function ReadSpecs(lines: seq<String>, atRespDelay: int): seq<AtSpec> {
    ReadLines(lines, RunAtParser(atRespDelay))
  }

  /** Without blank lines, the i-th spec is the i-th line's; blank input
      gives none. */
  lemma ReadSpecsLines(lines: seq<String>, atRespDelay: int)
    ensures (forall j :: 0 <= j < |lines| ==> Trim(lines[j]) != []) ==>
      |ReadSpecs(lines, atRespDelay)| == |lines|
      && forall i :: 0 <= i < |lines| ==> ReadSpecs(lines, atRespDelay)[i] == ParseRunAtLine(lines[i], atRespDelay)
    ensures (forall j :: 0 <= j < |lines| ==> Trim(lines[j]) == []) ==> ReadSpecs(lines, atRespDelay) == []
  {
    if forall j :: 0 <= j < |lines| ==> Trim(lines[j]) != [] {
      ReadLinesNoBlank(lines, RunAtParser(atRespDelay));
    }
    if forall j :: 0 <= j < |lines| ==> Trim(lines[j]) == [] {
      ReadLinesAllBlank(lines, RunAtParser(atRespDelay));
    }
  }

  /** Each spec followed by the pause before the next; errors are ignored. */
  function RunAtSteps(specs: seq<AtSpec>): (t: seq<Act>)
    ensures Commands(t) == specs
    ensures Neutral(t)
    ensures |t| == 2 * |specs|
  {
    if specs == [] then []
    else
      var rest := RunAtSteps(specs[1..]);
      var t := [Command(specs[0], false), Delay(ExecDelay)] + rest;
      assert t[1..][1..] == rest;
      assert forall i :: 2 <= i < |t| ==> t[i] == rest[i - 2];
      t
  }

  function RunAtTrace(lines: seq<String>, atRespDelay: int): seq<Act> {
    [Query(SetForwardingTimeout)] + Bracket(ForwardCommandDelay, Run(RunAtSteps(ReadSpecs(lines, atRespDelay)), Pass)).trace
  }

  /** fileReducer with the `runat` line handler: blank lines skipped, every
      other line parsed into a spec, in order. */
  method ReadAtFile(lines: seq<String>, atRespDelay: int) returns (specs: seq<AtSpec>)
    ensures specs == ReadSpecs(lines, atRespDelay)
  {
    specs := [];
    var i := 0;
    while i < |lines|
      invariant i <= |lines|
      invariant specs + ReadSpecs(lines[i..], atRespDelay) == ReadSpecs(lines, atRespDelay)
    {
      var line := lines[i];
      var rest := ReadSpecs(lines[i + 1..], atRespDelay);
      assert lines[i..][1..] == lines[i + 1..];
      if Trim(line) != [] {
        var spec := ParseRunAtLine(line, atRespDelay);
        AppendThree(specs, spec, rest);
        specs := specs + [spec];
      }
      i := i + 1;
    }
    assert lines[i..] == [];
    assert specs + [] == specs;
  }

  /** `execSpec`: takes specs off the front one at a time, runs each, ignores
      its outcome and pauses before the next. */
  method ExecSpecs(specs: seq<AtSpec>) returns (body: seq<Act>)
    ensures body == RunAtSteps(specs)
  {
    var pending := specs;
    body := [];
    while pending != []
      invariant body + RunAtSteps(pending) == RunAtSteps(specs)
    {
      body := body + [Command(pending[0], false), Delay(ExecDelay)];
      pending := pending[1..];
    }
    assert body + [] == body;
  }

  /** commandRunAt: read the file's specs, set the bridge's forwarding timeout
      (whatever it answers), then run every spec in the environment. */
  method RunAt(lines: seq<String>, timing: Timing) returns (r: Run)
    ensures r == Run(RunAtTrace(lines, timing.atRespDelay), Pass)
  {
    var specs := ReadAtFile(lines, timing.atRespDelay);
    var body := ExecSpecs(specs);
    r := Run([Query(SetForwardingTimeout)] + Bracket(ForwardCommandDelay, Run(body, Pass)).trace, Pass);
  }

  /** The `runat` command runs exactly the file's non-blank lines as AT
      commands, in order, all while pass-through is on, and leaves it off. */
  lemma RunAtIssues(lines: seq<String>, atRespDelay: int)
    ensures var t := RunAtTrace(lines, atRespDelay);
      Commands(t) == ReadSpecs(lines, atRespDelay)
      && CommandsForwarded(false, t) && !ModeAfter(false, t)
  {
    var body := Run(RunAtSteps(ReadSpecs(lines, atRespDelay)), Pass);
    var t := RunAtTrace(lines, atRespDelay);
    BracketCommands(ForwardCommandDelay, body);
    BracketForwards(ForwardCommandDelay, body);
    assert t[1..] == Bracket(ForwardCommandDelay, body).trace;
  }
}
