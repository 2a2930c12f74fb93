/** The older tool's pass-through environment, its AT script runner, and the
    `sendat` command that reads AT specs from lines of text
    (src/e355scpi.js). */
module ScpiScript {
  import opened JsText
  import opened Protocol

  /** How long the environment waits after each pass-through switch. */
  const ForwardingModeDelay: nat := 2000
  /** Timeout of a bare AT command. */
  const DefaultAtRespDelay: nat := 1000
  const DefaultSendAtExpect: seq<String> := ["OK", "ERROR"]

  /** atScriptRunner: the script inside the environment, bare commands with
      the default AT response delay. */
  method AtScriptRunner(script: seq<Entry>, outcomes: seq<Outcome>) returns (r: Run)
    requires |outcomes| == |script|
    ensures r == Bracket(ForwardingModeDelay, ScriptSteps(script, DefaultAtRespDelay, outcomes))
  {
    var body := RunScript(script, DefaultAtRespDelay, outcomes);
    r := Bracket(ForwardingModeDelay, body);
  }

  /** One line of a `sendat` file, `command[,timeout[,expect]]`: the command and
      the expect trimmed; a timeout, even an empty one, read by unary plus, an
      absent one replaced by the default; an absent expect by OK-or-ERROR. */
  function ParseSendAtLine(line: String): AtSpec {
    FromTokens(Split(line, ','))
  }

  function FromTokens(tokens: seq<String>): AtSpec
    requires |tokens| >= 1
  {
    AtSpec(
      Trim(tokens[0]),
      if |tokens| > 1 then ToNumber(tokens[1]) else Finite(DefaultAtRespDelay),
      if |tokens| > 2 then Pattern(Trim(tokens[2])) else Patterns(DefaultSendAtExpect))
  }

  /** A line written from a spec reads back as that spec. */
  lemma SendAtLineRoundTrip(command: String, timeout: nat, pattern: String)
    requires ',' !in command && ',' !in pattern
    requires Trim(command) == command && Trim(pattern) == pattern
    ensures ParseSendAtLine(command + "," + Dec(timeout) + "," + pattern)
      == AtSpec(command, Finite(timeout), Pattern(pattern))
  {
    var t := Dec(timeout);
    assert ',' !in t by {
      forall i | 0 <= i < |t| ensures t[i] != ',' {
        assert IsDigit(t[i]);
      }
    }
    var line := command + "," + t + "," + pattern;
    assert line == command + [','] + t + [','] + pattern;
    SplitThree(command, t, pattern, ',');
    var tokens := [command, t, pattern];
    assert Split(line, ',') == tokens;
    NumberOfDec(timeout);
    FromThreeTokens(command, t, pattern, timeout);
  }

  lemma FromThreeTokens(command: String, t: String, pattern: String, timeout: int)
    requires Trim(command) == command && Trim(pattern) == pattern
    requires ToNumber(t) == Finite(timeout)
    ensures FromTokens([command, t, pattern]) == AtSpec(command, Finite(timeout), Pattern(pattern))
  {
    var tokens := [command, t, pattern];
    assert tokens[0] == command && tokens[1] == t && tokens[2] == pattern;
    var spec := FromTokens(tokens);
    assert spec.timeout == Finite(timeout);
  }

  /** A line without separators is a bare command with every default. */
  lemma SendAtLineDefaults(line: String)
    requires ',' !in line
    ensures ParseSendAtLine(line) == AtSpec(Trim(line), Finite(DefaultAtRespDelay), Patterns(DefaultSendAtExpect))
  {
    SplitNoSeparator(line, ',');
  }

  /** A present but empty timeout is not the default: unary plus reads it as 0,
      so the command's timer fires after one tick. */
  lemma SendAtEmptyTimeout(command: String)
    requires ',' !in command
    ensures ParseSendAtLine(command + ",").timeout == Finite(0)
    ensures TimerDelay(ParseSendAtLine(command + ",").timeout) == 1
  {
    var line := command + ",";
    assert line == command + [','] + [];
    SplitAfterPrefix(command, ',', []);
    SplitNoSeparator([], ',');
    assert Split(line, ',') == [command, []];
    assert ParseSendAtLine(line) == FromTokens([command, []]);
  }

  /** The per-line parse of `sendat`. */
  function SendAtParser(): String -> AtSpec {
    ParseSendAtLine
  }

  /** The specs of a `sendat` file: one per non-blank line, in order. */
  function ReadSpecs(lines: seq<String>): seq<AtSpec> {
    ReadLines(lines, SendAtParser())
  }

  /** Without blank lines, the i-th spec is the i-th line's; blank input
      gives none. */
  lemma ReadSpecsLines(lines: seq<String>)
    ensures (forall j :: 0 <= j < |lines| ==> Trim(lines[j]) != []) ==>
      |ReadSpecs(lines)| == |lines|
      && forall i :: 0 <= i < |lines| ==> ReadSpecs(lines)[i] == ParseSendAtLine(lines[i])
    ensures (forall j :: 0 <= j < |lines| ==> Trim(lines[j]) == []) ==> ReadSpecs(lines) == []
  {
    if forall j :: 0 <= j < |lines| ==> Trim(lines[j]) != [] {
      ReadLinesNoBlank(lines, SendAtParser());
    }
    if forall j :: 0 <= j < |lines| ==> Trim(lines[j]) == [] {
      ReadLinesAllBlank(lines, SendAtParser());
    }
  }

  /** Each spec right after the previous one ends; errors are ignored. */
  function SendAtSteps(specs: seq<AtSpec>): (t: seq<Act>)
    ensures Commands(t) == specs
    ensures Neutral(t)
    ensures |t| == |specs|
  {
    if specs == [] then []
    else
      var rest := SendAtSteps(specs[1..]);
      var t := [Command(specs[0], false)] + rest;
      assert t[1..] == rest;
      assert forall i :: 1 <= i < |t| ==> t[i] == rest[i - 1];
      t
  }

  function SendAtTrace(lines: seq<String>): seq<Act> {
    Bracket(ForwardingModeDelay, Run(SendAtSteps(ReadSpecs(lines)), Pass)).trace
  }

  /** The readline handler: blank lines skipped, every other line parsed into
      a spec, in order. */
  method ReadSendAtFile(lines: seq<String>) returns (specs: seq<AtSpec>)
    ensures specs == ReadSpecs(lines)
  {
    specs := [];
    var i := 0;
    while i < |lines|
      invariant i <= |lines|
      invariant specs + ReadSpecs(lines[i..]) == ReadSpecs(lines)
    {
      var line := lines[i];
      var rest := ReadSpecs(lines[i + 1..]);
      assert lines[i..][1..] == lines[i + 1..];
      if Trim(line) != [] {
        var spec := ParseSendAtLine(line);
        AppendThree(specs, spec, rest);
        specs := specs + [spec];
      }
      i := i + 1;
    }
    assert lines[i..] == [];
    assert specs + [] == specs;
  }

  /** `execSpec`: takes specs off the front one at a time and runs each,
      whatever its outcome. */
  method ExecSpecs(specs: seq<AtSpec>) returns (body: seq<Act>)
    ensures body == SendAtSteps(specs)
  {
    var pending := specs;
    body := [];
    while pending != []
      invariant body + SendAtSteps(pending) == SendAtSteps(specs)
    {
      body := body + [Command(pending[0], false)];
      pending := pending[1..];
    }
    assert body + [] == body;
  }

  /** commandSendAt: once the input is read, run every spec in the environment. */
  method SendAt(lines: seq<String>) returns (r: Run)
    ensures r == Run(SendAtTrace(lines), Pass)
  {
    var specs := ReadSendAtFile(lines);
    var body := ExecSpecs(specs);
    r := Bracket(ForwardingModeDelay, Run(body, Pass));
  }

  /** The `sendat` command runs exactly the input's non-blank lines as AT
      commands, in order, all while pass-through is on, and leaves it off. */
  lemma SendAtIssues(lines: seq<String>)
    ensures var t := SendAtTrace(lines);
      Commands(t) == ReadSpecs(lines)
      && CommandsForwarded(false, t) && !ModeAfter(false, t)
  {
    var body := Run(SendAtSteps(ReadSpecs(lines)), Pass);
    BracketCommands(ForwardingModeDelay, body);
    BracketForwards(ForwardingModeDelay, body);
  }
}
