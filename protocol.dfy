/** What both versions of the modem tool share, word for word in their source:
    the shape of an AT command spec, the normalisation of its expect list, the
    search for an expected pattern, the bytes the line sender writes, the
    pass-through bracket and the script runner that walks a list of specs.
    Time is abstract: each timer is a `Delay` step in a trace. */
module Protocol {
  import opened JsText

  datatype Option<T> = None | Some(value: T)

  /** A value or the message of the Error passed to a callback. */
  datatype Result<T> = Ok(value: T) | Err(message: String)

  /** A callback's error argument: null, or an Error with its message. */
  datatype Outcome = Pass | Fail(message: String)

  /** The `expect` field as a caller passes it: null/undefined, one string, or an array. */
  datatype Expect = NoExpect | Pattern(text: String) | Patterns(list: seq<String>)

  /** `{command, timeout, expect}` handed to an AT sender. */
  datatype AtSpec = AtSpec(command: String, timeout: Num, expected: Expect)

  /** What an AT sender hands its callback: the error and the raw response. */
  datatype AtReply = AtReply(outcome: Outcome, response: String)

  /** One step a command takes on the serial link.
      Line: bytes the line sender writes; Delay: a setTimeout wait;
      Query: one SCPI request/response exchange (runScpi);
      Command: one AT exchange through the AT sender (raw: no CRLF appended). */
  datatype Act = Line(text: String) | Delay(ms: nat) | Query(command: String) | Command(spec: AtSpec, raw: bool)

  /** A trace of steps with the error the operation ends with. */
  datatype Run = Run(trace: seq<Act>, result: Outcome)

  /** A receive: the exchange it makes and the data it hands on. */
  datatype Received = Received(run: Run, data: Result<String>)

  const CrLf: String := "\r\n"
  const ForwardingOn: String := "SER:CON ON"
  const ForwardingOff: String := "+++"
  const InterCommandDelay: nat := 200
  const AtFailed: String := "AT failed"

  /** Appending one element, regrouped; stated apart so that loops collecting
      specs need not prove it about large terms. */
  lemma AppendThree<T>(a: seq<T>, x: T, b: seq<T>)
    ensures a + [x] + b == a + ([x] + b)
  {
  }

  lemma AppendAssoc<T>(a: seq<T>, b: seq<T>, c: seq<T>)
    ensures a + b + c == a + (b + c)
  {
  }

  /** The largest delay a Node timer honours. */
  const MaxTimeout: nat := 0x7FFF_FFFF

  /** The delay after which `setTimeout(f, t)` runs f: t itself when it is a
      number from 1 to MaxTimeout, otherwise 1 tick (NaN, zero, negative or
      too large). */
  function TimerDelay(t: Num): (d: nat)
    ensures 1 <= d <= MaxTimeout
    ensures t.Finite? && 1 <= t.value <= MaxTimeout ==> d == t.value
    ensures !(t.Finite? && 1 <= t.value <= MaxTimeout) ==> d == 1
  {
    if t.Finite? && 1 <= t.value <= MaxTimeout then t.value else 1
  }

  /** The bytes the line sender writes for `line`: CRLF appended unless raw. */
  function LineBytes(line: String, raw: bool): (b: String)
    ensures |b| >= |line| && b[..|line|] == line
    ensures raw <==> b == line
  {
    if raw then line else line + CrLf
  }

  /** The expect argument as a list of patterns: a falsy value (null,
      undefined or the empty string) is no pattern, a non-empty string is the
      one pattern, an array is taken as it is. */
  function Normalise(e: Expect): (r: seq<String>)
    ensures r == [] <==> e.NoExpect? || e == Pattern([]) || e == Patterns([])
    ensures e.Pattern? && e.text != [] ==> r == [e.text]
    ensures e.Patterns? ==> r == e.list
  {
    match e
    case NoExpect => []
    case Pattern(t) => if t == [] then [] else [t]
    case Patterns(l) => l
  }

  /** Some expected pattern occurs in the response. */
  predicate Found(response: String, patterns: seq<String>) {
    exists i | 0 <= i < |patterns| :: Contains(response, patterns[i])
  }

  /** searchExpect: scans the patterns in order for one the response contains. */
  method SearchExpect(response: String, patterns: seq<String>) returns (found: bool)
    ensures found <==> Found(response, patterns)
  {
    if |patterns| == 0 {
      return false;
    }
    var i := 0;
    while i < |patterns| && IndexOf(response, patterns[i]) < 0
      invariant 0 <= i <= |patterns|
      invariant forall j :: 0 <= j < i ==> !Contains(response, patterns[j])
    {
      i := i + 1;
    }
    found := i < |patterns|;
  }

  /** makeAtEnvironment: switch the bridge to pass-through, wait, run the
      body, switch back, wait, and hand on the body's error. */
  function Bracket(settle: nat, body: Run): (r: Run)
    ensures r.result == body.result
    ensures |r.trace| == |body.trace| + 4
    ensures r.trace[0] == Line(ForwardingOn + CrLf)
    ensures r.trace[|r.trace| - 2] == Line(ForwardingOff + CrLf)
    ensures r.trace[2..|r.trace| - 2] == body.trace
  {
    Run([Line(ForwardingOn + CrLf), Delay(settle)] + body.trace + [Line(ForwardingOff + CrLf), Delay(settle)], body.result)
  }

  /** The bridge's pass-through mode after a step. */
  function Toggle(on: bool, a: Act): bool {
    if a == Line(ForwardingOn + CrLf) then true
    else if a == Line(ForwardingOff + CrLf) then false
    else on
  }

  function ModeAfter(on: bool, trace: seq<Act>): bool
    decreases |trace|
  {
    if trace == [] then on else ModeAfter(Toggle(on, trace[0]), trace[1..])
  }

  /** Every AT command in the trace is written while the bridge is in pass-through. */
  predicate CommandsForwarded(on: bool, trace: seq<Act>)
    decreases |trace|
  {
    trace == [] || ((trace[0].Command? ==> on) && CommandsForwarded(Toggle(on, trace[0]), trace[1..]))
  }

  /** A body that does not itself switch pass-through on or off. */
  predicate Neutral(trace: seq<Act>) {
    forall i :: 0 <= i < |trace| ==> Toggle(true, trace[i]) && !Toggle(false, trace[i])
  }

  lemma {:induction false} NeutralForwarded(body: seq<Act>, rest: seq<Act>)
    requires Neutral(body)
    ensures CommandsForwarded(true, body + rest) == CommandsForwarded(true, rest)
    ensures ModeAfter(true, body + rest) == ModeAfter(true, rest)
  {
    if body == [] {
      assert body + rest == rest;
    } else {
      assert Toggle(true, body[0]);
      assert (body + rest)[0] == body[0];
      assert (body + rest)[1..] == body[1..] + rest;
      assert Neutral(body[1..]) by {
        forall i | 0 <= i < |body[1..]| ensures Toggle(true, body[1..][i]) && !Toggle(false, body[1..][i]) {
          assert body[1..][i] == body[i + 1];
        }
      }
      NeutralForwarded(body[1..], rest);
    }
  }

  /** Whatever the body does, every AT command it issues reaches the modem
      through pass-through, and the bridge is left out of pass-through. */
  lemma BracketForwards(settle: nat, body: Run)
    requires Neutral(body.trace)
    ensures CommandsForwarded(false, Bracket(settle, body).trace)
    ensures !ModeAfter(false, Bracket(settle, body).trace)
  {
    var tail := [Line(ForwardingOff + CrLf), Delay(settle)];
    var t := Bracket(settle, body).trace;
    NeutralForwarded(body.trace, tail);
    assert t[1..] == [Delay(settle)] + body.trace + tail;
    assert t[2..] == body.trace + tail;
    assert tail[1..][1..] == [];
    assert CommandsForwarded(false, tail[1..]) && !ModeAfter(false, tail[1..]);
    assert CommandsForwarded(true, tail) && !ModeAfter(true, tail);
    assert CommandsForwarded(true, t[1..]) && !ModeAfter(true, t[1..]);
  }

  /** An entry of an AT script: a bare command or `[command, timeout, expect]`. */
  datatype Entry = Text(command: String) | Tuple(command: String, timeout: Num, expected: Expect)

  /** The spec atScriptRunner builds from an entry: a bare command gets the
      default AT response delay and no expectation; a tuple keeps its timeout
      and its expect unless that is falsy. */
  function ToSpec(e: Entry, atRespDelay: int): (spec: AtSpec)
    ensures spec.command == e.command
    ensures e.Text? ==> spec.timeout == Finite(atRespDelay) && spec.expected == NoExpect
    ensures e.Tuple? ==> spec.timeout == e.timeout && Normalise(spec.expected) == Normalise(e.expected)
  {
    match e
    case Text(c) => AtSpec(c, Finite(atRespDelay), NoExpect)
    case Tuple(c, t, x) => AtSpec(c, t, if x == NoExpect || x == Pattern([]) then NoExpect else x)
  }

  /** Index of the first failing outcome, or the length when none fails. */
  function FirstFailure(outcomes: seq<Outcome>): (k: nat)
    ensures k <= |outcomes|
    ensures forall i :: 0 <= i < k ==> outcomes[i].Pass?
    ensures k < |outcomes| ==> outcomes[k].Fail?
  {
    if outcomes == [] || outcomes[0].Fail? then 0 else 1 + FirstFailure(outcomes[1..])
  }

  /** What the script runner does when the i-th command ends with outcomes[i]:
      each command is followed by the inter-command delay when it succeeds,
      and the first failure ends the script with that error. */
  function ScriptSteps(script: seq<Entry>, atRespDelay: int, outcomes: seq<Outcome>): Run
    requires |outcomes| == |script|
  {
    if script == [] then Run([], Pass)
    else if outcomes[0].Fail? then Run([Command(ToSpec(script[0], atRespDelay), false)], outcomes[0])
    else
      var rest := ScriptSteps(script[1..], atRespDelay, outcomes[1..]);
      Run([Command(ToSpec(script[0], atRespDelay), false), Delay(InterCommandDelay)] + rest.trace, rest.result)
  }

  /** The AT commands of a trace, in order. */
  function Commands(trace: seq<Act>): seq<AtSpec> {
    if trace == [] then []
    else if trace[0].Command? then [trace[0].spec] + Commands(trace[1..])
    else Commands(trace[1..])
  }

  lemma {:induction false} CommandsAppend(a: seq<Act>, b: seq<Act>)
    ensures Commands(a + b) == Commands(a) + Commands(b)
  {
    if a == [] {
      assert a + b == b;
    } else {
      assert (a + b)[0] == a[0];
      assert (a + b)[1..] == a[1..] + b;
      CommandsAppend(a[1..], b);
    }
  }

  /** The environment adds no AT command of its own. */
  lemma BracketCommands(settle: nat, body: Run)
    ensures Commands(Bracket(settle, body).trace) == Commands(body.trace)
  {
    var head := [Line(ForwardingOn + CrLf), Delay(settle)];
    var tail := [Line(ForwardingOff + CrLf), Delay(settle)];
    CommandsAppend(head, body.trace + tail);
    CommandsAppend(body.trace, tail);
    assert head + body.trace + tail == head + (body.trace + tail);
    assert Commands(head) == [] by {
      assert head[1..][1..] == [];
    }
    assert Commands(tail) == [] by {
      assert tail[1..][1..] == [];
    }
  }

  function Specs(script: seq<Entry>, atRespDelay: int): (r: seq<AtSpec>)
    ensures |r| == |script|
    ensures forall i :: 0 <= i < |script| ==> r[i] == ToSpec(script[i], atRespDelay)
  {
    if script == [] then [] else [ToSpec(script[0], atRespDelay)] + Specs(script[1..], atRespDelay)
  }

  /** The runner issues the script's commands in order up to and including the
      first one that fails, and ends with that failure, or with success when
      none fails. */
  lemma ScriptStopsAtFirstFailure(script: seq<Entry>, atRespDelay: int, outcomes: seq<Outcome>)
    requires |outcomes| == |script|
    ensures var k := FirstFailure(outcomes);
      var n := if k < |script| then k + 1 else |script|;
      Commands(ScriptSteps(script, atRespDelay, outcomes).trace) == Specs(script[..n], atRespDelay)
      && ScriptSteps(script, atRespDelay, outcomes).result == (if k < |script| then outcomes[k] else Pass)
  {
    ScriptCommands(script, atRespDelay, outcomes);
    ScriptResult(script, atRespDelay, outcomes);
  }

  lemma {:induction false} ScriptCommands(script: seq<Entry>, atRespDelay: int, outcomes: seq<Outcome>)
    requires |outcomes| == |script|
    ensures var k := FirstFailure(outcomes);
      var n := if k < |script| then k + 1 else |script|;
      Commands(ScriptSteps(script, atRespDelay, outcomes).trace) == Specs(script[..n], atRespDelay)
  {
    if script != [] {
      var spec := ToSpec(script[0], atRespDelay);
      if outcomes[0].Fail? {
        assert Commands([Command(spec, false)]) == [spec] + Commands([]);
        assert script[..1] == [script[0]];
        assert Specs(script[..1], atRespDelay) == [spec] + Specs([], atRespDelay);
      } else {
        var rest := ScriptSteps(script[1..], atRespDelay, outcomes[1..]);
        ScriptCommands(script[1..], atRespDelay, outcomes[1..]);
        var head := [Command(spec, false), Delay(InterCommandDelay)];
        assert ScriptSteps(script, atRespDelay, outcomes) == Run(head + rest.trace, rest.result);
        assert Commands(head + rest.trace) == [spec] + Commands(rest.trace) by {
          CommandsAppend(head, rest.trace);
          assert head[1..][1..] == [];
        }
        var k := FirstFailure(outcomes);
        var n := if k < |script| then k + 1 else |script|;
        assert k == 1 + FirstFailure(outcomes[1..]);
        SpecsPrefix(script, atRespDelay, n);
      }
    }
  }

  lemma SpecsPrefix(script: seq<Entry>, atRespDelay: int, n: nat)
    requires 1 <= n <= |script|
    ensures Specs(script[..n], atRespDelay) == [ToSpec(script[0], atRespDelay)] + Specs(script[1..][..n - 1], atRespDelay)
  {
    assert script[..n][0] == script[0];
    assert script[..n][1..] == script[1..][..n - 1];
  }

  lemma {:induction false} ScriptResult(script: seq<Entry>, atRespDelay: int, outcomes: seq<Outcome>)
    requires |outcomes| == |script|
    ensures var k := FirstFailure(outcomes);
      ScriptSteps(script, atRespDelay, outcomes).result == (if k < |script| then outcomes[k] else Pass)
  {
    if script != [] && outcomes[0].Pass? {
      ScriptResult(script[1..], atRespDelay, outcomes[1..]);
      assert FirstFailure(outcomes) == 1 + FirstFailure(outcomes[1..]);
    }
  }

  /** atScriptRunner's `exec`: takes entries off the front of the script one at
      a time (`shift`) and runs each through the AT sender, whose outcome for
      the i-th command is outcomes[i]. */
  method RunScript(script: seq<Entry>, atRespDelay: int, outcomes: seq<Outcome>) returns (r: Run)
    requires |outcomes| == |script|
    ensures r == ScriptSteps(script, atRespDelay, outcomes)
  {
    var rest := script;
    var i := 0;
    var trace: seq<Act> := [];
    while rest != []
      invariant 0 <= i <= |script| && rest == script[i..]
      invariant ScriptSteps(script, atRespDelay, outcomes)
        == Run(trace + ScriptSteps(rest, atRespDelay, outcomes[i..]).trace, ScriptSteps(rest, atRespDelay, outcomes[i..]).result)
    {
      var e := rest[0];
      var command := Command(ToSpec(e, atRespDelay), false);
      ScriptStepsCons(rest, atRespDelay, outcomes[i..]);
      assert outcomes[i..][1..] == outcomes[i + 1..] && outcomes[i..][0] == outcomes[i];
      rest := rest[1..];
      if outcomes[i].Fail? {
        return Run(trace + [command], outcomes[i]);
      }
      ghost var after := ScriptSteps(rest, atRespDelay, outcomes[i + 1..]).trace;
      AppendAssoc(trace, [command, Delay(InterCommandDelay)], after);
      trace := trace + [command, Delay(InterCommandDelay)];
      i := i + 1;
    }
    r := Run(trace, Pass);
    assert trace + [] == trace;
  }

  /** One step of the script: the first command, then the rest or its failure. */
  lemma ScriptStepsCons(script: seq<Entry>, atRespDelay: int, outcomes: seq<Outcome>)
    requires |outcomes| == |script| && script != []
    ensures var command := Command(ToSpec(script[0], atRespDelay), false);
      var rest := ScriptSteps(script[1..], atRespDelay, outcomes[1..]);
      ScriptSteps(script, atRespDelay, outcomes)
        == if outcomes[0].Fail? then Run([command], outcomes[0])
           else Run([command, Delay(InterCommandDelay)] + rest.trace, rest.result)
  {
  }

  /** The traces a script body leaves never switch pass-through themselves. */
  lemma {:induction false} ScriptNeutral(script: seq<Entry>, atRespDelay: int, outcomes: seq<Outcome>)
    requires |outcomes| == |script|
    ensures Neutral(ScriptSteps(script, atRespDelay, outcomes).trace)
  {
    if script != [] && outcomes[0].Pass? {
      var rest := ScriptSteps(script[1..], atRespDelay, outcomes[1..]);
      ScriptNeutral(script[1..], atRespDelay, outcomes[1..]);
      var t := [Command(ToSpec(script[0], atRespDelay), false), Delay(InterCommandDelay)] + rest.trace;
      forall i | 0 <= i < |t| ensures Toggle(true, t[i]) && !Toggle(false, t[i]) {
        if i >= 2 { assert t[i] == rest.trace[i - 2]; }
      }
    }
  }

  /** What the runner promises: it issues the script's commands, in order, up to
      and including the first that fails, each one while pass-through is on;
      it leaves pass-through off; and it reports that first failure, or success. */
  lemma ScriptRunnerIssues(settle: nat, script: seq<Entry>, atRespDelay: int, outcomes: seq<Outcome>)
    requires |outcomes| == |script|
    ensures var r := Bracket(settle, ScriptSteps(script, atRespDelay, outcomes));
      var k := FirstFailure(outcomes);
      var n := if k < |script| then k + 1 else |script|;
      Commands(r.trace) == Specs(script[..n], atRespDelay)
      && CommandsForwarded(false, r.trace) && !ModeAfter(false, r.trace)
      && r.result == (if k < |script| then outcomes[k] else Pass)
  {
    var body := ScriptSteps(script, atRespDelay, outcomes);
    ScriptStopsAtFirstFailure(script, atRespDelay, outcomes);
    ScriptNeutral(script, atRespDelay, outcomes);
    BracketCommands(settle, body);
    BracketForwards(settle, body);
  }

  /** What a line-by-line reader of a command file collects: every line whose
      trimmed text is not empty, handed to `parse`, in order. */
  function ReadLines<T>(lines: seq<String>, parse: String -> T): (r: seq<T>)
    ensures |r| <= |lines|
  {
    if lines == [] then []
    else
      var rest := ReadLines(lines[1..], parse);
      if Trim(lines[0]) == [] then rest else [parse(lines[0])] + rest
  }

  /** Only lines that trim to nothing are skipped: the reader keeps one item
      per other line and drops exactly the blank ones. */
  lemma {:induction false} ReadLinesCount<T>(lines: seq<String>, parse: String -> T)
    ensures |ReadLines(lines, parse)| == |lines| - BlankCount(lines)
  {
    if lines != [] {
      ReadLinesCount(lines[1..], parse);
    }
  }

  /** How many lines trim to nothing. */
  function BlankCount(lines: seq<String>): (n: nat)
    ensures n <= |lines|
  {
    if lines == [] then 0 else (if Trim(lines[0]) == [] then 1 else 0) + BlankCount(lines[1..])
  }

  /** A text of blank lines yields nothing. */
  lemma {:induction false} ReadLinesAllBlank<T>(lines: seq<String>, parse: String -> T)
    requires forall j :: 0 <= j < |lines| ==> Trim(lines[j]) == []
    ensures ReadLines(lines, parse) == []
  {
    if lines != [] {
      var tail := lines[1..];
      forall j | 0 <= j < |tail| ensures Trim(tail[j]) == [] {
        assert tail[j] == lines[j + 1];
      }
      ReadLinesAllBlank(tail, parse);
    }
  }

  /** Without blank lines, the k-th item is the k-th line's. */
  lemma {:induction false} ReadLinesAt<T>(lines: seq<String>, parse: String -> T, k: nat)
    requires BlankCount(lines) == 0 && k < |lines|
    ensures |ReadLines(lines, parse)| == |lines| && ReadLines(lines, parse)[k] == parse(lines[k])
  {
    ReadLinesCount(lines, parse);
    if k > 0 {
      ReadLinesAt(lines[1..], parse, k - 1);
    }
  }

  /** Lines none of which trims to nothing contain no blank line. */
  lemma {:induction false} NoBlankCount(lines: seq<String>)
    requires forall j :: 0 <= j < |lines| ==> Trim(lines[j]) != []
    ensures BlankCount(lines) == 0
  {
    if lines != [] {
      var tail := lines[1..];
      forall j | 0 <= j < |tail| ensures Trim(tail[j]) != [] {
        assert tail[j] == lines[j + 1];
      }
      NoBlankCount(tail);
    }
  }

  /** Without blank lines, one item per line, each the line's, in order. */
  lemma ReadLinesNoBlank<T>(lines: seq<String>, parse: String -> T)
    requires forall j :: 0 <= j < |lines| ==> Trim(lines[j]) != []
    ensures |ReadLines(lines, parse)| == |lines|
    ensures forall i :: 0 <= i < |lines| ==> ReadLines(lines, parse)[i] == parse(lines[i])
  {
    NoBlankCount(lines);
    ReadLinesCount(lines, parse);
    forall i | 0 <= i < |lines| ensures ReadLines(lines, parse)[i] == parse(lines[i]) {
      ReadLinesAt(lines, parse, i);
    }
  }

  /** The head of the modem's `+QIRD` receive frame, which both versions read. */
  const Head: String := "+QIRD: "

  /** A '+' occurs in the head only at its start. */
  lemma HeadOnlyAt(pre: String, rest: String)
    requires !Contains(pre, Head)
    ensures IndexOf(pre + Head + rest, Head) == |pre|
  {
    var s := pre + Head + rest;
    assert OccursAt(s, Head, |pre|) by {
      assert s[|pre|..|pre| + |Head|] == Head;
    }
    forall j | 0 <= j < |pre| ensures !OccursAt(s, Head, j) {
      if j + |Head| <= |pre| {
        assert pre[j..j + |Head|] == s[j..j + |Head|];
        assert !OccursAt(pre, Head, j);
      } else {
        var m := |pre| - j;
        assert s[j..j + |Head|][m] == s[|pre|] == '+';
        assert Head[m] != '+';
      }
    }
    assert Contains(s, Head);
  }
}
