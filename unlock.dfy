/** The procedure that unlocks the modem's UART (commandUnlockNb85). It is the
    same in src/e355-scpix.js and src/e355scpi.js except for the AT test's
    timeout, which is a parameter here.

    Each attempt first polls the bridge with `*IDN?` until the answer names
    LANDIS. It then reboots the meter, waits a randomised delay, restores the
    loopback, waits for the modem, and tests it with `at`. A failed step
    schedules another attempt, and the fifth failure ends the procedure. */
module Unlock {
  import opened JsText
  import opened Protocol

  const MaxRepeats: nat := 5
  const RetryDelay: nat := 1000
  const ModemWaitSecs: nat := 5
  const LinkRetryDelay: nat := 200

  const ReadDeviceId: String := "*IDN?"
  const RebootDevice: String := "PWRState:MONVolt 1600"
  const DisableLoopback: String := "WAN:LOOPback:STArt"

  /** What runScpi gets back: the first complete response line, or nothing
      before its timer fires. */
  datatype ScpiReply = Answer(text: String) | NoAnswer

  /** runScpi with a handler that wants `needle` in the response. */
  function Expecting(command: String, reply: ScpiReply, needle: String, failure: String): (r: Outcome)
    ensures r == Pass <==> reply.Answer? && Contains(reply.text, needle)
    ensures reply.NoAnswer? ==> r == Fail(command + " timeout")
    ensures reply.Answer? && r.Fail? ==> r.message == failure
  {
    match reply
    case NoAnswer => Fail(command + " timeout")
    case Answer(t) => if IndexOf(t, needle) < 0 then Fail(failure) else Pass
  }

  /** The replies and the AT outcome of one attempt after its link test. */
  datatype Attempt = Attempt(reboot: ScpiReply, loopback: ScpiReply, atTest: Outcome)

  /** sendReboot: the meter must answer OK. */
  function RebootStep(reply: ScpiReply): Outcome {
    Expecting(RebootDevice, reply, "OK", "rebooting device failed")
  }

  /** disableLoopback: the bridge must answer OK. */
  function LoopbackStep(reply: ScpiReply): Outcome {
    Expecting(DisableLoopback, reply, "OK", "disable loopback failed")
  }

  /** One attempt: reboot, restore the loopback, test the modem; the first
      step that fails ends it. */
  function AttemptOutcome(a: Attempt): (r: Outcome)
    ensures r == Pass <==>
      a.reboot.Answer? && Contains(a.reboot.text, "OK")
      && a.loopback.Answer? && Contains(a.loopback.text, "OK")
      && a.atTest == Pass
    ensures RebootStep(a.reboot).Fail? ==> r == RebootStep(a.reboot)
    ensures RebootStep(a.reboot) == Pass && LoopbackStep(a.loopback).Fail? ==>
      r == LoopbackStep(a.loopback)
    ensures RebootStep(a.reboot) == Pass && LoopbackStep(a.loopback) == Pass ==> r == a.atTest
  {
    var reboot := RebootStep(a.reboot);
    if reboot.Fail? then reboot
    else
      var loopback := LoopbackStep(a.loopback);
      if loopback.Fail? then loopback
      else a.atTest
  }

  /** The AT test's command: `at`, expecting OK within the AT delay. */
  function AtTestSpec(atRespDelay: int): AtSpec {
    AtSpec("at", Finite(atRespDelay), Pattern("OK"))
  }

  /** atTest: the `at` command inside the pass-through environment, whose
      outcome is the attempt's last step (Attempt.atTest). */
  function AtTest(settle: nat, atRespDelay: int, outcome: Outcome): (r: Run)
    ensures Commands(r.trace) == [AtTestSpec(atRespDelay)]
    ensures CommandsForwarded(false, r.trace) && !ModeAfter(false, r.trace)
    ensures r.result == outcome
  {
    var body := Run([Command(AtTestSpec(atRespDelay), false)], outcome);
    assert Commands(body.trace) == [AtTestSpec(atRespDelay)] by {
      assert body.trace[1..] == [];
    }
    BracketCommands(settle, body);
    BracketForwards(settle, body);
    Bracket(settle, body)
  }

  /** scheduleRetry: after a failure, either give up (this was attempt
      number maxRepeats) or go on with the next attempt; a maxRepeats of 0
      never gives up. */
  function ScheduleRetry(maxRepeats: nat, repeatCount: nat): (r: Result<nat>)
    ensures r.Err? <==> maxRepeats > 0 && repeatCount + 1 == maxRepeats
    ensures r.Ok? ==> r.value == repeatCount + 1
    ensures r.Err? ==> r.message == "reached max repeat count(" + Dec(maxRepeats) + ")"
  {
    if maxRepeats > 0 && repeatCount + 1 == maxRepeats then
      Err("reached max repeat count(" + Dec(repeatCount + 1) + ")")
    else Ok(repeatCount + 1)
  }

  /** `retry`: attempt number i ends with attempt(i). The procedure makes at
      most five attempts, stops at the first that succeeds, and otherwise ends
      with the max-repeat error. */
  method Unlock(attempt: nat -> Outcome) returns (result: Outcome, made: nat)
    ensures 1 <= made <= MaxRepeats
    ensures forall i :: 0 <= i < made - 1 ==> attempt(i).Fail?
    ensures result == Pass <==> attempt(made - 1).Pass?
    ensures result.Fail? ==> made == MaxRepeats && result == Fail("reached max repeat count(5)")
  {
    var repeatCount := 0;
    while true
      invariant repeatCount < MaxRepeats
      invariant forall i :: 0 <= i < repeatCount ==> attempt(i).Fail?
      decreases MaxRepeats - repeatCount
    {
      if attempt(repeatCount).Pass? {
        return Pass, repeatCount + 1;
      }
      var next := ScheduleRetry(MaxRepeats, repeatCount);
      if next.Err? {
        assert Dec(5) == "5";
        return Fail(next.message), repeatCount + 1;
      }
      repeatCount := next.value;
    }
  }

  predicate LinkUp(reply: ScpiReply) {
    reply.Answer? && Contains(reply.text, "LANDIS")
  }

  /** linkTest over the replies to its first polls: it polls until the bridge
      names LANDIS, warning about the cable after every fifth failed poll.
      `up` is the index of the reply that ends it, if one among those given
      does. */
  method LinkTest(replies: seq<ScpiReply>) returns (up: Option<nat>, warnings: nat)
    ensures up.Some? ==> up.value < |replies| && LinkUp(replies[up.value])
    ensures up.Some? ==> forall j :: 0 <= j < up.value ==> !LinkUp(replies[j])
    ensures up.None? <==> forall j :: 0 <= j < |replies| ==> !LinkUp(replies[j])
    ensures warnings == (if up.Some? then up.value else |replies|) / 5
  {
    var count := 0;
    warnings := 0;
    while count < |replies|
      invariant count <= |replies|
      invariant forall j :: 0 <= j < count ==> !LinkUp(replies[j])
      invariant warnings == count / 5
    {
      if LinkUp(replies[count]) {
        return Some(count), warnings;
      }
      if (count + 1) % 5 == 0 {
        warnings := warnings + 1;
      }
      count := count + 1;
    }
    up := None;
  }
}
