/** The two ways the tools assemble response lines from serial chunks.

    The resetting reader (makeScpiResponseHandler in src/e355-scpix.js,
    makeRespHandler in netcli.js) hands on the buffer once it ends with a
    newline and starts again from empty. The keeping reader (makeRespHandler
    in src/e355scpi.js) also requires at least three characters and never
    empties its buffer. Both hand on the text trimmed. */
module LineReader {
  import opened JsText
  import opened Protocol

  predicate EndsWithNewline(s: String) {
    s != [] && s[|s| - 1] == '\n'
  }

  /** After one chunk: the untrimmed text handed on, if any, and the buffer left. */
  datatype Step = Step(raw: Option<String>, buffer: String)

  /** One chunk into the resetting reader. */
  function Reset(buffer: String, chunk: String): Step {
    var b := buffer + chunk;
    if EndsWithNewline(b) then Step(Some(b), []) else Step(None, b)
  }

  /** All the texts the resetting reader hands on for a run of chunks, and its final buffer. */
  datatype Fed = Fed(lines: seq<String>, buffer: String)

  function ResetAll(buffer: String, chunks: seq<String>): Fed
    decreases |chunks|
  {
    if chunks == [] then Fed([], buffer)
    else
      var st := Reset(buffer, chunks[0]);
      var rest := ResetAll(st.buffer, chunks[1..]);
      if st.raw.Some? then Fed([st.raw.value] + rest.lines, rest.buffer) else rest
  }

  /** The resetting reader loses and duplicates nothing: the texts it hands on,
      followed by what it still holds, are exactly the chunks it received; each
      text handed on ends with a newline, and what it holds never does. */
  lemma {:induction false} ResetAllConserves(buffer: String, chunks: seq<String>)
    requires !EndsWithNewline(buffer)
    ensures var f := ResetAll(buffer, chunks);
      Flatten(f.lines) + f.buffer == buffer + Flatten(chunks)
      && (forall i :: 0 <= i < |f.lines| ==> EndsWithNewline(f.lines[i]))
      && !EndsWithNewline(f.buffer)
    decreases |chunks|
  {
    if chunks != [] {
      var st := Reset(buffer, chunks[0]);
      var rest := ResetAll(st.buffer, chunks[1..]);
      var tail := Flatten(chunks[1..]);
      ResetAllConserves(st.buffer, chunks[1..]);
      assert Flatten(chunks) == chunks[0] + tail;
      if st.raw.Some? {
        var ls := [st.raw.value] + rest.lines;
        assert ResetAll(buffer, chunks) == Fed(ls, rest.buffer);
        assert st.raw.value == buffer + chunks[0] && st.buffer == [];
        assert Flatten(rest.lines) + rest.buffer == tail by { assert [] + tail == tail; }
        HandedOnConserves(buffer, chunks[0], rest.lines, rest.buffer, tail);
        assert forall i :: 0 <= i < |ls| ==> EndsWithNewline(ls[i]) by {
          forall i | 0 <= i < |ls| ensures EndsWithNewline(ls[i]) {
            if i > 0 { assert ls[i] == rest.lines[i - 1]; }
          }
        }
      } else {
        assert ResetAll(buffer, chunks) == rest;
        assert st.buffer == buffer + chunks[0];
        assert buffer + chunks[0] + tail == buffer + (chunks[0] + tail);
      }
    }
  }

  /** A text handed on in front of the rest keeps the total. */
  lemma HandedOnConserves(buffer: String, chunk: String, lines: seq<String>, held: String, tail: String)
    requires Flatten(lines) + held == tail
    ensures Flatten([buffer + chunk] + lines) + held == buffer + (chunk + tail)
  {
    var ls := [buffer + chunk] + lines;
    assert ls[1..] == lines;
    assert Flatten(ls) == buffer + chunk + Flatten(lines);
  }

  /** What the keeping reader hands on for the text it holds: the whole of it,
      trimmed, when it ends with a newline and has at least three characters. */
  function Emitted(held: String): Option<String> {
    if EndsWithNewline(held) && |held| >= 3 then Some(Trim(held)) else None
  }

  /** One chunk into the keeping reader: the buffer grows and is never emptied. */
  function Keep(buffer: String, chunk: String): (Option<String>, String) {
    (Emitted(buffer + chunk), buffer + chunk)
  }

  /** What the keeping reader hands on after each chunk. */
  function KeepAll(buffer: String, chunks: seq<String>): (r: seq<Option<String>>)
    ensures |r| == |chunks|
    decreases |chunks|
  {
    if chunks == [] then []
    else
      var st := Keep(buffer, chunks[0]);
      [st.0] + KeepAll(st.1, chunks[1..])
  }

  /** The keeping reader never forgets: after the i-th chunk it hands on the
      trimmed text of everything received so far, or nothing. */
  lemma {:induction false} KeepAllWhole(buffer: String, chunks: seq<String>, i: nat)
    requires i < |chunks|
    ensures KeepAll(buffer, chunks)[i] == Emitted(buffer + Flatten(chunks[..i + 1]))
    decreases i
  {
    if i == 0 {
      FlattenFirst(chunks);
    } else {
      var b := buffer + chunks[0];
      var step := KeepAll(b, chunks[1..])[i - 1];
      var whole := b + Flatten(chunks[1..][..i]);
      assert KeepAll(buffer, chunks)[i] == step by { KeepAllShift(buffer, chunks, i); }
      assert step == Emitted(whole) by { KeepAllWhole(b, chunks[1..], i - 1); }
      assert whole == buffer + Flatten(chunks[..i + 1]) by { FlattenPrefix(buffer, chunks, i); }
    }
  }

  lemma FlattenFirst(chunks: seq<String>)
    requires chunks != []
    ensures Flatten(chunks[..1]) == chunks[0]
  {
    assert chunks[..1] == [chunks[0]];
    assert Flatten([chunks[0]]) == chunks[0] + Flatten([]);
    assert chunks[0] + [] == chunks[0];
  }

  lemma KeepAllShift(buffer: String, chunks: seq<String>, i: nat)
    requires 0 < i < |chunks|
    ensures KeepAll(buffer, chunks)[i] == KeepAll(buffer + chunks[0], chunks[1..])[i - 1]
  {
  }

  lemma FlattenPrefix(buffer: String, chunks: seq<String>, i: nat)
    requires 0 < i < |chunks|
    ensures buffer + chunks[0] + Flatten(chunks[1..][..i]) == buffer + Flatten(chunks[..i + 1])
  {
    var p := chunks[..i + 1];
    assert p[0] == chunks[0] && p[1..] == chunks[1..][..i];
    assert Flatten(p) == chunks[0] + Flatten(chunks[1..][..i]);
  }
}
