/** Where the two versions of the modem tool agree and where they part: both
    receive parsers read a well-formed `+QIRD` frame the same way; only the
    newer one rejects a frame that announces more than it carries. */
module Variants {
  import opened JsText
  import opened Protocol
  import ScpixTcp
  import ScpiTcp

  /** A well-formed frame holding its own length gives the same payload in
      both versions. */
  lemma ReceiversAgree(payload: String)
    ensures var frame := Head + Dec(|payload|) + CrLf + payload + ScpixTcp.Tail;
      ScpixTcp.Qird(frame) == ScpiTcp.OldQird(frame) == Ok(payload)
  {
    assert ScpixTcp.Tail == "\r\nOK\r\n";
    ScpixTcp.QirdOwnLength(payload);
    ScpiTcp.OldQirdFrame(payload, ScpixTcp.Tail);
  }

  /** A frame announcing one character more than it carries: the newer
      version reports it invalid, the older one hands on the payload and the
      carriage return after it. */
  lemma ReceiversDisagreeOnShortFrame(payload: String)
    ensures var frame := Head + Dec(|payload| + 1) + CrLf + payload + ScpixTcp.Tail;
      ScpixTcp.Qird(frame) == Err(ScpixTcp.FrameInvalid) && ScpiTcp.OldQird(frame) == Ok(payload + "\r")
  {
    ScpixTcp.QirdShortFrame(payload);
    ScpiTcp.OldQirdShortFrame(payload, ScpixTcp.Tail);
    assert [ScpixTcp.Tail[0]] == "\r";
  }
}
