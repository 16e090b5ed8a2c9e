/** Any sequence of calls on the sender object leaves it standing for the run of the table. */
module LlcReplay {
  import opened Bytes
  import opened LlcFrame
  import opened LlcArq
  import opened LlcRuns
  import opened LlcUl

  /** One call on the object, with a buffer of its own where the call takes one. */
  method Call(u: LlcUl, call: LlcRuns.Call)
    requires u.Valid() && CallOk(u.config, call)
    modifies u
    ensures u.Valid() && u.arq == Step(u.config, old(u.arq), call)
  {
    hide LlcUl.Valid, Inv, Tick, Ack, Retransmit, Submit;
    match call
    case NextSlot(slot) =>
      var ok := u.UpdateCurrentSlotNumber(slot);
    case Acknowledge(sn) =>
      var ok := u.Acknowledge(sn);
    case WriteRetransmission(room) =>
      var target := new byte[room];
      ghost var w;
      var size;
      size, w := u.WriteRetransmissionPdu(target);
    case WritePdu(pdu) =>
      var target := new byte[|pdu|](i requires 0 <= i < |pdu| => pdu[i]);
      assert target[..] == pdu;
      var size := u.WriteLlcPdu(target);
  }

  /** A fresh object after any calls: every result about RunFromReset is one about the object. */
  method Replay(c: Config, calls: seq<LlcRuns.Call>) returns (u: LlcUl)
    requires ValidConfig(c) && CallsOk(c, calls)
    ensures fresh(u) && u.Valid() && u.config == c && u.arq == RunFromReset(c, calls)
  {
    hide LlcUl.Valid, Step;
    u := new LlcUl(c);
    ResetInv(c);
    var i := 0;
    while i < |calls|
      invariant i <= |calls| && fresh(u) && u.Valid() && u.config == c
      invariant u.arq == Run(c, RESET, calls[..i])
    {
      assert calls[..i + 1][..i] == calls[..i];
      Call(u, calls[i]);
      i := i + 1;
    }
    assert calls[..i] == calls;
  }
}
