/** Any sequence of events on the sender and receiver objects leaves them in the state of the run. */
module PdcpReplay {
  import opened Bytes
  import opened PdcpSegment
  import opened PdcpSender
  import opened PdcpReceiver
  import opened Reassembly
  import opened PdcpLedger
  import opened PdcpLink

  /** Both ends with the frames queued, the PDUs written and the frames popped so far. */
  ghost predicate StandsFor(ul: PdcpUl, dl: PdcpDl, queued: seq<Frame>, pdus: seq<seq<byte>>, popped: seq<seq<Cell>>,
                            w: World)
    reads ul, dl
  {
    World(ul.State(), dl.State(), queued, pdus, popped) == w
  }

  ghost predicate SetUp(c: Setup, ul: PdcpUl, dl: PdcpDl)
    reads ul
  {
    ul.Valid() && ul.flags == c.flags == dl.flags && ul.minCommitSize == c.minCommit
  }

  /** Writes into a buffer of `room` octets and sends what was written as a PDU. */
  method Transmit(c: Setup, ul: PdcpUl, room: nat, pdus: seq<seq<byte>>) returns (pdus': seq<seq<byte>>)
    requires ul.Valid() && ul.flags == c.flags && ul.minCommitSize == c.minCommit && room <= MAX_SIZE
    modifies ul
    ensures ul.Valid() && ul.State() == Write(c.flags, c.minCommit, old(ul.State()), room).0
    ensures pdus' == if WriteStatus(c.flags, c.minCommit, old(ul.State()), room) != PdcpSender.Success then pdus
                     else pdus + [PrintAll(c.flags, Write(c.flags, c.minCommit, old(ul.State()), room).1)]
  {
    var buffer := new byte[room];
    var written := ul.WritePdcp(buffer);
    pdus' := if ul.status == PdcpSender.Success then pdus + [buffer[..written]] else pdus;
  }

  method Happen(c: Setup, ul: PdcpUl, dl: PdcpDl, queued: seq<Frame>, pdus: seq<seq<byte>>, popped: seq<seq<Cell>>,
                e: Event, ghost w: World)
      returns (queued': seq<Frame>, pdus': seq<seq<byte>>, popped': seq<seq<Cell>>)
    requires SetUp(c, ul, dl) && StandsFor(ul, dl, queued, pdus, popped, w) && Consistent(c.flags, w) && Usable(e)
    modifies ul, dl
    ensures SetUp(c, ul, dl) && StandsFor(ul, dl, queued', pdus', popped', Step(c, w, e))
  {
    queued', pdus', popped' := queued, pdus, popped;
    match e
    case Queue(frame) =>
      var accepted := ul.OnFrameData(frame);
      queued' := if accepted then queued + [frame] else queued;
    case Transmit(room) =>
      pdus' := Transmit(c, ul, room, pdus);
    case Arrive(i) =>
      if i < |pdus| {
        PduParses(c.flags, pdus[i]);
        var ok := dl.OnPdcpData(pdus[i]);
      }
    case Pop =>
      if |dl.completedFrames| > 0 {
        var frame := dl.Pop();
        popped' := popped + [frame];
      }
  }

  /** Fresh objects after any events: every result about Run is one about them. */
  method Replay(c: Setup, events: seq<Event>)
      returns (ul: PdcpUl, dl: PdcpDl, queued: seq<Frame>, pdus: seq<seq<byte>>, popped: seq<seq<Cell>>)
    requires AllUsable(events)
    ensures fresh(ul) && fresh(dl) && SetUp(c, ul, dl)
    ensures StandsFor(ul, dl, queued, pdus, popped, Run(c, events))
  {
    ul := new PdcpUl(c.flags, c.minCommit);
    dl := new PdcpDl(c.flags, c.reorderSize);
    queued, pdus, popped := [], [], [];
    var i := 0;
    while i < |events|
      invariant i <= |events| && fresh(ul) && fresh(dl) && SetUp(c, ul, dl)
      invariant StandsFor(ul, dl, queued, pdus, popped, Run(c, events[..i]))
    {
      assert events[..i + 1][..i] == events[..i];
      queued, pdus, popped := Happen(c, ul, dl, queued, pdus, popped, events[i], Run(c, events[..i]));
      i := i + 1;
    }
    assert events[..i] == events;
  }
}
