/** The two ways in which a queued byte is lost, each as a run from power-on. */
module M3Losses {
  import opened Bytes
  import opened M3Model
  import opened M3Registers
  import opened M3Conservation

  /** Open a session and accept the reply without looking at it. */
  function Opening(k: Knobs): seq<Event> {
    Send([0x03, 0x21], 0) + [Wr(k.openDelay, CONTROL, 0x02)]
  }

  predicate Opens(k: Knobs, h: Byte) {
    k.tls && k.openResult == Accept(h) && 0x21 !in k.never
  }

  predicate Holding(d: Device, k: Knobs, h: Byte, rx: seq<RxEvent>) {
    && Quiet(d) && RegisterInv(d) && d.cmd == [] && d.knobs == k && d.nios.forced.None?
    && h in d.nios.sessions && d.nios.sessions[h].rx == rx
  }

  lemma OpeningPush(k: Knobs, h: Byte)
    requires Opens(k, h)
    ensures var o := Push(Initial(k).(cmd := [0x03, 0x21]), 0); var d := o.device;
      && !o.raised && d.knobs == k && d.phase.Busy? && d.cmd == [] && !d.abortPending && d.nios.forced.None?
      && d.pending == Some(Reply([OpenReply(h)], OK_LINE)) && d.doneAt == Some(At(k.openDelay))
      && d.nios.sessions == map[h := Session([], false, k.onWrite)]
  {
    hide OK_LINE;
    var d := Initial(k).(cmd := [0x03, 0x21]);
    assert ClaimAll(map[]) == map[];
    assert Execute(k, d.nios, d.cmd, 0) == Open(k, d.nios, OpDelay(k, 0x21));
  }

  lemma AcceptingReply(d: Device, t: int)
    requires d.phase.Busy? && d.pending.Some? && |d.pending.value.blocks| == 1 && d.doneAt == Some(At(t))
    requires !d.abortPending && d.cmd == [] && RegisterInv(d)
    ensures var o := Step(d, Wr(t, CONTROL, 0x02)); var e := o.device;
      && !o.raised && Quiet(e) && RegisterInv(e) && e.cmd == [] && e.knobs == d.knobs
      && e.nios.sessions == d.nios.sessions && e.nios.forced == d.nios.forced
  {
    var a := Advance(d, t);
    assert Noted(a) == a && a.phase.Last? && !a.abortPending;
    assert Control(a, 0x02) == DataAccept(a);
    assert Step(d, Wr(t, CONTROL, 0x02)) == Outcome(DataAccept(a), false);
  }

  lemma OpeningLeaves(k: Knobs, h: Byte)
    requires Opens(k, h)
    ensures !Run(Initial(k), Opening(k)).raised && Holding(Run(Initial(k), Opening(k)).device, k, h, [])
  {
    hide Run, Step, Push, OK_LINE;
    SendPushes(Initial(k), [0x03, 0x21], 0);
    OpeningPush(k, h);
    PushKeeps(Initial(k).(cmd := [0x03, 0x21]), 0);
    var d := Push(Initial(k).(cmd := [0x03, 0x21]), 0).device;
    AcceptingReply(d, k.openDelay);
    RunAppend(Initial(k), Send([0x03, 0x21], 0), [Wr(k.openDelay, CONTROL, 0x02)]);
    RunOne(d, Wr(k.openDelay, CONTROL, 0x02));
  }

  /** From power-on: open session `h` and queue events for it. */
  function Queues(k: Knobs, h: Byte, rx: seq<RxEvent>): seq<Event> {
    Opening(k) + [Feed(h, rx)]
  }

  lemma QueuesLeaves(k: Knobs, h: Byte, rx: seq<RxEvent>)
    requires Opens(k, h)
    ensures var o := Run(Initial(k), Queues(k, h, rx)); !o.raised && Holding(o.device, k, h, rx)
  {
    hide Run, RegisterInv;
    OpeningLeaves(k, h);
    var d := Run(Initial(k), Opening(k)).device;
    RunAppend(Initial(k), Opening(k), [Feed(h, rx)]);
    RunOne(d, Feed(h, rx));
    NiosKeeps(d, FeedSession(d.nios, h, rx));
    assert [] + rx == rx;
  }

  function OneByteRead(h: Byte): Bytes {
    [0x03, 0x10, h, 1, 0]
  }

  /** Where the byte is after an accepted READ, by the conservation law. */
  lemma ReadSwallows(d: Device, k: Knobs, h: Byte, rx: seq<RxEvent>, t: int)
    requires Holding(d, k, h, rx)
    requires DataOf(rx) == [7] && rx != []
    requires (0x10 in k.never && rx[0].Data? && rx[0].bytes != []) || (rx[0].End? && Untracks(rx[0].status))
    ensures var o := Run(d, Send(OneByteRead(h), t));
      && !o.raised && Queued(d.nios, h) == [7] && Queued(o.device.nios, h) == [] && InFlight(o.device) == []
  {
    hide Run, Push, RegisterInv, Untracks, InFlight;
    var cmd := OneByteRead(h);
    SendPushes(d, cmd, t);
    var c := d.(cmd := cmd);
    CmdKeeps(d, cmd);
    TakesExactly(k, d.nios, cmd, t, h);
    ReadMoves(k, d.nios, cmd, t, h);
    hide Execute;
    assert rx[0].End? ==> DataOf(rx) == [] + DataOf(rx[1..]) == DataOf(rx[1..]);
    PendingIsNone(d);
    AcceptedPushConserves(c, t, h);
    var x := Execute(k, d.nios, cmd, t);
    var data := PendingData(Some(x.reply));
    assert PushLedger(c, t, h) == (if h !in x.nios.sessions then Mark([7], EndDrop) else [])
      + (if x.delay.Never? then Mark(data, NeverDrop) else []);
    assert |LedgerBytes(PushLedger(c, t, h))| >= 1;
  }

  lemma PendingIsNone(d: Device)
    requires RegisterInv(d) && Quiet(d)
    ensures d.pending.None? && d.blocks == []
  {
  }

  /** From power-on, a byte queued for an open session is in no place at all after
      a READ that is scripted never to complete. */
  lemma NeverLoses(k: Knobs, h: Byte, t: int)
    requires Opens(k, h) && 0x10 in k.never
    ensures var d := Run(Initial(k), Queues(k, h, [Data([7])])).device;
      var o := Run(d, Send(OneByteRead(h), t));
      && Run(Initial(k), Queues(k, h, [Data([7])]) + Send(OneByteRead(h), t)) == o && !o.raised
      && Queued(d.nios, h) == [7] && Queued(o.device.nios, h) == [] && InFlight(o.device) == []
  {
    hide Run;
    var rx := [Data([7])];
    assert rx[1..] == [] && DataOf(rx) == [7] + DataOf([]);
    QueuesLeaves(k, h, rx);
    RunAppend(Initial(k), Queues(k, h, rx), Send(OneByteRead(h), t));
    ReadSwallows(Run(Initial(k), Queues(k, h, rx)).device, k, h, rx, t);
  }

  /** And so is a byte queued behind the end of its session, after any READ. */
  lemma EndLoses(k: Knobs, h: Byte, t: int)
    requires Opens(k, h)
    ensures var rx := [End([0x30, 0x31]), Data([7])];
      var d := Run(Initial(k), Queues(k, h, rx)).device;
      var o := Run(d, Send(OneByteRead(h), t));
      && Run(Initial(k), Queues(k, h, rx) + Send(OneByteRead(h), t)) == o && !o.raised
      && Queued(d.nios, h) == [7] && Queued(o.device.nios, h) == [] && InFlight(o.device) == []
  {
    hide Run;
    var rx := [End([0x30, 0x31]), Data([7])];
    assert rx[1..] == [Data([7])] && rx[1..][1..] == [];
    assert DataOf(rx[1..]) == [7] + DataOf([]) && DataOf(rx) == [] + DataOf(rx[1..]);
    QueuesLeaves(k, h, rx);
    RunAppend(Initial(k), Queues(k, h, rx), Send(OneByteRead(h), t));
    ReadSwallows(Run(Initial(k), Queues(k, h, rx)).device, k, h, rx, t);
  }
}
