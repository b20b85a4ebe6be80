/** Whole sessions with the device object: the run theorems, carried over to what
    a driver sees when it calls `Read` and `Write`. */
module M3Driver {
  import opened Bytes
  import opened M3Model
  import opened M3Registers
  import opened M3Claims
  import opened M3Conservation
  import opened M3Object

  method Apply(d: M3Device, e: Event) returns (raised: bool)
    modifies d
    ensures Outcome(d.View(), raised) == Step(old(d.View()), e)
  {
    hide Read, Write;
    raised := false;
    match e {
      case Rd(now, addr) => var _ := d.Read(now, addr);
      case Wr(now, addr, value) => raised := d.Write(now, addr, value);
      case Script(knobs) => d.knobs := knobs;
      case Force(reply) => d.forced := Some(reply);
      case Feed(h, rx) =>
        if h in d.sessions {
          d.sessions := d.sessions[h := d.sessions[h].(rx := d.sessions[h].rx + rx)];
        }
    }
  }

  /** Any sequence of reads, writes and scripted changes, up to the first exception.
      The register invariant holds afterwards exactly if there was none. */
  method Drive(d: M3Device, es: seq<Event>) returns (raised: bool)
    modifies d
    ensures Outcome(d.View(), raised) == Run(old(d.View()), es)
    ensures old(RegisterInv(d.View())) ==> (RegisterInv(d.View()) <==> !raised)
  {
    hide Step, RegisterInv;
    if RegisterInv(d.View()) { RunKeeps(d.View(), es); }
    for i := 0 to |es|
      invariant Run(old(d.View()), es) == Run(d.View(), es[i..])
    {
      assert es[i..][0] == es[i] && es[i..][1..] == es[i + 1..];
      raised := Apply(d, es[i]);
      if raised { return; }
    }
    return false;
  }

  // ---------------------------------------------------------------- release --

  /** A reply of one byte, read once it is due. */
  lemma ReplyIsRead(d: Device, n: Byte, line: Bytes, due: int, later: int)
    requires RegisterInv(d) && !d.abortPending && d.pending == Some(Reply([[n]], line)) && d.doneAt == Some(At(due))
    requires later >= due
    ensures Read(d, later, RESPONSE).value == n && Read(d, later, RESPONSE).device.nios == d.nios
  {
    var a := Advance(d, later);
    assert a.response == [n] && a.rp == 0 && a.phase.Last?;
  }

  lemma PushedRelease(d: Device, now: int, n: Byte)
    requires RegisterInv(d) && Quiet(d) && Execute(d.knobs, d.nios, d.cmd, now).Replied?
    requires var x := Execute(d.knobs, d.nios, d.cmd, now); x.reply == Reply([[n]], OK_LINE) && x.delay.After?
    ensures var o := Push(d, now); var x := Execute(d.knobs, d.nios, d.cmd, now);
      && !o.raised && RegisterInv(o.device) && !o.device.abortPending && o.device.nios == x.nios
      && o.device.pending == Some(Reply([[n]], OK_LINE)) && o.device.doneAt == Some(At(now + x.delay.units))
  {
    PushKeeps(d, now);
    hide Execute, Unanswerable, OK_LINE;
  }

  predicate ReleaseComes(d: Device, now: int, later: int) {
    var x := Execute(d.knobs, d.nios, [0x03, 0x25], now);
    x.Replied? && x.delay.After? && later >= now + x.delay.units
  }

  /** From power-on and after any run that leaves the device idle: a driver that
      sends RELEASE and reads $DF1E once the reply is due gets 1, and the session
      of the latest open is closed, if nothing has claimed or released it since;
      otherwise it gets 0 and nothing is closed. */
  method ReleaseAfter(k: Knobs, es: seq<Event>, now: int, later: int) returns (d: M3Device, count: Byte)
    requires var o := Run(Initial(k), es);
      && !o.raised && Quiet(o.device) && o.device.cmd == [] && o.device.knobs.tls
      && ReleaseComes(o.device, now, later)
    ensures var open := Outstanding(History(Initial(k), es));
      && count == (if open.Some? then 1 else 0)
      && d.sessions == Run(Initial(k), es).device.nios.sessions - AsSet(open)
  {
    hide Run, History, Outstanding, Execute, Push, Read, Quiet, RegisterInv, OK_LINE, AsSet, Send;
    d := new M3Device(k);
    var _ := Drive(d, es);
    ghost var v := d.View();
    ReleaseCloses(k, es, now);
    var _ := Drive(d, Send([0x03, 0x25], now));
    ghost var n: Byte := if Outstanding(History(Initial(k), es)).Some? then 1 else 0;
    SendPushes(v, [0x03, 0x25], now);
    ReleaseReply(v, now, later, n);
    count := d.Read(later, RESPONSE);
  }

  lemma ReleaseReply(v: Device, now: int, later: int, n: Byte)
    requires RegisterInv(v) && Quiet(v) && ReleaseComes(v, now, later)
    requires Execute(v.knobs, v.nios, [0x03, 0x25], now).reply == Reply([[n]], OK_LINE)
    ensures var r := Read(Push(v.(cmd := [0x03, 0x25]), now).device, later, RESPONSE);
      r.value == n && r.device.nios == Execute(v.knobs, v.nios, [0x03, 0x25], now).nios
  {
    hide Execute, Push, Read, OK_LINE;
    var c := v.(cmd := [0x03, 0x25]);
    PushedRelease(c, now, n);
    var x := Execute(v.knobs, v.nios, [0x03, 0x25], now);
    ReplyIsRead(Push(c, now).device, n, OK_LINE, now + x.delay.units, later);
  }

  // ----------------------------------------------------------- conservation --

  lemma AdvanceTwice(d: Device, now: int)
    ensures Advance(Advance(d, now), now) == Advance(d, now)
  {
    var s := Stage(d, now);
    assert !(Due(s, now) && s.pending.Some?);
    hide LoadBlock;
  }

  /** A read that also tells whether it took a data byte out of a READ reply. */
  method ReadCounting(d: M3Device, now: int, addr: int) returns (value: Byte, data: bool)
    modifies d`regs
    ensures d.View() == Read(old(d.View()), now, addr).device
    ensures DeliveredBytes(ReadLedger(old(d.View()), now, addr)) == if data then [value] else []
  {
    hide Advance, ReadNow, AdvanceLedger, DeliveredBytes;
    ghost var was := d.View();
    d.Advance(now);
    var rp := d.regs.rp;
    AdvanceTwice(was, now);
    value := d.Read(now, addr);
    data := d.regs.rp == rp + 1 && rp >= 2;
    AdvanceDelivers(was, now);
    OneDelivered(AdvanceLedger(was, now), value, data);
  }

  lemma OneDelivered(l: seq<Entry>, value: Byte, data: bool)
    requires DeliveredBytes(l) == []
    ensures DeliveredBytes(l + (if data then [Entry(value, Delivered)] else [])) == if data then [value] else []
  {
    var one := [Entry(value, Delivered)];
    assert one[1..] == [] && DeliveredBytes(one) == [value] + [];
    DeliveredAppend(l, if data then one else []);
  }

  /** What a driver gets while it reads session `h`, whatever else it does: bytes
      in queue order; and what it got, what was dropped, what is in flight and what
      is queued are together the bytes that were queued. */
  method ReadSession(d: M3Device, es: seq<Event>, h: Byte) returns (got: Bytes)
    requires ReadInv(d.View()) && AllowedRun(d.View(), es, h) && InFlight(d.View()) == []
    modifies d
    ensures d.View() == Run(old(d.View()), es).device && ReadInv(d.View())
    ensures got == DeliveredBytes(Ledger(old(d.View()), es, h))
    ensures var l := Ledger(old(d.View()), es, h);
      var queue := Queued(old(d.NiosView()), h) + Supply(old(d.View()), es, h);
      && LedgerBytes(l) + InFlight(d.View()) + Queued(d.NiosView(), h) == queue
      && Subsequence(got, queue)
      && ((forall i :: 0 <= i < |l| ==> l[i].fate.Delivered?) ==> got <= queue)
  {
    hide Step, ReadInv, InFlight, Queued, Supply, LedgerBytes, DeliveredBytes, Subsequence, LedgerStep, Allowed;
    ghost var was := d.View();
    ByteConservation(was, es, h);
    RunConserves(was, es, h);
    got := [];
    assert [] + DeliveredBytes(Ledger(was, es, h)) == DeliveredBytes(Ledger(was, es, h));
    for i := 0 to |es|
      invariant ReadInv(d.View()) && AllowedRun(d.View(), es[i..], h)
      invariant Run(was, es) == Run(d.View(), es[i..])
      invariant DeliveredBytes(Ledger(was, es, h)) == got + DeliveredBytes(Ledger(d.View(), es[i..], h))
    {
      ghost var v := d.View();
      assert es[i..][0] == es[i] && es[i..][1..] == es[i + 1..];
      StepConserves(v, es[i], h);
      var taken := ApplyCounting(d, es[i], h);
      DeliveredAppend(LedgerStep(v, es[i], h), Ledger(d.View(), es[i + 1..], h));
      got := got + taken;
    }
    NothingDelivered(d.View(), h);
  }

  lemma NothingDelivered(d: Device, h: Byte)
    ensures DeliveredBytes(Ledger(d, [], h)) == []
  {
  }

  method ApplyCounting(d: M3Device, e: Event, h: Byte) returns (taken: Bytes)
    requires !Step(d.View(), e).raised
    modifies d
    ensures d.View() == Step(old(d.View()), e).device
    ensures taken == DeliveredBytes(LedgerStep(old(d.View()), e, h))
  {
    hide Read, Write, ReadLedger, DeliveredBytes;
    if e.Rd? {
      var value, data := ReadCounting(d, e.now, e.addr);
      return if data then [value] else [];
    }
    OnlyReadsDeliver(d.View(), e, h);
    hide LedgerStep;
    var _ := Apply(d, e);
    return [];
  }
}
