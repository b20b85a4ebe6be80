/** What every reachable register state satisfies, and why a guard that a driver
    has read stays true until it acts on it. */
module M3Registers {
  import opened Bytes
  import opened M3Model

  /** BUSY, the command bit, a pending reply and a deadline go together; blocks
      remain exactly in Data More; and nothing is staged outside a reply. */
  predicate RegisterInv(d: Device) {
    && (d.phase.Busy? <==> d.newCommand)
    && (d.phase.Busy? <==> d.pending.Some?)
    && (d.phase.Busy? <==> d.doneAt.Some?)
    && (d.phase.More? <==> d.blocks != [])
    && d.rp <= |d.response| && d.sp <= |d.status|
    && (!d.phase.Replying() ==> d.response == [] && d.status == [])
    && (d.abortDue.Some? ==> d.abortPending)
  }

  lemma AdvanceKeeps(d: Device, now: int)
    requires RegisterInv(d)
    ensures RegisterInv(Advance(d, now))
  {
    assert RegisterInv(Stage(d, now));
  }

  lemma ReadNowKeeps(d: Device, addr: int)
    requires RegisterInv(d)
    ensures RegisterInv(ReadNow(d, addr).device)
  {
    hide StatusBits;
  }

  lemma ControlKeeps(d: Device, value: Byte)
    requires RegisterInv(d)
    ensures RegisterInv(Control(d, value))
  {
    hide PushBit, AcceptBit, AbortBit, ClearBit;
    assert RegisterInv(Cleared(d, value));
    AcceptKeeps(Cleared(d, value));
    hide DataAccept, Cleared;
  }

  lemma AcceptKeeps(d: Device)
    requires RegisterInv(d)
    ensures RegisterInv(DataAccept(d))
  {
  }

  lemma PushKeeps(d: Device, now: int)
    requires RegisterInv(d)
    ensures RegisterInv(Push(d, now).device) <==> !Push(d, now).raised
    ensures Push(d, now).raised <==> AcceptsPush(d) && Unanswerable(d.knobs, d.nios, d.cmd)
  {
    RaisesExactly(d.knobs, d.nios, d.cmd, now);
    hide Execute, Unanswerable;
  }

  /** Commands that the device's own parser indexes past the end of. */
  predicate Truncated(cmd: Bytes) {
    && IsNetCommand(cmd)
    && (|| (cmd[1] in {0x09, 0x05, 0x11} && |cmd| < 3)
        || (cmd[1] == 0x10 && |cmd| < 5))
  }

  /** The commands that leave `_execute` by an exception. */
  predicate Unanswerable(k: Knobs, n: Nios, cmd: Bytes) {
    || Truncated(cmd)
    || (cmd == [0x03, 0x25] && k.tls && |Unclaimed(n.sessions)| > 255)
    || (IsNetCommand(cmd) && cmd[1] == 0x11 && |cmd| >= 0x10003
        && cmd[2] in n.sessions && k.writeResult.None?)
  }

  lemma RaisesExactly(k: Knobs, n: Nios, cmd: Bytes, now: int)
    ensures Execute(k, n, cmd, now).Raised? <==> Unanswerable(k, n, cmd)
  {
  }

  lemma AdvanceKnobs(d: Device, now: int)
    ensures Advance(d, now).knobs == d.knobs
  {
  }

  lemma ControlKnobs(d: Device, value: Byte)
    ensures Control(d, value).knobs == d.knobs
  {
    hide PushBit, AcceptBit, AbortBit, ClearBit;
    assert Cleared(d, value).knobs == d.knobs;
    AcceptKnobs(Cleared(d, value));
    hide Cleared, DataAccept;
  }

  lemma AcceptKnobs(d: Device)
    ensures DataAccept(d).knobs == d.knobs
  {
  }

  /** A step keeps the register invariant if and only if no exception escapes
      from the command it executes. */
  lemma StepKeeps(d: Device, e: Event)
    requires RegisterInv(d)
    ensures RegisterInv(Step(d, e).device) <==> !Step(d, e).raised
    ensures Step(d, e).raised <==>
      Executes(d, e).Some? && Unanswerable(d.knobs, BeforePush(d, e.now, e.value).nios, Executes(d, e).value)
  {
    hide Advance, Control, Push, PushBit, Unanswerable, StatusBits, FeedSession, ReadNow;
    match e {
      case Rd(now, addr) =>
        AdvanceKeeps(d, now);
        ReadNowKeeps(Advance(d, now), addr);
      case Wr(now, addr, value) =>
        AdvanceKeeps(d, now);
        ControlKeeps(Noted(Advance(d, now)), value);
        ControlKnobs(Noted(Advance(d, now)), value);
        AdvanceKnobs(d, now);
        PushKeeps(BeforePush(d, now, value), now);
      case _ =>
    }
  }

  /** In every run the invariant holds at the end unless the run raised. */
  lemma {:induction false} RunKeeps(d: Device, es: seq<Event>)
    requires RegisterInv(d)
    ensures RegisterInv(Run(d, es).device) <==> !Run(d, es).raised
    decreases |es|
  {
    if es != [] {
      StepKeeps(d, es[0]);
      if !Step(d, es[0]).raised {
        RunKeeps(Step(d, es[0]).device, es[1..]);
      }
    }
  }

  // -------------------------------------------------------- guard stability --

  /** The status byte as a driver decodes it. */
  predicate ReadsIdle(v: Byte) {
    v / 16 % 4 == 0 && v % 2 == 0 && v / 4 % 2 == 0
  }

  predicate ReadsDrainedReply(v: Byte) {
    v / 32 % 2 == 1 && v / 128 == 0
  }

  predicate Quiet(d: Device) {
    && d.phase.Idle? && !d.newCommand && !d.abortPending && d.doneAt.None?
  }

  lemma IdleBits(d: Device)
    requires RegisterInv(d) && ReadsIdle(StatusBits(d))
    ensures Quiet(d)
  {
  }

  /** What a driver may do between its check and its push. */
  predicate Harmless(e: Event) {
    e.Rd? || (e.Wr? && e.addr == COMMAND)
  }

  function CommandBytes(es: seq<Event>): Bytes {
    if es == [] then []
    else (if es[0].Wr? && es[0].addr == COMMAND then [es[0].value] else []) + CommandBytes(es[1..])
  }

  lemma QuietStep(d: Device, e: Event)
    requires Quiet(d) && Harmless(e)
    ensures Step(d, e) == Outcome(d.(cmd := d.cmd + CommandBytes([e])), false)
  {
    assert d.cmd + [] == d.cmd;
  }

  lemma CommandBytesSplit(es: seq<Event>)
    requires es != []
    ensures CommandBytes(es) == CommandBytes([es[0]]) + CommandBytes(es[1..])
  {
  }

  lemma Associates(a: Bytes, b: Bytes, c: Bytes)
    ensures a + b + c == a + (b + c)
  {
  }

  lemma {:induction false} QuietRun(d: Device, es: seq<Event>)
    requires Quiet(d) && forall i :: 0 <= i < |es| ==> Harmless(es[i])
    ensures Run(d, es) == Outcome(d.(cmd := d.cmd + CommandBytes(es)), false)
    decreases |es|
  {
    hide Step, StatusBits;
    if es == [] {
      assert d.cmd + [] == d.cmd;
    } else {
      QuietStep(d, es[0]);
      var first, rest := CommandBytes([es[0]]), CommandBytes(es[1..]);
      QuietRun(d.(cmd := d.cmd + first), es[1..]);
      CommandBytesSplit(es);
      Associates(d.cmd, first, rest);
    }
  }

  lemma QuietPush(d: Device, t: int)
    requires Quiet(d)
    ensures var after := Write(d, t, CONTROL, 0x01).device;
      after.phase.Busy? && after.rejected == d.rejected && after.log == d.log + [(t, d.cmd)]
  {
    assert BeforePush(d, t, 0x01) == d;
    hide Execute, BeforePush;
  }

  lemma {:induction false} RunAppend(d: Device, a: seq<Event>, b: seq<Event>)
    ensures Run(d, a + b) == if Run(d, a).raised then Run(d, a) else Run(Run(d, a).device, b)
    decreases |a|
  {
    hide Step;
    if a == [] {
      assert a + b == b;
    } else {
      assert (a + b)[0] == a[0] && (a + b)[1..] == a[1..] + b;
      if !Step(d, a[0]).raised { RunAppend(Step(d, a[0]).device, a[1..], b); }
    }
  }

  lemma RunOne(d: Device, e: Event)
    ensures Run(d, [e]) == Step(d, e)
  {
    hide Step;
    assert [e][1..] == [];
  }

  /** Queue a command and push it at time `t`. */
  function Send(cmd: Bytes, t: int): seq<Event> {
    Queueing(cmd, t) + [Wr(t, CONTROL, 0x01)]
  }

  function Queueing(cmd: Bytes, t: int): (es: seq<Event>)
    ensures forall i :: 0 <= i < |es| ==> Harmless(es[i])
  {
    seq(|cmd|, i requires 0 <= i < |cmd| => Wr(t, COMMAND, cmd[i]))
  }

  lemma {:induction false} QueueingBytes(cmd: Bytes, t: int)
    ensures CommandBytes(Queueing(cmd, t)) == cmd
  {
    if cmd != [] {
      QueueingBytes(cmd[1..], t);
      assert Queueing(cmd, t)[1..] == Queueing(cmd[1..], t);
    }
  }

  lemma SendPushes(d: Device, cmd: Bytes, t: int)
    requires Quiet(d) && d.cmd == []
    ensures Run(d, Send(cmd, t)) == Push(d.(cmd := cmd), t)
  {
    hide Run, Step, Push;
    QuietRun(d, Queueing(cmd, t));
    QueueingBytes(cmd, t);
    assert [] + cmd == cmd;
    RunAppend(d, Queueing(cmd, t), [Wr(t, CONTROL, 0x01)]);
    RunOne(d.(cmd := cmd), Wr(t, CONTROL, 0x01));
    QuietWrite(d.(cmd := cmd), t);
  }

  lemma QuietWrite(d: Device, t: int)
    requires Quiet(d)
    ensures Step(d, Wr(t, CONTROL, 0x01)) == Push(d, t)
  {
    hide Push;
    assert BeforePush(d, t, 0x01) == d;
  }

  /** A truncated READ really does leave BUSY with no reply and no deadline. */
  lemma TruncatedReadBreaks(k: Knobs)
    ensures var o := Run(Initial(k), Send([0x03, 0x10], 0));
      o.raised && o.device.phase.Busy? && o.device.pending.None? && !RegisterInv(o.device)
  {
    hide Run;
    SendPushes(Initial(k), [0x03, 0x10], 0);
    RaisesExactly(k, Initial(k).nios, [0x03, 0x10], 0);
    hide Execute;
  }

  lemma AdvanceRejects(d: Device, now: int)
    ensures Advance(d, now).rejected == d.rejected && Advance(d, now).nios == d.nios
  {
  }

  /** A driver that read idle, with neither BUSY nor ABORT set, has its plain PUSH
      accepted however long it waits and whatever it reads or queues meanwhile,
      and the command that runs is exactly the bytes it queued. */
  lemma PushIsAccepted(d: Device, t0: int, es: seq<Event>, t: int)
    requires RegisterInv(d) && d.knobs.present && ReadsIdle(Read(d, t0, CONTROL).value)
    requires forall i :: 0 <= i < |es| ==> Harmless(es[i])
    ensures var seen := Read(d, t0, CONTROL).device;
      var before := Run(seen, es);
      var after := Write(before.device, t, CONTROL, 0x01).device;
      && !before.raised
      && after.phase.Busy? && after.rejected == d.rejected
      && after.log == seen.log + [(t, seen.cmd + CommandBytes(es))]
  {
    hide Advance, Run, Write, StatusBits, RegisterInv, ReadsIdle;
    AdvanceKeeps(d, t0);
    AdvanceKnobs(d, t0);
    AdvanceRejects(d, t0);
    var seen := Advance(d, t0);
    IdleBits(seen);
    QuietRun(seen, es);
    QuietPush(Run(seen, es).device, t);
  }

  predicate Drained(d: Device) {
    d.rp >= |d.response| && d.doneAt.None?
  }

  lemma DrainedBits(d: Device)
    requires RegisterInv(d) && ReadsDrainedReply(StatusBits(d))
    ensures Drained(d) && d.phase.Replying()
  {
  }

  lemma DrainedRead(d: Device, now: int, addr: int)
    requires Drained(d)
    ensures Drained(Read(d, now, addr).device)
    ensures Read(d, now, addr).device.nios == d.nios
  {
  }

  lemma {:induction false} DrainedRun(d: Device, es: seq<Event>)
    requires Drained(d) && forall i :: 0 <= i < |es| ==> es[i].Rd?
    ensures Drained(Run(d, es).device) && Run(d, es).device.nios == d.nios
    decreases |es|
  {
    if es != [] {
      DrainedRead(d, es[0].now, es[0].addr);
      DrainedRun(Step(d, es[0]).device, es[1..]);
    }
  }

  lemma DrainedAccept(d: Device, t: int)
    requires Drained(d)
    ensures Write(d, t, CONTROL, 0x02).device.nios.violations ==
      d.nios.violations + (if Advance(d, t).abortPending then [WroteDuringAbort] else [])
  {
    DrainedRead(d, t, 0);
    var noted := Noted(Advance(d, t));
    assert Control(noted, 0x02) == DataAccept(noted);
    assert DataAccept(noted).nios == noted.nios;
    assert d.nios.violations + [] == d.nios.violations;
  }

  /** A driver that read a reply state with DATA_AV clear never records the
      unread-bytes violation by its data-accept, even when an ABORT it asked for
      is served in between. */
  lemma AcceptIsClean(d: Device, t0: int, es: seq<Event>, t: int)
    requires RegisterInv(d) && d.knobs.present && ReadsDrainedReply(Read(d, t0, CONTROL).value)
    requires forall i :: 0 <= i < |es| ==> es[i].Rd?
    ensures var seen := Read(d, t0, CONTROL).device;
      var before := Run(seen, es).device;
      var after := Write(before, t, CONTROL, 0x02).device;
      && before.nios == d.nios
      && d.nios.violations <= after.nios.violations
      && forall v :: v in after.nios.violations[|d.nios.violations|..] ==> !v.UnreadBytes?
  {
    hide Advance, Run, Write, StatusBits, RegisterInv, Drained, ReadsDrainedReply;
    AdvanceKeeps(d, t0);
    AdvanceKnobs(d, t0);
    AdvanceRejects(d, t0);
    var seen := Advance(d, t0);
    DrainedBits(seen);
    DrainedRun(seen, es);
    DrainedAccept(Run(seen, es).device, t);
  }

  // ------------------------------------------------------- what registers say --

  /** The status byte, bit by bit. */
  lemma StatusBitsAre(d: Device)
    ensures var v := StatusBits(d);
      && (v / 128 == 1 <==> (d.phase.Last? || d.phase.More?) && d.rp < |d.response|)
      && (v / 64 % 2 == 1 <==> (d.phase.Last? || d.phase.More?) && d.sp < |d.status|)
      && v / 16 % 4 == (if d.phase.Idle? then 0 else if d.phase.Busy? then 1 else if d.phase.Last? then 2 else 3)
      && (v / 8 % 2 == 1 <==> d.errorBusy) && (v / 4 % 2 == 1 <==> d.abortPending)
      && v / 2 % 2 == 0 && (v % 2 == 1 <==> d.newCommand)
  {
    var data := if d.phase.Replying() && d.rp < |d.response| then 1 else 0;
    var line := if d.phase.Replying() && d.sp < |d.status| then 1 else 0;
    BitsApart(data, line, d.phase.Code(), if d.errorBusy then 1 else 0, if d.abortPending then 1 else 0,
              if d.newCommand then 1 else 0);
  }

  lemma BitsApart(data: nat, line: nat, state: nat, error: nat, abort: nat, command: nat)
    requires data < 2 && line < 2 && state < 4 && error < 2 && abort < 2 && command < 2
    ensures var v := 16 * state + 128 * data + 64 * line + 8 * error + 4 * abort + command;
      && v / 128 == data && v / 64 % 2 == line && v / 16 % 4 == state
      && v / 8 % 2 == error && v / 4 % 2 == abort && v / 2 % 2 == 0 && v % 2 == command
  {
    var low := 8 * error + 4 * abort + command;
    var v := 16 * state + 128 * data + 64 * line + low;
    QuotientIs(v, 128, data, 64 * line + 16 * state + low);
    QuotientIs(v, 64, 2 * data + line, 16 * state + low);
    QuotientIs(v, 16, 8 * data + 4 * line + state, low);
    QuotientIs(v, 8, 2 * (8 * data + 4 * line + state) + error, 4 * abort + command);
    QuotientIs(v, 4, 4 * (8 * data + 4 * line + state) + 2 * error + abort, command);
    QuotientIs(v, 2, 8 * (8 * data + 4 * line + state) + 4 * error + 2 * abort, command);
  }

  /** A PUSH on a device that is busy or replying executes nothing: it drops the
      queued command and shows in the ERROR bit, until CLR is written. */
  lemma PushIsRefused(d: Device, t: int)
    requires RegisterInv(d) && !d.abortPending && !Due(d, t) && !d.phase.Idle?
    ensures var o := Write(d, t, CONTROL, 0x01);
      && o == Outcome(d.(errorBusy := true, rejected := d.rejected + 1, cmd := []), false)
      && StatusBits(o.device) / 8 % 2 == 1
      && !Write(o.device, t, CONTROL, 0x08).device.errorBusy
  {
    assert BeforePush(d, t, 0x01) == d;
    var e := Write(d, t, CONTROL, 0x01).device;
    StatusBitsAre(e);
    hide StatusBits, Execute;
    assert BeforePush(e, t, 0x08) == e.(errorBusy := false);
  }

  /** An accept records exactly how many bytes were left unread, and moves on to
      the next block, or to idle after the last. */
  lemma AcceptMoves(d: Device)
    requires RegisterInv(d) && d.phase.Replying()
    ensures var a := DataAccept(d);
      && a.nios.violations == d.nios.violations
           + (if d.rp < |d.response| then [UnreadBytes(|d.response| - d.rp)] else [])
      && a.accepts == d.accepts + 1
      && (d.blocks == [] ==> a.phase.Idle? && a.response == [] && a.status == [] && a.acceptsOnMore == d.acceptsOnMore)
      && (d.blocks != [] ==>
        && a.phase.Replying() && a.response == d.blocks[0] && a.rp == 0 && a.blocks == d.blocks[1..]
        && a.status == d.status && a.sp == d.sp && a.acceptsOnMore == d.acceptsOnMore + 1)
  {
    assert d.nios.violations + [] == d.nios.violations;
  }

  /** What a control write outside a reply does besides pushing. */
  lemma ControlRecords(d: Device, value: Byte)
    requires !d.phase.Replying()
    ensures var c := Control(d, value);
      && c.nios.violations == d.nios.violations + (if value / 4 % 2 == 1 && value % 2 == 1 then [AbortWithPush] else [])
      && (c.errorBusy <==> d.errorBusy && value / 8 % 2 == 0)
      && (c.abortPending <==> d.abortPending || value / 4 % 2 == 1)
      && c.aborts == d.aborts + value / 4 % 2 && c.accepts == d.accepts && c.phase == d.phase
  {
    assert d.nios.violations + [] == d.nios.violations;
    assert value / 4 % 2 == 0 || value / 4 % 2 == 1;
  }

  /** Any write to the two registers while an ABORT is pending is held against the
      driver, and a command byte is queued all the same. */
  lemma CommandRecords(d: Device, t: int, value: Byte)
    requires Advance(d, t) == d
    ensures var c := Write(d, t, COMMAND, value).device;
      && c.cmd == d.cmd + [value] && c.phase == d.phase
      && c.nios.violations == d.nios.violations + (if d.abortPending then [WroteDuringAbort] else [])
  {
    hide Advance;
    assert d.nios.violations + [] == d.nios.violations;
  }

  /** What the other reads give: the identification, all ones without a device, and
      zero where there is nothing. */
  lemma OtherReads(d: Device, addr: int)
    ensures addr == 0xDF1D ==> ReadNow(d, addr) == Answer(d, if d.knobs.present then 0xC9 else 0xFF)
    ensures addr == 0xDF1C && !d.knobs.present ==> ReadNow(d, addr) == Answer(d, 0xFF)
    ensures addr == 0xDF1E && (!d.phase.Replying() || d.rp >= |d.response|) ==> ReadNow(d, addr) == Answer(d, 0)
    ensures addr == 0xDF1F && (!d.phase.Replying() || d.sp >= |d.status|) ==> ReadNow(d, addr) == Answer(d, 0)
    ensures addr !in {0xDF1C, 0xDF1D, 0xDF1E, 0xDF1F} ==> ReadNow(d, addr) == Answer(d, 0)
  {
    hide StatusBits;
  }

  // ------------------------------------------------------------------- aborts --

  /** An ABORT waits for the command in progress. */
  lemma AbortWaits(d: Device, t: int)
    requires RegisterInv(d) && d.phase.Busy? && !Due(d, t)
    ensures Advance(d, t) == d
  {
  }

  /** Asked for on a device that is not busy, it is served one unit after it is
      first seen: the reply, its unread data and the queued command are gone. */
  lemma AbortIsServed(d: Device, t0: int, t: int, later: int)
    requires RegisterInv(d) && !d.abortPending && !d.phase.Busy? && !d.knobs.abortNever && later > t
    ensures var asked := Write(d, t0, CONTROL, 0x04).device;
      var seen := Advance(asked, t);
      var served := Advance(seen, later);
      && asked.abortPending && seen.abortPending && Advance(seen, t) == seen
      && seen.phase == d.phase && seen.response == d.response && seen.cmd == d.cmd
      && Quiet(served) && served.cmd == [] && served.response == [] && served.status == [] && served.blocks == []
      && served.aborts == d.aborts + 1 && served.nios == d.nios
  {
    assert Advance(d, t0) == d && Noted(d) == d;
    assert Control(d, 0x04) == d.(aborts := d.aborts + 1, abortPending := true, abortDue := None);
  }

  predicate Stuck(d: Device) {
    d.phase.Busy? && d.newCommand && d.doneAt == Some(Infinity) && d.pending.Some?
  }

  lemma StuckControl(d: Device, value: Byte)
    requires Stuck(d)
    ensures var c := Control(d, value);
      Stuck(c) && c.log == d.log && c.nios.sessions == d.nios.sessions
  {
    hide PushBit, AcceptBit, AbortBit, ClearBit;
    var c := Cleared(d, value);
    assert Stuck(c) && c.log == d.log && c.nios.sessions == d.nios.sessions;
    hide Cleared;
    assert DataAccept(c) == c;
    hide DataAccept;
  }

  lemma StuckStep(d: Device, e: Event)
    requires Stuck(d) && (e.Rd? || e.Wr?)
    ensures Stuck(Step(d, e).device) && !Step(d, e).raised
    ensures Step(d, e).device.log == d.log && Step(d, e).device.nios.sessions == d.nios.sessions
  {
    hide PushBit, Execute, StatusBits, Control;
    assert Advance(d, e.now) == d;
    hide Advance;
    var n := Noted(d);
    assert Stuck(n) && n.log == d.log && n.nios.sessions == d.nios.sessions;
    if e.Wr? && e.addr == CONTROL { StuckControl(n, e.value); }
  }

  /** A command scripted never to complete keeps the device busy whatever its driver
      does; no ABORT is served and no other command executed. */
  lemma {:induction false} StuckRun(d: Device, es: seq<Event>)
    requires Stuck(d) && forall i :: 0 <= i < |es| ==> es[i].Rd? || es[i].Wr?
    ensures Stuck(Run(d, es).device) && !Run(d, es).raised
    ensures Run(d, es).device.log == d.log && Run(d, es).device.nios.sessions == d.nios.sessions
    decreases |es|
  {
    hide Step;
    if es != [] {
      StuckStep(d, es[0]);
      StuckRun(Step(d, es[0]).device, es[1..]);
    }
  }
}
