/** Reading a reply off the registers: blocks, status line and accepts, and what a
    driver that trusts a READ's length header therefore gets. */
module M3Replies {
  import opened Bytes
  import opened M3Model
  import opened M3Registers
  import opened M3Conservation
  import opened M3Object
  import opened M3Driver

  /** A reply is on display: `block` is read up to `rp`, `line` up to `sp`, and the
      blocks in `rest` are still to come. */
  predicate Serves(d: Device, block: Bytes, rest: seq<Bytes>, rp: nat, line: Bytes, sp: nat) {
    && d.phase == (if rest == [] then Last else More) && d.response == block && d.blocks == rest && d.rp == rp
    && d.status == line && d.sp == sp && rp <= |block| && sp <= |line|
    && !d.newCommand && !d.abortPending && d.abortDue.None? && d.doneAt.None? && d.pending.None? && d.cmd == []
    && d.knobs.present
  }

  lemma ServesRegisters(d: Device, block: Bytes, rest: seq<Bytes>, rp: nat, line: Bytes, sp: nat, t: int)
    requires Serves(d, block, rest, rp, line, sp)
    ensures RegisterInv(d) && Advance(d, t) == d
    ensures Read(d, t, CONTROL) == Answer(d, StatusBits(d))
    ensures rp < |block| ==> Read(d, t, RESPONSE) == Answer(d.(rp := rp + 1), block[rp])
    ensures sp < |line| ==> Read(d, t, STATUS) == Answer(d.(sp := sp + 1), line[sp])
  {
    hide StatusBits;
  }

  lemma ServesAccept(d: Device, block: Bytes, rest: seq<Bytes>, line: Bytes, sp: nat, t: int)
    requires Serves(d, block, rest, |block|, line, sp)
    ensures var o := Write(d, t, CONTROL, 0x02);
      && !o.raised && o.device.nios == d.nios && o.device.knobs == d.knobs
      && (rest != [] ==> Serves(o.device, rest[0], rest[1..], 0, line, sp))
      && (rest == [] ==> Quiet(o.device) && RegisterInv(o.device) && o.device.cmd == [])
  {
    ServesRegisters(d, block, rest, |block|, line, sp, t);
    hide Advance;
    assert BeforePush(d, t, 0x02) == Control(d, 0x02) == DataAccept(d);
  }

  lemma ServesParts(d: Device, block: Bytes, rest: seq<Bytes>, rp: nat, line: Bytes, sp: nat)
    requires Serves(d, block, rest, rp, line, sp)
    ensures d.phase.Replying() && d.response == block && d.rp == rp && d.status == line && d.sp == sp
    ensures rp <= |block| && sp <= |line| && d.knobs.present
  {
  }

  lemma ServesMoved(d: Device, block: Bytes, rest: seq<Bytes>, rp: nat, line: Bytes, sp: nat, rp': nat, sp': nat)
    requires Serves(d, block, rest, rp, line, sp) && rp' <= |block| && sp' <= |line|
    ensures Serves(d.(rp := rp', sp := sp'), block, rest, rp', line, sp')
  {
  }

  /** What one look at the status byte says, and what the next read then gives. */
  lemma ServesLook(d: Device, block: Bytes, rest: seq<Bytes>, rp: nat, line: Bytes, sp: nat, t: int)
    requires Serves(d, block, rest, rp, line, sp)
    ensures Read(d, t, CONTROL).device == d
    ensures var v := Read(d, t, CONTROL).value;
      (v / 128 == 1 <==> rp < |block|) && (v / 64 % 2 == 1 <==> sp < |line|) && v / 16 % 4 >= 2
    ensures rp < |block| ==> Read(d, t, RESPONSE) == Answer(d.(rp := rp + 1, sp := sp), block[rp])
    ensures sp < |line| ==> Read(d, t, STATUS) == Answer(d.(rp := rp, sp := sp + 1), line[sp])
  {
    hide Read, StatusBits, Serves, RegisterInv;
    ServesRegisters(d, block, rest, rp, line, sp, t);
    ServesParts(d, block, rest, rp, line, sp);
    StatusBitsAre(d);
  }

  /** Read bytes off the current block while DATA_AV is set. */
  method DrainBlock(d: M3Device, t: int, ghost block: Bytes, ghost rest: seq<Bytes>, ghost line: Bytes, ghost sp: nat)
    returns (got: Bytes)
    requires Serves(d.View(), block, rest, 0, line, sp)
    modifies d`regs
    ensures got == block && Serves(d.View(), block, rest, |block|, line, sp)
    ensures d.View().nios == old(d.View().nios) && d.View().knobs == old(d.View().knobs)
  {
    hide Read, StatusBits, Serves, RegisterInv;
    got := [];
    while true
      invariant |got| <= |block| && got == block[..|got|] && Serves(d.View(), block, rest, |got|, line, sp)
      decreases |block| - |got|
    {
      ghost var v := d.View();
      ServesLook(v, block, rest, |got|, line, sp, t);
      var bits := d.Read(t, CONTROL);
      if bits / 128 != 1 { return; }
      ServesParts(v, block, rest, |got|, line, sp);
      ServesMoved(v, block, rest, |got|, line, sp, |got| + 1, sp);
      var x := d.Read(t, RESPONSE);
      got := got + [x];
    }
  }

  /** Read bytes off the status line while STAT_AV is set. */
  method DrainLine(d: M3Device, t: int, ghost block: Bytes, ghost rest: seq<Bytes>, ghost line: Bytes, ghost sp: nat)
    returns (got: Bytes)
    requires Serves(d.View(), block, rest, |block|, line, sp)
    modifies d`regs
    ensures sp <= |line| && got == line[sp..] && Serves(d.View(), block, rest, |block|, line, |line|)
    ensures d.View().nios == old(d.View().nios) && d.View().knobs == old(d.View().knobs)
  {
    hide Read, StatusBits, Serves, RegisterInv;
    got := [];
    ServesParts(d.View(), block, rest, |block|, line, sp);
    while true
      invariant sp + |got| <= |line| && got == line[sp..sp + |got|]
      invariant Serves(d.View(), block, rest, |block|, line, sp + |got|)
      decreases |line| - |got|
    {
      ghost var v := d.View();
      ServesLook(v, block, rest, |block|, line, sp + |got|, t);
      var bits := d.Read(t, CONTROL);
      if bits / 64 % 2 != 1 { return; }
      ServesMoved(v, block, rest, |block|, line, sp + |got|, |block|, sp + |got| + 1);
      var x := d.Read(t, STATUS);
      got := got + [x];
    }
  }

  lemma IdleLook(d: Device, t: int)
    requires Quiet(d) && d.knobs.present
    ensures Read(d, t, CONTROL).device == d && Read(d, t, CONTROL).value / 16 % 4 == 0
  {
    StatusBitsAre(d);
    hide StatusBits;
  }

  /** Drain and accept block after block: the driver gets the whole reply, in order,
      leaves the device idle, and nothing is held against it. */
  method ReadReply(d: M3Device, t: int, ghost reply: Reply) returns (blocks: seq<Bytes>, line: Bytes)
    requires reply.blocks != [] && Serves(d.View(), reply.blocks[0], reply.blocks[1..], 0, reply.status, 0)
    modifies d
    ensures blocks == reply.blocks && line == reply.status
    ensures Quiet(d.View()) && RegisterInv(d.View()) && d.View().cmd == []
    ensures d.View().nios == old(d.View().nios) && d.View().knobs == old(d.View().knobs)
  {
    hide Read, Write, StatusBits, Serves, RegisterInv, Quiet;
    ghost var was := d.View();
    blocks, line := [], [];
    ghost var block, rest := reply.blocks[0], reply.blocks[1..];
    ghost var sp: nat := 0;
    while true
      invariant reply.blocks == blocks + [block] + rest
      invariant Serves(d.View(), block, rest, 0, reply.status, sp)
      invariant sp <= |reply.status| && line == reply.status[..sp]
      invariant d.View().nios == was.nios && d.View().knobs == was.knobs
      decreases |rest|
    {
      var got := DrainBlock(d, t, block, rest, reply.status, sp);
      var more := DrainLine(d, t, block, rest, reply.status, sp);
      line, blocks := line + more, blocks + [got];
      sp := |reply.status|;
      ServesParts(d.View(), block, rest, |block|, reply.status, sp);
      ServesAccept(d.View(), block, rest, reply.status, sp, t);
      var _ := d.Write(t, CONTROL, 0x02);
      if rest == [] {
        IdleLook(d.View(), t);
      } else {
        ServesLook(d.View(), rest[0], rest[1..], 0, reply.status, sp, t);
      }
      var bits := d.Read(t, CONTROL);
      if bits / 16 % 4 == 0 { return; }
      block, rest := rest[0], rest[1..];
    }
  }

  // --------------------------------------------------------------- one READ --

  lemma PushedReply(d: Device, now: int, later: int)
    requires Quiet(d) && RegisterInv(d) && d.knobs.present && Execute(d.knobs, d.nios, d.cmd, now).Replied?
    requires var x := Execute(d.knobs, d.nios, d.cmd, now);
      x.delay.After? && later >= now + x.delay.units && x.reply.blocks != []
    ensures var o := Push(d, now); var x := Execute(d.knobs, d.nios, d.cmd, now);
      var a := Advance(o.device, later);
      && !o.raised && a.nios == x.nios && a.knobs == d.knobs
      && Serves(a, x.reply.blocks[0], x.reply.blocks[1..], 0, x.reply.status, 0)
  {
    hide Execute;
    var x := Execute(d.knobs, d.nios, d.cmd, now);
    assert d.abortDue.None?;
    assert Push(d, now) == Launched(d, now, x);
  }

  predicate Ready(d: Device, h: Byte) {
    && Quiet(d) && RegisterInv(d) && d.cmd == [] && d.knobs.present && 0x10 !in d.knobs.never
    && d.nios.forced.None? && h in d.nios.sessions
  }

  function ReadCommand(h: Byte, most: nat): Bytes
    requires most < 0x10000
  {
    [0x03, 0x10, h, most % 256, most / 256]
  }

  lemma ReadExecutes(d: Device, h: Byte, most: nat, now: int)
    requires Ready(d, h) && 0 < most <= 1472
    ensures var x := Execute(d.knobs, d.nios, ReadCommand(h, most), now);
      && x.Replied? && x.delay == After(d.knobs.readDelay) && |x.reply.blocks| == 1 && |x.reply.blocks[0]| >= 2
      && AnswersFrom(d.nios.sessions[h].rx, most, x.reply.blocks[0], x.reply.status)
      && x.nios.violations == d.nios.violations
      && (h in x.nios.sessions ==> x.reply.blocks[0][2..] + Queued(x.nios, h) == Queued(d.nios, h))
      && (h !in x.nios.sessions ==> x.reply.blocks[0][2..] == [])
  {
    hide AnswersFrom, ReadData, RegisterInv;
    var cmd := ReadCommand(h, most);
    var n := d.nios.(sessions := ClaimAll(d.nios.sessions));
    assert CheckHandle(n, cmd) == n;
    assert Execute(d.knobs, d.nios, cmd, now) == ReadData(d.knobs, n, cmd);
    assert n.sessions[h].rx == d.nios.sessions[h].rx;
    ReadAnswers(d.knobs, n, cmd);
    ReadDataMoves(d.knobs, n, cmd, h);
    ReadRecords(d.knobs, n, cmd);
    var b := ReadData(d.knobs, n, cmd).reply.blocks[0];
    assert Payload(b, 0) == b[2..];
  }

  lemma ReadRecords(k: Knobs, n: Nios, cmd: Bytes)
    requires |cmd| >= 5
    ensures ReadData(k, n, cmd).nios.violations == n.violations
  {
    hide Take, Untracks;
  }

  /** Send one READ and take from the reply exactly what its header announces. */
  method FetchData(d: M3Device, h: Byte, most: nat, now: int, later: int)
    returns (length: nat, got: Bytes, line: Bytes)
    requires Ready(d.View(), h) && 0 < most <= 1472 && later >= now + d.knobs.readDelay
    modifies d
    ensures var rx := old(d.sessions)[h].rx;
      && (rx == [] || rx[0].NoData? ==> length == 0xFFFF && got == [] && line == IDLE_LINE)
      && (rx != [] && rx[0].Data? ==>
        length == |got| == Min(most, |rx[0].bytes|) && got == rx[0].bytes[..length] && line == OK_LINE)
      && (rx != [] && rx[0].End? ==> length == 0 && got == [] && line == rx[0].status)
    ensures h in d.sessions ==> got + Queued(d.NiosView(), h) == Queued(old(d.NiosView()), h)
    ensures Quiet(d.View()) && RegisterInv(d.View()) && d.View().cmd == [] && d.violations == old(d.violations)
  {
    hide Read, Write, Run, Push, Execute, Quiet, RegisterInv, Serves, Send, Queued, AnswersFrom;
    ghost var v := d.View();
    ReadyParts(v, h);
    var cmd := ReadCommand(h, most);
    ghost var c := v.(cmd := cmd);
    ReadExecutes(v, h, most, now);
    ghost var x := Execute(v.knobs, v.nios, cmd, now);
    SendPushes(v, cmd, now);
    CommandKeeps(v, cmd);
    PushedReply(c, now, later);
    var _ := Drive(d, Send(cmd, now));
    d.Advance(later);
    var blocks;
    blocks, line := ReadReply(d, later, x.reply);
    var b := blocks[0];
    length := b[0] as int + 256 * b[1] as int;
    HeaderTells(v.nios.sessions[h].rx, most, b, line);
    got := if length == 0xFFFF then [] else b[2..2 + length];
  }

  lemma ReadyParts(d: Device, h: Byte)
    requires Ready(d, h)
    ensures Quiet(d) && RegisterInv(d) && d.cmd == [] && d.knobs.present && d.nios.forced.None?
  {
  }

  lemma CommandKeeps(d: Device, cmd: Bytes)
    requires Quiet(d) && RegisterInv(d)
    ensures Quiet(d.(cmd := cmd)) && RegisterInv(d.(cmd := cmd))
  {
  }

  /** A driver that goes by the header gets exactly the payload. */
  lemma HeaderTells(rx: seq<RxEvent>, most: nat, b: Bytes, line: Bytes)
    requires |b| >= 2 && AnswersFrom(rx, most, b, line) && 0 < most <= 1472
    ensures var length := b[0] as int + 256 * b[1] as int;
      && (length == 0xFFFF <==> rx == [] || rx[0].NoData?)
      && (length != 0xFFFF ==> length + 2 <= |b|)
      && (length == 0xFFFF ==> b[2..] == [] && line == IDLE_LINE)
      && (length != 0xFFFF ==> b[2..] == b[2..2 + length])
      && (rx != [] && rx[0].Data? ==>
        length == Min(most, |rx[0].bytes|) && b[2..2 + length] == rx[0].bytes[..length] && line == OK_LINE)
      && (rx != [] && rx[0].End? ==> length == 0 && line == rx[0].status)
  {
    hide OK_LINE, IDLE_LINE;
  }
}
