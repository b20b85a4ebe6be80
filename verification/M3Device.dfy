/** The device object: the fields and methods of the original class, each method
    proved to take the transition that `M3Model` gives for it. */
module M3Object {
  import opened Bytes
  import opened M3Model
  import M3Registers
  import M3Conservation
  import M3Claims

  /** The register file, the part of the state the CPU sees through $DF1C-$DF1F. */
  datatype Registers = Registers(
    phase: Phase, newCommand: bool, errorBusy: bool, abortPending: bool, cmd: Bytes,
    blocks: seq<Bytes>, response: Bytes, status: Bytes, rp: nat, sp: nat,
    doneAt: Option<Deadline>, pending: Option<Reply>, abortDue: Option<int>)

  class M3Device {
    var knobs: Knobs
    // the register file
    var regs: Registers
    // the Nios
    var sessions: map<Byte, Session>
    var gone: set<Byte>
    var forced: Option<Reply>
    var releaseDelays: seq<Delay>
    // observation
    var violations: seq<Violation>
    var log: seq<(int, Bytes)>
    var rejected: nat
    var accepts: nat
    var acceptsOnMore: nat
    var aborts: nat

    ghost function NiosView(): Nios
      reads this
    {
      Nios(sessions, gone, violations, forced, releaseDelays)
    }

    ghost function View(): Device
      reads this
    {
      Device(knobs, regs.phase, regs.newCommand, regs.errorBusy, regs.abortPending, regs.cmd, regs.blocks,
             regs.response, regs.status, regs.rp, regs.sp, regs.doneAt, regs.pending, regs.abortDue,
             NiosView(), log, rejected, accepts, acceptsOnMore, aborts)
    }

    constructor (k: Knobs)
      ensures View() == M3Model.Initial(k)
      ensures M3Registers.RegisterInv(View())
    {
      knobs := k;
      regs := Registers(Idle, false, false, false, [], [], [], [], 0, 0, None, None, None);
      sessions, gone, violations, forced, releaseDelays := map[], {}, [], None, [];
      log, rejected, accepts, acceptsOnMore, aborts := [], 0, 0, 0, 0;
    }

    method LoadBlock()
      modifies `regs
      ensures View() == M3Model.LoadBlock(old(View()))
    {
      if regs.blocks != [] {
        regs := regs.(response := regs.blocks[0], blocks := regs.blocks[1..]);
      } else {
        regs := regs.(response := []);
      }
      regs := regs.(rp := 0);
      regs := regs.(phase := if regs.blocks != [] then More else Last);
    }

    method Advance(now: int)
      modifies `regs
      ensures View() == M3Model.Advance(old(View()), now)
    {
      hide M3Model.LoadBlock;
      ghost var was := View();
      if regs.doneAt.Some? && regs.doneAt.value.At? && now >= regs.doneAt.value.time && regs.pending.Some? {
        var reply := regs.pending.value;
        regs := regs.(doneAt := None, pending := None, newCommand := false);
        regs := regs.(blocks := reply.blocks, status := reply.status, sp := 0);
        LoadBlock();
      }
      assert View() == M3Model.Stage(was, now);
      if regs.abortPending && regs.doneAt.None? && regs.pending.None? && !knobs.abortNever {
        if regs.abortDue.None? {
          regs := regs.(abortDue := Some(now + 1));
        } else if now >= regs.abortDue.value {
          regs := regs.(abortDue := None, abortPending := false, phase := Idle, newCommand := false,
                        blocks := [], response := [], status := [], rp := 0, sp := 0, cmd := []);
        }
      }
    }

    method Read(now: int, addr: int) returns (value: Byte)
      modifies `regs
      ensures View() == M3Model.Read(old(View()), now, addr).device
      ensures value == M3Model.Read(old(View()), now, addr).value
      ensures old(M3Registers.RegisterInv(View())) ==> M3Registers.RegisterInv(View())
    {
      hide M3Registers.RegisterInv, M3Model.Advance, M3Model.ReadNow;
      if M3Registers.RegisterInv(View()) {
        M3Registers.AdvanceKeeps(View(), now);
        M3Registers.ReadNowKeeps(M3Model.Advance(View(), now), addr);
      }
      Advance(now);
      value := Fetch(addr);
    }

    /** The register itself, once time has been accounted for. */
    method Fetch(addr: int) returns (value: Byte)
      modifies `regs
      ensures M3Model.Answer(View(), value) == M3Model.ReadNow(old(View()), addr)
    {
      if addr == CONTROL {
        if !knobs.present { return 0xFF; }
        value := StatusByte();
        return;
      }
      if addr == COMMAND { return if knobs.present then 0xC9 else 0xFF; }
      if addr == RESPONSE {
        if !regs.phase.Replying() || regs.rp >= |regs.response| { return 0; }
        regs := regs.(rp := regs.rp + 1);
        return regs.response[regs.rp - 1];
      }
      if addr == STATUS {
        if !regs.phase.Replying() || regs.sp >= |regs.status| { return 0; }
        regs := regs.(sp := regs.sp + 1);
        return regs.status[regs.sp - 1];
      }
      return 0;
    }

    /** The status byte, built bit by bit. */
    method StatusByte() returns (value: Byte)
      ensures value == M3Model.StatusBits(View())
    {
      value := 16 * regs.phase.Code();
      if regs.phase.Replying() {
        if regs.rp < |regs.response| { value := value + 0x80; }
        if regs.sp < |regs.status| { value := value + 0x40; }
      }
      if regs.errorBusy { value := value + 0x08; }
      if regs.abortPending { value := value + 0x04; }
      if regs.newCommand { value := value + 0x01; }
    }

    method DataAccept()
      modifies `regs, `violations, `accepts, `acceptsOnMore
      ensures View() == M3Model.DataAccept(old(View()))
    {
      hide M3Model.NextBlock, M3Model.NoteUnread;
      if regs.phase.Replying() {
        NoteUnread();
        NextBlock();
      }
    }

    method NoteUnread()
      modifies `violations
      ensures View() == M3Model.NoteUnread(old(View()))
    {
      if regs.rp < |regs.response| {
        violations := violations + [UnreadBytes(|regs.response| - regs.rp)];
      }
    }

    method NextBlock()
      modifies `regs, `accepts, `acceptsOnMore
      ensures View() == M3Model.NextBlock(old(View()))
    {
      hide M3Model.LoadBlock;
      accepts := accepts + 1;
      if regs.phase.More? {
        acceptsOnMore := acceptsOnMore + 1;
        LoadBlock();
      } else {
        regs := regs.(phase := Idle, response := [], status := [], rp := 0, sp := 0);
      }
    }

    /** What a control write does before it looks at the ACCEPT bit. */
    method ClearError(value: Byte)
      modifies `regs, `violations
      ensures View() == M3Model.Cleared(old(View()), value)
    {
      hide PushBit, AbortBit, ClearBit;
      if AbortBit(value) && PushBit(value) { violations := violations + [AbortWithPush]; }
      if ClearBit(value) { regs := regs.(errorBusy := false); }
    }

    /** The bits of a control write other than PUSH. */
    method Control(value: Byte)
      modifies `regs, `violations, `accepts, `acceptsOnMore, `aborts
      ensures View() == M3Model.Control(old(View()), value)
    {
      hide PushBit, AcceptBit, AbortBit, ClearBit, M3Model.DataAccept, M3Model.Cleared;
      ClearError(value);
      if AcceptBit(value) { DataAccept(); }
      if AbortBit(value) {
        aborts := aborts + 1;
        regs := regs.(abortPending := true, abortDue := None);
      }
    }

    /** A register write; `raised` tells that an exception escaped it. */
    method Write(now: int, addr: int, value: Byte) returns (raised: bool)
      modifies this
      ensures M3Model.Outcome(View(), raised) == M3Model.Write(old(View()), now, addr, value)
      ensures old(M3Registers.RegisterInv(View())) ==> (M3Registers.RegisterInv(View()) <==> !raised)
    {
      hide M3Registers.RegisterInv, M3Registers.Unanswerable, PushBit, M3Model.Push, M3Model.Control, M3Model.Advance;
      ghost var was := View();
      if M3Registers.RegisterInv(was) {
        M3Registers.StepKeeps(was, Wr(now, addr, value));
      }
      Advance(now);
      if addr != CONTROL && addr != COMMAND { return false; }
      if regs.abortPending { violations := violations + [WroteDuringAbort]; }
      assert View() == M3Model.Noted(M3Model.Advance(was, now));
      if addr == COMMAND {
        regs := regs.(cmd := regs.cmd + [value]);
        return false;
      }
      Control(value);
      raised := false;
      if PushBit(value) { raised := Push(now); }
    }

    method Push(now: int) returns (raised: bool)
      modifies `regs, `rejected, `log, `sessions, `gone, `violations, `forced, `releaseDelays
      ensures M3Model.Outcome(View(), raised) == M3Model.Push(old(View()), now)
    {
      hide M3Model.Execute, M3Model.Launched;
      if regs.phase != Idle || regs.newCommand {
        regs := regs.(errorBusy := true, cmd := []);
        rejected := rejected + 1;
        return false;
      }
      raised := Launch(now);
    }

    method Launch(now: int) returns (raised: bool)
      modifies `regs, `log, `sessions, `gone, `violations, `forced, `releaseDelays
      ensures var x := M3Model.Execute(knobs, old(NiosView()), old(regs.cmd), now);
        M3Model.Outcome(View(), raised) == M3Model.Launched(old(View()), now, x)
    {
      hide M3Model.Execute;
      var cmd := regs.cmd;
      regs := regs.(phase := Busy, newCommand := true);
      log := log + [(now, cmd)];
      var x := Execute(cmd, now);
      if x.None? { return true; }
      var (reply, delay) := x.value;
      if delay.Never? {
        regs := regs.(pending := Some(Reply([], [])), doneAt := Some(Infinity), cmd := []);
      } else {
        regs := regs.(pending := Some(reply), doneAt := Some(At(now + delay.units)), cmd := []);
      }
      return false;
    }

    /** Mark every session claimed, one after another. */
    method Claim()
      modifies `sessions
      ensures sessions == M3Model.ClaimAll(old(sessions))
    {
      var todo := sessions.Keys;
      while todo != {}
        invariant todo <= sessions.Keys == old(sessions).Keys
        invariant forall h :: h in sessions ==>
          sessions[h] == (if h in todo then old(sessions)[h] else old(sessions)[h].(claimed := true))
        decreases |todo|
      {
        var h :| h in todo;
        sessions := sessions[h := sessions[h].(claimed := true)];
        todo := todo - {h};
      }
    }

    /** Delete the unclaimed sessions and count them. */
    method DropUnclaimed() returns (n: nat)
      modifies `sessions
      ensures sessions == old(sessions) - M3Model.Unclaimed(old(sessions))
      ensures n == |M3Model.Unclaimed(old(sessions))|
    {
      var todo := M3Model.Unclaimed(sessions);
      ghost var all := todo;
      n := 0;
      while todo != {}
        invariant todo <= all && n + |todo| == |all|
        invariant sessions == old(sessions) - (all - todo)
        decreases |todo|
      {
        var h :| h in todo;
        sessions := sessions - {h};
        todo := todo - {h};
        n := n + 1;
      }
      assert all - {} == all;
    }

    method CheckHandle(cmd: Bytes)
      modifies `violations
      ensures NiosView() == M3Model.CheckHandle(old(NiosView()), cmd)
    {
      if |cmd| >= 3 && cmd[2] in gone && cmd[2] !in sessions {
        violations := violations + [HandleGone];
      }
    }

    /** `None` is an exception on the way. */
    method Execute(cmd: Bytes, now: int) returns (x: Option<(Reply, Delay)>)
      modifies `sessions, `gone, `violations, `forced, `releaseDelays
      ensures Matches(M3Model.Execute(knobs, old(NiosView()), cmd, now), x)
    {
      hide M3Model.Dispatch, M3Model.ClaimAll;
      if |cmd| < 2 || cmd[0] != 0x03 {
        return Some((Reply([], INVALID), After(FAST)));
      }
      var op := cmd[1];
      var delay := if op in knobs.slow then After(knobs.slow[op]) else After(FAST);
      if op in knobs.never { delay := Never; }
      if !(cmd[1] == 0x25 || cmd == [0x03, 0x23, 0xFF]) { Claim(); }
      x := Dispatch(cmd, now, delay);
    }

    method Dispatch(cmd: Bytes, now: int, delay: Delay) returns (x: Option<(Reply, Delay)>)
      requires |cmd| >= 2
      modifies `sessions, `gone, `violations, `forced, `releaseDelays
      ensures Matches(M3Model.Dispatch(knobs, old(NiosView()), cmd, now, delay), x)
    {
      hide M3Model.Close, M3Model.Info, M3Model.Release, M3Model.Open, M3Model.ReadData, M3Model.WriteData;
      hide M3Model.CheckHandle, M3Model.Unclaimed, M3Claims.Made, M3Claims.AsSet;
      hide M3Conservation.PendingData, M3Conservation.Queued, M3Conservation.Released, M3Conservation.AnswersRead;
      hide M3Conservation.QueueAfter;
      var op := cmd[1];
      if op == 0x09 { CheckHandle(cmd); x := ExecuteClose(cmd, delay); return; }
      if op == 0x05 {
        if |cmd| < 3 { return None; }
        if cmd[2] != 0 { return Some((Reply([], INVALID), delay)); }
        return Some((Reply([IP_CONFIG], OK_LINE), delay));
      }
      if op == 0x23 { x := ExecuteInfo(cmd, now, delay); return; }
      if op == 0x25 { x := ExecuteRelease(cmd, delay); return; }
      if op == 0x21 { x := ExecuteOpen(delay); return; }
      if op == 0x10 { CheckHandle(cmd); x := ExecuteRead(cmd); return; }
      if op == 0x11 { CheckHandle(cmd); x := ExecuteWrite(cmd, delay); return; }
      return Some((Reply([], UNKNOWN), delay));
    }

    method ExecuteClose(cmd: Bytes, delay: Delay) returns (x: Option<(Reply, Delay)>)
      modifies `sessions
      ensures Matches(M3Model.Close(old(NiosView()), cmd, delay), x)
      ensures x.None? <==> |cmd| < 3
      ensures x.None? ==> sessions == old(sessions)
      ensures x.Some? ==> cmd[2] !in sessions && sessions == old(sessions) - {cmd[2]}
      ensures x.Some? ==> (x.value.0.status == OK_LINE <==> cmd[2] in old(sessions))
      ensures x.Some? ==> x.value.0 == Reply([], if cmd[2] in old(sessions) then OK_LINE else CLOSE_UNOWNED)
    {
      if |cmd| < 3 { return None; }
      if cmd[2] in sessions {
        sessions := sessions - {cmd[2]};
        return Some((Reply([], OK_LINE), delay));
      }
      return Some((Reply([], CLOSE_UNOWNED), delay));
    }

    method ExecuteInfo(cmd: Bytes, now: int, delay: Delay) returns (x: Option<(Reply, Delay)>)
      modifies `violations
      ensures Matches(M3Model.Info(knobs, old(NiosView()), cmd, now, delay), x)
      ensures x.Some? && (x.value.0.blocks != [] <==> knobs.tls && |cmd| == 3 && cmd[2] == 0xFF)
      ensures x.value.0.blocks != [] ==>
        && x.value.0.blocks == [x.value.0.blocks[0]] && |x.value.0.blocks[0]| == 16
        && (forall i :: 0 <= i < 16 && i != 4 ==> x.value.0.blocks[0][i] == knobs.info[i])
        && x.value.0.status == OK_LINE
        && x.value.0.blocks[0][4] ==
           (if knobs.readyAfter.Some? && now < knobs.readyAfter.value then 0x03 else knobs.info[4])
      ensures violations == old(violations) || (knobs.tls && |cmd| != 3 && violations == old(violations) + [InfoSize])
    {
      if !knobs.tls { return Some((Reply([], UNKNOWN), delay)); }
      if |cmd| != 3 {
        violations := violations + [InfoSize];
        return Some((Reply([], INVALID), delay));
      }
      if cmd[2] == 0xFF {
        var rec: Bytes := knobs.info;
        if knobs.readyAfter.Some? && now < knobs.readyAfter.value { rec := rec[4 := 0x03]; }
        return Some((Reply([rec], OK_LINE), delay));
      }
      return Some((Reply([], INVALID), delay));
    }

    ghost predicate Matches(e: Executed, x: Option<(Reply, Delay)>)
      reads this
    {
      NiosView() == e.nios && x == if e.Raised? then None else Some((e.reply, e.delay))
    }

    method ExecuteRelease(cmd: Bytes, delay0: Delay) returns (x: Option<(Reply, Delay)>)
      modifies `violations, `sessions, `releaseDelays
      ensures Matches(M3Model.Release(knobs, old(NiosView()), cmd, delay0), x)
      ensures knobs.tls && |cmd| == 2 ==> M3Model.Unclaimed(sessions) == {}
      ensures knobs.tls && |cmd| == 2 && x.Some? ==>
        x.value.0.blocks == [[|old(sessions)| - |sessions|]] && x.value.0.status == OK_LINE
      ensures knobs.tls && |cmd| == 2 ==>
        releaseDelays == if old(releaseDelays) == [] then [] else old(releaseDelays)[1..]
      ensures !(knobs.tls && |cmd| == 2) ==> releaseDelays == old(releaseDelays)
      ensures !(knobs.tls && |cmd| == 2) ==> sessions == old(sessions) && x.Some? && x.value.0.blocks == []
      ensures forall h :: h in old(sessions) && old(sessions)[h].claimed ==>
        h in sessions && sessions[h] == old(sessions)[h]
    {
      hide M3Model.Unclaimed;
      M3Claims.DroppingUnclaimed(sessions);
      if !knobs.tls { return Some((Reply([], UNKNOWN), delay0)); }
      if |cmd| != 2 {
        violations := violations + [ReleaseSize];
        return Some((Reply([], INVALID), delay0));
      }
      var delay := delay0;
      if releaseDelays != [] {
        delay := releaseDelays[0];
        releaseDelays := releaseDelays[1..];
      }
      var n := DropUnclaimed();
      if n > 255 { return None; }
      return Some((Reply([[n]], OK_LINE), delay));
    }

    method ExecuteOpen(delay: Delay) returns (x: Option<(Reply, Delay)>)
      modifies `sessions, `gone
      ensures Matches(M3Model.Open(knobs, old(NiosView()), delay), x)
      ensures x.Some?
      ensures var made := M3Claims.Made(knobs);
        && M3Model.Unclaimed(sessions) == M3Model.Unclaimed(old(sessions)) + M3Claims.AsSet(made)
        && sessions - M3Claims.AsSet(made) == old(sessions) - M3Claims.AsSet(made)
        && (made.Some? ==> made.value in sessions && sessions[made.value].rx == [])
      ensures knobs.tls && knobs.openResult.Refuse? ==> x.value.0 == Reply([], knobs.openResult.status)
      ensures knobs.tls && knobs.openResult.Odd? ==> x.value.0 == knobs.openResult.reply
      ensures knobs.tls && knobs.openResult.Accept? ==>
        && x.value.0.status == OK_LINE && x.value.0.blocks != []
        && x.value.0.blocks[0] == [knobs.openResult.handle, 4, 3, 1, 0x13, 0x1D, 0, 0]
        && x.value.0.blocks[0][0] in sessions && x.value.0.blocks[0][0] !in gone
    {
      hide M3Model.Unclaimed, M3Claims.Made, M3Claims.AsSet;
      M3Claims.OpenMakes(knobs, NiosView(), delay);
      if !knobs.tls { return Some((Reply([], UNKNOWN), delay)); }
      var d := if 0x21 in knobs.never then Never else After(knobs.openDelay);
      match knobs.openResult {
        case Refuse(line) => return Some((Reply([], line), d));
        case Odd(reply) =>
          sessions := sessions[knobs.nextHandle := Session([], false, None)];
          return Some((reply, d));
        case Accept(h) =>
          sessions := sessions[h := Session([], false, knobs.onWrite)];
          gone := gone - {h};
          return Some((Reply([M3Model.OpenReply(h)], OK_LINE), d));
      }
    }

    method ExecuteRead(cmd: Bytes) returns (x: Option<(Reply, Delay)>)
      modifies `sessions, `gone, `forced
      ensures Matches(M3Model.ReadData(knobs, old(NiosView()), cmd), x)
      ensures x.None? <==> |cmd| < 5
      ensures x.Some? && old(forced).None? ==>
        && sessions - {cmd[2]} == old(sessions) - {cmd[2]}
        && (cmd[2] in sessions ==>
            M3Conservation.PendingData(Some(x.value.0)) + M3Conservation.Queued(NiosView(), cmd[2])
            == M3Conservation.Queued(old(NiosView()), cmd[2]))
        && (cmd[2] !in sessions ==> M3Conservation.PendingData(Some(x.value.0)) == [])
      ensures x.Some? && old(forced).None? ==> M3Conservation.AnswersRead(old(NiosView()), cmd, x.value.0)
      ensures var most := if x.Some? then cmd[3] as int + 256 * cmd[4] as int else 0;
        && (old(forced).None? && 0 < most <= 1472 && cmd[2] in old(sessions) && cmd[2] in sessions ==>
            M3Conservation.QueueAfter(old(sessions)[cmd[2]].rx, most, sessions[cmd[2]].rx))
        && (old(forced).Some? && 0 < most <= 1472 && cmd[2] in old(sessions) ==>
            x.value.0 == old(forced).value && forced.None? && sessions == old(sessions))
    {
      hide M3Conservation.PendingData, M3Conservation.Queued, M3Conservation.AnswersRead, M3Conservation.QueueAfter;
      hide M3Model.ReadData;
      ghost var n := NiosView();
      if |cmd| < 5 {
        M3Conservation.ShortReadRaises(knobs, n, cmd);
        return None;
      }
      M3Conservation.ForcedIsUsed(knobs, n, cmd);
      if forced.None? {
        M3Conservation.ReadDataMoves(knobs, n, cmd, cmd[2]);
        M3Conservation.ReadAnswers(knobs, n, cmd);
        M3Conservation.ReadLeaves(knobs, n, cmd);
      }
      x := LookUp(cmd);
    }

    method LookUp(cmd: Bytes) returns (x: Option<(Reply, Delay)>)
      requires |cmd| >= 5
      modifies `sessions, `gone, `forced
      ensures Matches(M3Model.ReadData(knobs, old(NiosView()), cmd), x)
    {
      hide FromU16Le, M3Model.ReadEvent;
      var h, maxlen := cmd[2], FromU16Le(cmd[3], cmd[4]);
      var d := if 0x10 in knobs.never then Never else After(knobs.readDelay);
      if maxlen == 0 || maxlen > 1472 { return Some((Reply([], OUT_OF_RANGE), d)); }
      if h !in sessions {
        gone := gone + {h};
        return Some((Reply([[0xFF, 0xFF]], NOT_OURS), d));
      }
      if forced.Some? {
        var reply := forced.value;
        forced := None;
        return Some((reply, d));
      }
      if sessions[h].rx == [] { return Some((Reply([[0xFF, 0xFF]], IDLE_LINE), d)); }
      x := TakeEvent(h, maxlen, d);
    }

    /** Answer with the event at the head of the queue. */
    method TakeEvent(h: Byte, maxlen: nat, d: Delay) returns (x: Option<(Reply, Delay)>)
      requires h in sessions && sessions[h].rx != [] && 0 < maxlen <= 1472
      modifies `sessions, `gone
      ensures Matches(M3Model.ReadEvent(old(NiosView()), h, maxlen, d), x)
    {
      hide U16Le, Take, M3Model.Untracks;
      var s := sessions[h];
      match s.rx[0] {
        case Data(bytes) =>
          M3Conservation.HeadTaken(bytes, maxlen);
          var chunk := Take(bytes, maxlen);
          var rest := bytes[|chunk|..];
          var rx := if rest != [] then s.rx[0 := Data(rest)] else s.rx[1..];
          sessions := sessions[h := s.(rx := rx)];
          return Some((Reply([U16Le(|chunk|) + chunk], OK_LINE), d));
        case NoData =>
          sessions := sessions[h := s.(rx := s.rx[1..])];
          return Some((Reply([[0xFF, 0xFF]], IDLE_LINE), d));
        case End(line) =>
          if M3Model.Untracks(line) {
            sessions := sessions - {h};
            gone := gone + {h};
          }
          return Some((Reply([[0, 0]], line), d));
      }
    }

    method ExecuteWrite(cmd: Bytes, delay: Delay) returns (x: Option<(Reply, Delay)>)
      modifies `sessions
      ensures Matches(M3Model.WriteData(knobs, old(NiosView()), cmd, delay), x)
      ensures |cmd| >= 3 && cmd[2] in old(sessions) && knobs.writeResult.None? ==>
        && cmd[2] in sessions && sessions[cmd[2]].onWrite.None?
        && M3Conservation.Queued(NiosView(), cmd[2]) ==
           M3Conservation.Queued(old(NiosView()), cmd[2]) + M3Conservation.Released(old(sessions)[cmd[2]])
        && sessions - {cmd[2]} == old(sessions) - {cmd[2]}
        && (x.Some? ==> x.value.0 == Reply([[(|cmd| - 3) % 256, (|cmd| - 3) / 256]], OK_LINE))
      ensures |cmd| >= 3 && cmd[2] in old(sessions) && knobs.writeResult.Some? ==>
        x == Some((knobs.writeResult.value, delay))
      ensures |cmd| >= 3 && cmd[2] !in old(sessions) ==> x == Some((Reply([[0xFF, 0xFF]], SEND_ERROR), delay))
      ensures !(|cmd| >= 3 && cmd[2] in old(sessions) && knobs.writeResult.None?) ==> sessions == old(sessions)
    {
      hide M3Conservation.Released, M3Conservation.Queued;
      M3Conservation.WriteReleases(knobs, NiosView(), cmd, delay);
      if |cmd| < 3 { return None; }
      var h := cmd[2];
      if h !in sessions { return Some((Reply([[0xFF, 0xFF]], SEND_ERROR), delay)); }
      if knobs.writeResult.Some? { return Some((knobs.writeResult.value, delay)); }
      var s := sessions[h];
      if s.onWrite.Some? { s := s.(rx := s.rx + s.onWrite.value, onWrite := None); }
      sessions := sessions[h := s];
      var size := |cmd| - 3;
      if size >= 0x10000 { return None; }
      return Some((Reply([U16Le(size)], OK_LINE), delay));
    }
  }
}
