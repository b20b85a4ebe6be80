/** The M3 command-interface device as a transition system on values: what one
    register read, one register write and the passing of time do to it. */
module M3Model {
  import opened Bytes

  /** ST_IDLE, ST_BUSY, ST_LAST and ST_MORE: the two state bits of $DF1C. */
  datatype Phase = Idle | Busy | Last | More {
    function Code(): nat {
      match this
      case Idle => 0
      case Busy => 1
      case Last => 2
      case More => 3
    }

    predicate Replying() {
      Last? || More?
    }
  }

  datatype RxEvent = Data(bytes: Bytes) | NoData | End(status: Bytes)
  datatype Session = Session(rx: seq<RxEvent>, claimed: bool, onWrite: Option<seq<RxEvent>>)
  datatype Reply = Reply(blocks: seq<Bytes>, status: Bytes)
  datatype Delay = After(units: nat) | Never
  datatype Deadline = At(time: int) | Infinity

  /** How OPEN_TLS answers. The odd kinds create a session like an accepted open
      and differ only in the reply they give for it. */
  datatype OpenResult = Accept(handle: Byte) | Refuse(status: Bytes) | Odd(reply: Reply)

  type InfoRecord = b: Bytes | |b| == 16 witness seq(16, _ => 0)

  /** What a test scripts from outside. */
  datatype Knobs = Knobs(
    present: bool, tls: bool, info: InfoRecord, readyAfter: Option<int>,
    openResult: OpenResult, openDelay: nat, readDelay: nat,
    writeResult: Option<Reply>, onWrite: Option<seq<RxEvent>>,
    never: set<Byte>, slow: map<Byte, nat>, nextHandle: Byte, abortNever: bool)

  datatype Violation =
    | WroteDuringAbort | AbortWithPush | UnreadBytes(count: nat)
    | InfoSize | ReleaseSize | HandleGone

  /** The part of the state that executing a command can change. */
  datatype Nios = Nios(
    sessions: map<Byte, Session>, gone: set<Byte>, violations: seq<Violation>,
    forced: Option<Reply>, releaseDelays: seq<Delay>)

  datatype Device = Device(
    knobs: Knobs, phase: Phase, newCommand: bool, errorBusy: bool, abortPending: bool,
    cmd: Bytes, blocks: seq<Bytes>, response: Bytes, status: Bytes, rp: nat, sp: nat,
    doneAt: Option<Deadline>, pending: Option<Reply>, abortDue: Option<int>,
    nios: Nios, log: seq<(int, Bytes)>,
    rejected: nat, accepts: nat, acceptsOnMore: nat, aborts: nat)

  const FAST := 2
  const CONTROL := 0xDF1C
  const COMMAND := 0xDF1D
  const RESPONSE := 0xDF1E
  const STATUS := 0xDF1F

  function Ascii(s: string): Bytes {
    seq(|s|, i requires 0 <= i < |s| => (s[i] as int) % 256)
  }

  const OK_LINE := Ascii("00,OK")
  const IDLE_LINE := Ascii("02,NO DATA: 11")
  const NOT_OURS := Ascii("02,NO DATA: 9")
  const CLOSE_UNOWNED := Ascii("12,ERROR ON CLOSE: 9")
  const SEND_ERROR := Ascii("12,SEND ERROR: 9")
  const UNKNOWN := Ascii("21,UNKNOWN COMMAND")
  const INVALID := Ascii("81,INVALID PARAMS")
  const OUT_OF_RANGE := Ascii("82,PARAMETER(S) OUT OF RANGE")
  const IP_CONFIG: Bytes := [10, 43, 23, 81, 255, 255, 255, 0, 10, 43, 23, 1]

  // ------------------------------------------------------------------ time --

  function LoadBlock(d: Device): Device {
    var rest := if d.blocks == [] then [] else d.blocks[1..];
    d.(response := if d.blocks == [] then [] else d.blocks[0],
       blocks := rest, rp := 0, phase := if rest == [] then Last else More)
  }

  predicate Due(d: Device, now: int) {
    d.doneAt.Some? && d.doneAt.value.At? && now >= d.doneAt.value.time
  }

  /** Stage the pending reply once its deadline has passed. */
  function Stage(d: Device, now: int): Device {
    if Due(d, now) && d.pending.Some? then
      LoadBlock(d.(doneAt := None, pending := None, newCommand := false,
                   blocks := d.pending.value.blocks, status := d.pending.value.status, sp := 0))
    else d
  }

  predicate AbortServable(d: Device) {
    d.abortPending && d.doneAt.None? && d.pending.None? && !d.knobs.abortNever
  }

  predicate Resets(d: Device, now: int) {
    AbortServable(d) && d.abortDue.Some? && now >= d.abortDue.value
  }

  function ServeAbort(d: Device, now: int): Device {
    if AbortServable(d) && d.abortDue.None? then d.(abortDue := Some(now + 1))
    else if Resets(d, now) then
      d.(abortDue := None, abortPending := false, phase := Idle, newCommand := false,
         blocks := [], response := [], status := [], rp := 0, sp := 0, cmd := [])
    else d
  }

  function Advance(d: Device, now: int): Device {
    ServeAbort(Stage(d, now), now)
  }

  // ----------------------------------------------------------------- reads --

  function StatusBits(d: Device): Byte {
    16 * d.phase.Code()
    + (if d.phase.Replying() && d.rp < |d.response| then 0x80 else 0)
    + (if d.phase.Replying() && d.sp < |d.status| then 0x40 else 0)
    + (if d.errorBusy then 0x08 else 0)
    + (if d.abortPending then 0x04 else 0)
    + (if d.newCommand then 0x01 else 0)
  }

  datatype Answer = Answer(device: Device, value: Byte)

  function Read(d: Device, now: int, addr: int): Answer {
    ReadNow(Advance(d, now), addr)
  }

  function ReadNow(d: Device, addr: int): Answer {
    if addr == CONTROL then Answer(d, if d.knobs.present then StatusBits(d) else 0xFF)
    else if addr == COMMAND then Answer(d, if d.knobs.present then 0xC9 else 0xFF)
    else if addr == RESPONSE && d.phase.Replying() && d.rp < |d.response| then
      Answer(d.(rp := d.rp + 1), d.response[d.rp])
    else if addr == STATUS && d.phase.Replying() && d.sp < |d.status| then
      Answer(d.(sp := d.sp + 1), d.status[d.sp])
    else Answer(d, 0)
  }

  // ---------------------------------------------------------------- writes --

  predicate PushBit(v: Byte) { v % 2 == 1 }
  predicate AcceptBit(v: Byte) { v / 2 % 2 == 1 }
  predicate AbortBit(v: Byte) { v / 4 % 2 == 1 }
  predicate ClearBit(v: Byte) { v / 8 % 2 == 1 }

  function Blame(d: Device, v: Violation): Device {
    d.(nios := d.nios.(violations := d.nios.violations + [v]))
  }

  function NoteUnread(d: Device): Device {
    if d.rp < |d.response| then Blame(d, UnreadBytes(|d.response| - d.rp)) else d
  }

  function DataAccept(d: Device): Device {
    if d.phase.Replying() then NextBlock(NoteUnread(d)) else d
  }

  function NextBlock(d: Device): Device {
    if d.phase.More? then LoadBlock(d.(accepts := d.accepts + 1, acceptsOnMore := d.acceptsOnMore + 1))
    else d.(accepts := d.accepts + 1, phase := Idle, response := [], status := [], rp := 0, sp := 0)
  }

  /** Everything a control write does before it looks at the PUSH bit. */
  function Control(d: Device, value: Byte): Device {
    var c := Cleared(d, value);
    var a := if AcceptBit(value) then DataAccept(c) else c;
    if AbortBit(value) then a.(aborts := a.aborts + 1, abortPending := true, abortDue := None) else a
  }

  function Cleared(d: Device, value: Byte): Device {
    var b := if AbortBit(value) && PushBit(value) then Blame(d, AbortWithPush) else d;
    if ClearBit(value) then b.(errorBusy := false) else b
  }

  /** `raised`: the Python method left by an exception. */
  datatype Outcome = Outcome(device: Device, raised: bool)

  predicate AcceptsPush(d: Device) {
    d.phase.Idle? && !d.newCommand
  }

  function Push(d: Device, now: int): Outcome {
    if AcceptsPush(d) then Launched(d, now, Execute(d.knobs, d.nios, d.cmd, now))
    else Outcome(d.(errorBusy := true, rejected := d.rejected + 1, cmd := []), false)
  }

  /** BUSY, with the reply and the time it is due if the command has one. */
  function Launched(d: Device, now: int, x: Executed): Outcome {
    var b := d.(phase := Busy, newCommand := true, log := d.log + [(now, d.cmd)], nios := x.nios);
    if x.Raised? then Outcome(b, true)
    else Outcome(b.(pending := Some(Awaited(x)), doneAt := Some(DueAt(x, now)), cmd := []), false)
  }

  function Awaited(x: Executed): Reply
    requires x.Replied?
  {
    if x.delay.Never? then Reply([], []) else x.reply
  }

  function DueAt(x: Executed, now: int): Deadline
    requires x.Replied?
  {
    if x.delay.Never? then Infinity else At(now + x.delay.units)
  }

  /** The device as a control write finds it, just before its PUSH bit acts. */
  function BeforePush(d: Device, now: int, value: Byte): Device {
    Control(Noted(Advance(d, now)), value)
  }

  function Noted(d: Device): Device {
    if d.abortPending then Blame(d, WroteDuringAbort) else d
  }

  function Write(d: Device, now: int, addr: int, value: Byte): Outcome {
    if addr == COMMAND then
      var n := Noted(Advance(d, now));
      Outcome(n.(cmd := n.cmd + [value]), false)
    else if addr == CONTROL then
      var c := BeforePush(d, now, value);
      if PushBit(value) then Push(c, now) else Outcome(c, false)
    else Outcome(Advance(d, now), false)
  }

  // -------------------------------------------------------------- commands --

  datatype Executed =
    | Replied(nios: Nios, reply: Reply, delay: Delay)
    | Raised(nios: Nios)

  predicate IsNetCommand(cmd: Bytes) {
    |cmd| >= 2 && cmd[0] == 0x03
  }

  predicate Claims(cmd: Bytes) {
    IsNetCommand(cmd) && cmd[1] != 0x25 && cmd != [0x03, 0x23, 0xFF]
  }

  function ClaimAll(sessions: map<Byte, Session>): (out: map<Byte, Session>)
    ensures out.Keys == sessions.Keys
  {
    map h | h in sessions :: sessions[h].(claimed := true)
  }

  function Unclaimed(sessions: map<Byte, Session>): set<Byte> {
    set h | h in sessions && !sessions[h].claimed
  }

  function CheckHandle(n: Nios, cmd: Bytes): Nios {
    if |cmd| >= 3 && cmd[2] in n.gone && cmd[2] !in n.sessions
    then n.(violations := n.violations + [HandleGone]) else n
  }

  function OpDelay(k: Knobs, op: Byte): Delay {
    if op in k.never then Never else if op in k.slow then After(k.slow[op]) else After(FAST)
  }

  function Execute(k: Knobs, n: Nios, cmd: Bytes, now: int): Executed {
    if !IsNetCommand(cmd) then Replied(n, Reply([], INVALID), After(FAST))
    else
      Dispatch(k, if Claims(cmd) then n.(sessions := ClaimAll(n.sessions)) else n, cmd, now, OpDelay(k, cmd[1]))
  }

  function Dispatch(k: Knobs, n: Nios, cmd: Bytes, now: int, delay: Delay): Executed
    requires |cmd| >= 2
  {
    var op := cmd[1];
    if op == 0x09 then Close(CheckHandle(n, cmd), cmd, delay)
    else if op == 0x05 then
      if |cmd| < 3 then Raised(n)
      else if cmd[2] != 0 then Replied(n, Reply([], INVALID), delay)
      else Replied(n, Reply([IP_CONFIG], OK_LINE), delay)
    else if op == 0x23 then Info(k, n, cmd, now, delay)
    else if op == 0x25 then Release(k, n, cmd, delay)
    else if op == 0x21 then Open(k, n, delay)
    else if op == 0x10 then ReadData(k, CheckHandle(n, cmd), cmd)
    else if op == 0x11 then WriteData(k, CheckHandle(n, cmd), cmd, delay)
    else Replied(n, Reply([], UNKNOWN), delay)
  }

  function Close(n: Nios, cmd: Bytes, delay: Delay): Executed {
    if |cmd| < 3 then Raised(n)
    else if cmd[2] in n.sessions then
      Replied(n.(sessions := n.sessions - {cmd[2]}), Reply([], OK_LINE), delay)
    else Replied(n, Reply([], CLOSE_UNOWNED), delay)
  }

  function Info(k: Knobs, n: Nios, cmd: Bytes, now: int, delay: Delay): Executed {
    if !k.tls then Replied(n, Reply([], UNKNOWN), delay)
    else if |cmd| != 3 then
      Replied(n.(violations := n.violations + [InfoSize]), Reply([], INVALID), delay)
    else if cmd[2] == 0xFF then
      var ready := k.readyAfter.None? || now >= k.readyAfter.value;
      Replied(n, Reply([if ready then k.info else k.info[4 := 0x03]], OK_LINE), delay)
    else Replied(n, Reply([], INVALID), delay)
  }

  function Release(k: Knobs, n: Nios, cmd: Bytes, delay: Delay): Executed {
    if !k.tls then Replied(n, Reply([], UNKNOWN), delay)
    else if |cmd| != 2 then
      Replied(n.(violations := n.violations + [ReleaseSize]), Reply([], INVALID), delay)
    else
      var open := Unclaimed(n.sessions);
      var scripted := n.releaseDelays != [];
      var n1 := n.(sessions := n.sessions - open,
                   releaseDelays := if scripted then n.releaseDelays[1..] else []);
      if |open| > 255 then Raised(n1)
      else Replied(n1, Reply([[|open|]], OK_LINE), if scripted then n.releaseDelays[0] else delay)
  }

  function OpenReply(h: Byte): Bytes {
    [h, 4, 3, 1, 0x13, 0x1D, 0, 0]
  }

  function Open(k: Knobs, n: Nios, delay: Delay): Executed {
    var d := if 0x21 in k.never then Never else After(k.openDelay);
    if !k.tls then Replied(n, Reply([], UNKNOWN), delay)
    else
      match k.openResult
      case Refuse(status) => Replied(n, Reply([], status), d)
      case Odd(reply) =>
        Replied(n.(sessions := n.sessions[k.nextHandle := Session([], false, None)]), reply, d)
      case Accept(h) =>
        Replied(n.(sessions := n.sessions[h := Session([], false, k.onWrite)], gone := n.gone - {h}),
                Reply([OpenReply(h)], OK_LINE), d)
  }

  function ReadDelay(k: Knobs): Delay {
    if 0x10 in k.never then Never else After(k.readDelay)
  }

  predicate Untracks(status: Bytes) {
    |status| >= 2 && (status[..2] == [0x30, 0x31] || status[..2] == [0x30, 0x35])
  }

  /** READ on an open session whose queue is not empty. */
  function ReadEvent(n: Nios, h: Byte, maxlen: nat, d: Delay): Executed
    requires h in n.sessions && n.sessions[h].rx != [] && 0 < maxlen <= 1472
  {
    var s := n.sessions[h];
    match s.rx[0]
    case Data(bytes) =>
      var chunk := Take(bytes, maxlen);
      var rest := bytes[|chunk|..];
      var rx := if rest != [] then s.rx[0 := Data(rest)] else s.rx[1..];
      Replied(n.(sessions := n.sessions[h := s.(rx := rx)]),
              Reply([U16Le(|chunk|) + chunk], OK_LINE), d)
    case NoData =>
      Replied(n.(sessions := n.sessions[h := s.(rx := s.rx[1..])]),
              Reply([[0xFF, 0xFF]], IDLE_LINE), d)
    case End(status) =>
      Replied(if Untracks(status) then n.(sessions := n.sessions - {h}, gone := n.gone + {h}) else n,
              Reply([[0, 0]], status), d)
  }

  function ReadData(k: Knobs, n: Nios, cmd: Bytes): Executed {
    var d := ReadDelay(k);
    if |cmd| < 5 then Raised(n)
    else
      var h, maxlen := cmd[2], FromU16Le(cmd[3], cmd[4]);
      if maxlen == 0 || maxlen > 1472 then Replied(n, Reply([], OUT_OF_RANGE), d)
      else if h !in n.sessions then
        Replied(n.(gone := n.gone + {h}), Reply([[0xFF, 0xFF]], NOT_OURS), d)
      else if n.forced.Some? then Replied(n.(forced := None), n.forced.value, d)
      else if n.sessions[h].rx == [] then Replied(n, Reply([[0xFF, 0xFF]], IDLE_LINE), d)
      else ReadEvent(n, h, maxlen, d)
  }

  function WriteData(k: Knobs, n: Nios, cmd: Bytes, delay: Delay): Executed {
    if |cmd| < 3 then Raised(n)
    else
      var h := cmd[2];
      if h !in n.sessions then Replied(n, Reply([[0xFF, 0xFF]], SEND_ERROR), delay)
      else if k.writeResult.Some? then Replied(n, k.writeResult.value, delay)
      else
        var s := n.sessions[h];
        var s' := if s.onWrite.Some? then s.(rx := s.rx + s.onWrite.value, onWrite := None) else s;
        var size := |cmd| - 3;
        var n1 := n.(sessions := n.sessions[h := s']);
        if size < 0x10000 then Replied(n1, Reply([U16Le(size)], OK_LINE), delay) else Raised(n1)
  }

  // ------------------------------------------------------------------ runs --

  /** One thing that happens to the device. A `Script` is a test turning knobs,
      `Force` sets the reply blocks of the next READ, `Feed` queues events. */
  datatype Event =
    | Rd(now: int, addr: int)
    | Wr(now: int, addr: int, value: Byte)
    | Script(knobs: Knobs)
    | Force(reply: Reply)
    | Feed(handle: Byte, rx: seq<RxEvent>)

  function FeedSession(n: Nios, h: Byte, rx: seq<RxEvent>): Nios {
    if h in n.sessions then n.(sessions := n.sessions[h := n.sessions[h].(rx := n.sessions[h].rx + rx)]) else n
  }

  function Step(d: Device, e: Event): Outcome {
    match e
    case Rd(now, addr) => Outcome(Read(d, now, addr).device, false)
    case Wr(now, addr, value) => Write(d, now, addr, value)
    case Script(knobs) => Outcome(d.(knobs := knobs), false)
    case Force(reply) => Outcome(d.(nios := d.nios.(forced := Some(reply))), false)
    case Feed(h, rx) => Outcome(d.(nios := FeedSession(d.nios, h, rx)), false)
  }

  /** A run stops at the first exception. */
  function Run(d: Device, es: seq<Event>): Outcome
    decreases |es|
  {
    if es == [] then Outcome(d, false)
    else
      var o := Step(d, es[0]);
      if o.raised then o else Run(o.device, es[1..])
  }

  function Initial(k: Knobs): Device {
    Device(k, Idle, false, false, false, [], [], [], [], 0, 0, None, None, None,
           Nios(map[], {}, [], None, []), [], 0, 0, 0, 0)
  }

  /** The command a step executes, if it is a write whose PUSH is accepted. */
  function Executes(d: Device, e: Event): Option<Bytes> {
    if e.Wr? && e.addr == CONTROL && PushBit(e.value) && AcceptsPush(BeforePush(d, e.now, e.value))
    then Some(BeforePush(d, e.now, e.value).cmd) else None
  }
}
