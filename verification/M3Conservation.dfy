/** Where every queued data byte is while a driver reads one session: nothing is
    duplicated, reordered or lost without an entry in the ledger. */
module M3Conservation {
  import opened Bytes
  import opened M3Model
  import opened M3Registers

  /** How a byte left the device. */
  datatype Fate =
    | Delivered      // returned by a read of $DF1E
    | AbortDrop      // staged when an ABORT reset the handshake
    | AcceptDrop     // unread when its block was accepted
    | EndDrop        // still queued when its session was untracked
    | NeverDrop      // taken by a READ scripted never to complete

  datatype Entry = Entry(byte: Byte, fate: Fate)

  function Mark(bytes: Bytes, fate: Fate): (es: seq<Entry>)
    ensures LedgerBytes(es) == bytes
  {
    seq(|bytes|, i requires 0 <= i < |bytes| => Entry(bytes[i], fate))
  }

  function LedgerBytes(es: seq<Entry>): (bytes: Bytes)
    ensures |bytes| == |es|
  {
    seq(|es|, i requires 0 <= i < |es| => es[i].byte)
  }

  /** The data of a READ block is what follows its two length bytes. */
  function Payload(block: Bytes, from: nat): Bytes {
    block[Min(Max(2, from), |block|)..]
  }

  function PendingData(r: Option<Reply>): Bytes {
    if r.Some? && r.value.blocks != [] then Payload(r.value.blocks[0], 0) else []
  }

  function InFlight(d: Device): Bytes {
    PendingData(d.pending) + Payload(d.response, d.rp)
  }

  function DataOf(rx: seq<RxEvent>): Bytes {
    if rx == [] then [] else (if rx[0].Data? then rx[0].bytes else []) + DataOf(rx[1..])
  }

  /** The data a session's first WRITE releases. */
  function Released(s: Session): Bytes {
    if s.onWrite.Some? then DataOf(s.onWrite.value) else []
  }

  function Queued(n: Nios, h: Byte): Bytes {
    if h in n.sessions then DataOf(n.sessions[h].rx) else []
  }

  /** Single-block replies only: what READs without forced blocks produce. */
  predicate ReadInv(d: Device) {
    && RegisterInv(d) && d.blocks == [] && d.nios.forced.None?
    && (d.pending.Some? ==> |d.pending.value.blocks| <= 1)
  }

  predicate IsRead(cmd: Bytes, h: Byte) {
    |cmd| >= 5 && cmd[0] == 0x03 && cmd[1] == 0x10 && cmd[2] == h
  }

  /** Any read, write or delay whose executed command, if any, is a READ of `h`. */
  predicate Allowed(d: Device, e: Event, h: Byte) {
    && !e.Force? && (e.Feed? ==> e.handle == h)
    && (Executes(d, e).Some? ==> IsRead(Executes(d, e).value, h))
  }

  // ---------------------------------------------------------------- ledger --

  function AdvanceLedger(d: Device, now: int): seq<Entry> {
    var s := Stage(d, now);
    if Resets(s, now) then Mark(Payload(s.response, s.rp), AbortDrop) else []
  }

  function ReadLedger(d: Device, now: int, addr: int): seq<Entry> {
    var a, r := Advance(d, now), Read(d, now, addr);
    AdvanceLedger(d, now) +
    (if r.device.rp == a.rp + 1 && a.rp >= 2 then [Entry(r.value, Delivered)] else [])
  }

  function AcceptLedger(d: Device, value: Byte): seq<Entry> {
    if AcceptBit(value) && d.phase.Replying() then Mark(Payload(d.response, d.rp), AcceptDrop) else []
  }

  function PushLedger(d: Device, now: int, h: Byte): seq<Entry> {
    var x := Execute(d.knobs, d.nios, d.cmd, now);
    (if h !in x.nios.sessions then Mark(Queued(d.nios, h), EndDrop) else []) +
    (if x.Replied? && x.delay.Never? then Mark(PendingData(Some(x.reply)), NeverDrop) else [])
  }

  function LedgerStep(d: Device, e: Event, h: Byte): seq<Entry> {
    match e
    case Rd(now, addr) => ReadLedger(d, now, addr)
    case Wr(now, addr, value) =>
      AdvanceLedger(d, now) +
      (if addr == CONTROL then AcceptLedger(Noted(Advance(d, now)), value) else []) +
      (if Executes(d, e).Some? then PushLedger(BeforePush(d, now, value), now, h) else [])
    case _ => []
  }

  function Fed(d: Device, e: Event, h: Byte): Bytes {
    if e.Feed? && h in d.nios.sessions then DataOf(e.rx) else []
  }

  // ----------------------------------------------------------- conservation --

  lemma StageConserves(d: Device, now: int)
    requires ReadInv(d)
    ensures var s := Stage(d, now); ReadInv(s) && s.nios == d.nios && InFlight(s) == InFlight(d)
  {
    hide Payload;
    assert Payload([], 0) == [] by { EmptyPayload(0); }
    if Due(d, now) && d.pending.Some? {
      EmptyPayload(d.rp);
      var r := d.pending.value;
      assert r.blocks == [] || r.blocks == [r.blocks[0]];
      assert InFlight(d) == PendingData(d.pending) + [] == PendingData(d.pending);
      assert InFlight(Stage(d, now)) == [] + Payload(Stage(d, now).response, 0);
    }
  }

  lemma EmptyPayload(rp: nat)
    ensures Payload([], rp) == []
  {
  }

  lemma ServeConserves(d: Device, now: int)
    requires ReadInv(d)
    ensures var a := ServeAbort(d, now);
      && ReadInv(a) && a.nios == d.nios
      && InFlight(d) == (if Resets(d, now) then Payload(d.response, d.rp) else []) + InFlight(a)
  {
    hide Payload;
    EmptyPayload(0);
    EmptyPayload(d.rp);
    if Resets(d, now) {
      assert InFlight(d) == [] + Payload(d.response, d.rp);
      assert InFlight(ServeAbort(d, now)) == [];
      assert InFlight(d) == InFlight(d) + [];
    } else {
      assert InFlight(d) == [] + InFlight(d);
    }
  }

  lemma AdvanceConserves(d: Device, now: int)
    requires ReadInv(d)
    ensures var a := Advance(d, now);
      && ReadInv(a) && a.nios == d.nios
      && LedgerBytes(AdvanceLedger(d, now)) + InFlight(a) == InFlight(d)
  {
    hide ReadInv, InFlight, Payload, Stage, ServeAbort, Resets;
    StageConserves(d, now);
    ServeConserves(Stage(d, now), now);
  }

  lemma PayloadStep(block: Bytes, rp: nat)
    requires rp < |block|
    ensures rp >= 2 ==> Payload(block, rp) == [block[rp]] + Payload(block, rp + 1)
    ensures rp < 2 ==> Payload(block, rp) == Payload(block, rp + 1)
  {
  }

  lemma ReadNowConserves(d: Device, addr: int)
    requires ReadInv(d)
    ensures var r := ReadNow(d, addr);
      && ReadInv(r.device) && r.device.nios == d.nios
      && InFlight(d) ==
        (if r.device.rp == d.rp + 1 && d.rp >= 2 then [r.value] else []) + InFlight(r.device)
  {
    hide StatusBits, Payload;
    if d.rp < |d.response| {
      PayloadStep(d.response, d.rp);
    }
    assert d.phase.Replying() ==> d.pending.None?;
    assert [] + InFlight(d) == InFlight(d);
  }

  lemma ReadConserves(d: Device, now: int, addr: int)
    requires ReadInv(d)
    ensures var r := Read(d, now, addr).device;
      && ReadInv(r) && r.nios == d.nios
      && LedgerBytes(ReadLedger(d, now, addr)) + InFlight(r) == InFlight(d)
  {
    AdvanceConserves(d, now);
    var a, r := Advance(d, now), Read(d, now, addr);
    ReadNowConserves(a, addr);
    hide Advance, AdvanceLedger, ReadNow, InFlight, ReadInv;
    var l1 := AdvanceLedger(d, now);
    var l2 := if r.device.rp == a.rp + 1 && a.rp >= 2 then [Entry(r.value, Delivered)] else [];
    assert ReadLedger(d, now, addr) == l1 + l2;
    assert LedgerBytes(l2) == if r.device.rp == a.rp + 1 && a.rp >= 2 then [r.value] else [];
    hide ReadLedger, Read, LedgerBytes;
    JoinTwo(l1, l2);
    Regroup2(LedgerBytes(l1), LedgerBytes(l2), InFlight(r.device), InFlight(a), InFlight(d));
  }

  lemma DataAcceptConserves(d: Device)
    requires ReadInv(d)
    ensures var a := DataAccept(d);
      && ReadInv(a) && a.nios.sessions == d.nios.sessions
      && (d.phase.Replying() ==> InFlight(d) == Payload(d.response, d.rp) && InFlight(a) == [])
      && (!d.phase.Replying() ==> a == d)
  {
    AcceptKeeps(d);
    if d.phase.Replying() {
      assert d.pending.None? && d.phase.Last?;
      assert Payload([], 0) == [];
      assert InFlight(d) == [] + Payload(d.response, d.rp);
    }
  }

  lemma ClearedConserves(d: Device, value: Byte)
    requires ReadInv(d)
    ensures var c := Cleared(d, value);
      && ReadInv(c) && c.nios.sessions == d.nios.sessions && InFlight(c) == InFlight(d)
      && c.phase == d.phase && c.response == d.response && c.rp == d.rp
  {
    hide PushBit, AbortBit, ClearBit, Payload;
  }

  lemma AbortConserves(d: Device)
    requires ReadInv(d)
    ensures var a := d.(aborts := d.aborts + 1, abortPending := true, abortDue := None);
      ReadInv(a) && InFlight(a) == InFlight(d)
  {
    hide Payload;
  }

  lemma AcceptConserves(d: Device, value: Byte)
    requires ReadInv(d)
    ensures var c := Control(d, value);
      && ReadInv(c) && c.nios.sessions == d.nios.sessions
      && LedgerBytes(AcceptLedger(d, value)) + InFlight(c) == InFlight(d)
  {
    hide PushBit, AcceptBit, AbortBit, ClearBit, Payload, Cleared, DataAccept, RegisterInv, ReadInv, InFlight;
    ClearedConserves(d, value);
    var c := Cleared(d, value);
    DataAcceptConserves(c);
    var a := if AcceptBit(value) then DataAccept(c) else c;
    AbortConserves(a);
    assert InFlight(d) + [] == InFlight(d) == [] + InFlight(d);
  }

  lemma ChunkSplits(rx: seq<RxEvent>, maxlen: nat)
    requires rx != [] && rx[0].Data?
    ensures var chunk := Take(rx[0].bytes, maxlen);
      var rest := rx[0].bytes[|chunk|..];
      chunk + DataOf(if rest != [] then rx[0 := Data(rest)] else rx[1..]) == DataOf(rx)
  {
    var bytes := rx[0].bytes;
    var chunk := Take(bytes, maxlen);
    var rest := bytes[|chunk|..];
    assert chunk + rest == bytes;
    var rx' := rx[0 := Data(rest)];
    assert rx'[1..] == rx[1..];
    assert DataOf(rx') == rest + DataOf(rx[1..]);
    assert chunk + (rest + DataOf(rx[1..])) == bytes + DataOf(rx[1..]);
  }

  /** What READ does once its handle has been checked: bytes move from the queue to
      the reply and nowhere else. */
  lemma ReadDataMoves(k: Knobs, n: Nios, cmd: Bytes, h: Byte)
    requires |cmd| >= 5 && cmd[2] == h && n.forced.None?
    ensures var x := ReadData(k, n, cmd);
      && x.Replied? && |x.reply.blocks| <= 1 && x.nios.forced.None? && x.delay == ReadDelay(k)
      && (h in x.nios.sessions ==> PendingData(Some(x.reply)) + Queued(x.nios, h) == Queued(n, h))
      && (h !in x.nios.sessions ==>
          PendingData(Some(x.reply)) == [] && (0 < FromU16Le(cmd[3], cmd[4]) <= 1472 ==> h in x.nios.gone))
      && x.nios.sessions - {h} == n.sessions - {h}
  {
    var maxlen := FromU16Le(cmd[3], cmd[4]);
    if 0 < maxlen <= 1472 && h in n.sessions && n.sessions[h].rx != [] {
      var rx := n.sessions[h].rx;
      var x := ReadEvent(n, h, maxlen, ReadDelay(k));
      assert ReadData(k, n, cmd) == x;
      if rx[0].Data? {
        ChunkSplits(rx, maxlen);
        var chunk := Take(rx[0].bytes, maxlen);
        assert Payload(U16Le(|chunk|) + chunk, 0) == chunk;
      } else {
        assert x.reply.blocks[0][2..] == [];
      }
    }
  }

  /** What a READ answers, as its reader decodes it: a length, low byte first, and
      that many bytes from the head of the queue; 0xFFFF for nothing there, zero for
      the end of the session. */
  predicate AnswersFrom(rx: seq<RxEvent>, most: nat, b: Bytes, line: Bytes)
    requires |b| >= 2
  {
    && (b == [0xFF, 0xFF] <==> rx == [] || rx[0].NoData?)
    && (b == [0xFF, 0xFF] ==> line == IDLE_LINE)
    && (rx != [] && rx[0].Data? ==>
        && b[0] as int + 256 * b[1] as int == |b| - 2 == Min(most, |rx[0].bytes|)
        && b[2..] == rx[0].bytes[..|b| - 2] && line == OK_LINE)
    && (b == [0, 0] <==> rx != [] && (rx[0].End? || rx[0] == Data([])))
    && (rx != [] && rx[0].End? ==> line == rx[0].status)
  }

  predicate AnswersRead(n: Nios, cmd: Bytes, reply: Reply)
    requires |cmd| >= 5
  {
    var h, most := cmd[2], cmd[3] as int + 256 * cmd[4] as int;
    && (most == 0 || most > 1472 ==> reply == Reply([], OUT_OF_RANGE))
    && (0 < most <= 1472 && h !in n.sessions ==> reply == Reply([[0xFF, 0xFF]], NOT_OURS))
    && (0 < most <= 1472 && h in n.sessions ==>
        && |reply.blocks| == 1 && |reply.blocks[0]| >= 2
        && AnswersFrom(n.sessions[h].rx, most, reply.blocks[0], reply.status))
  }

  lemma LengthHeader(chunk: Bytes)
    requires |chunk| <= 1472
    ensures var b := U16Le(|chunk|) + chunk;
      && |b| == |chunk| + 2 && b[0] as int + 256 * b[1] as int == |chunk| && b[2..] == chunk
      && b != [0xFF, 0xFF] && (b == [0, 0] <==> chunk == [])
  {
    var b := U16Le(|chunk|) + chunk;
    assert b[0] == |chunk| % 256 && b[1] == |chunk| / 256;
  }

  lemma HeadTaken(bytes: Bytes, most: nat)
    ensures |Take(bytes, most)| == Min(most, |bytes|) && Take(bytes, most) == bytes[..Min(most, |bytes|)]
  {
  }

  lemma EventAnswers(n: Nios, h: Byte, most: nat, d: Delay)
    requires h in n.sessions && n.sessions[h].rx != [] && 0 < most <= 1472
    ensures var r := ReadEvent(n, h, most, d).reply;
      |r.blocks| == 1 && |r.blocks[0]| >= 2 && AnswersFrom(n.sessions[h].rx, most, r.blocks[0], r.status)
  {
    hide OK_LINE, IDLE_LINE, Untracks, Take, U16Le;
    match n.sessions[h].rx[0] {
      case Data(bytes) =>
        HeadTaken(bytes, most);
        LengthHeader(Take(bytes, most));
        hide ReadEvent;
        assert ReadEvent(n, h, most, d).reply == Reply([U16Le(|Take(bytes, most)|) + Take(bytes, most)], OK_LINE) by {
          EventReply(n, h, most, d);
        }
      case _ =>
    }
  }

  lemma EventReply(n: Nios, h: Byte, most: nat, d: Delay)
    requires h in n.sessions && n.sessions[h].rx != [] && n.sessions[h].rx[0].Data? && 0 < most <= 1472
    ensures var chunk := Take(n.sessions[h].rx[0].bytes, most);
      |chunk| <= 1472 && ReadEvent(n, h, most, d).reply == Reply([U16Le(|chunk|) + chunk], OK_LINE)
  {
    hide OK_LINE;
  }

  lemma ReadAnswers(k: Knobs, n: Nios, cmd: Bytes)
    requires |cmd| >= 5 && n.forced.None?
    ensures AnswersRead(n, cmd, ReadData(k, n, cmd).reply)
  {
    hide OK_LINE, IDLE_LINE, NOT_OURS, OUT_OF_RANGE, ReadEvent, AnswersFrom;
    var h, most := cmd[2], FromU16Le(cmd[3], cmd[4]);
    if 0 < most <= 1472 && h in n.sessions {
      if n.sessions[h].rx != [] {
        EventAnswers(n, h, most, ReadDelay(k));
      } else {
        NothingThere(most);
      }
    }
  }

  lemma NothingThere(most: nat)
    ensures AnswersFrom([], most, [0xFF, 0xFF], IDLE_LINE)
  {
    hide IDLE_LINE;
  }

  /** What a READ leaves of the queue: the rest of the data it took from, the queue
      past a pause, and an end of session that stays unless it untracks the handle. */
  predicate QueueAfter(rx: seq<RxEvent>, most: nat, left: seq<RxEvent>) {
    if rx == [] then left == []
    else
      match rx[0]
      case Data(bytes) => left == (if |bytes| > most then [Data(bytes[most..])] else []) + rx[1..]
      case NoData => left == rx[1..]
      case End(_) => left == rx
  }

  lemma ReadLeaves(k: Knobs, n: Nios, cmd: Bytes)
    requires |cmd| >= 5 && n.forced.None?
    ensures var x, h, most := ReadData(k, n, cmd).nios, cmd[2], cmd[3] as int + 256 * cmd[4] as int;
      && (0 < most <= 1472 && h in n.sessions && h in x.sessions ==>
          && QueueAfter(n.sessions[h].rx, most, x.sessions[h].rx)
          && x.sessions[h].claimed == n.sessions[h].claimed && x.sessions[h].onWrite == n.sessions[h].onWrite)
      && (most == 0 || most > 1472 || h !in n.sessions ==> x.sessions == n.sessions)
  {
    hide OK_LINE, IDLE_LINE, NOT_OURS, OUT_OF_RANGE, U16Le, Untracks;
    var h, most := cmd[2], FromU16Le(cmd[3], cmd[4]);
    if 0 < most <= 1472 && h in n.sessions && n.sessions[h].rx != [] && n.sessions[h].rx[0].Data? {
      var rx := n.sessions[h].rx;
      var bytes := rx[0].bytes;
      HeadTaken(bytes, most);
      assert [] + rx[1..] == rx[1..];
      assert |bytes| > most ==> rx[0 := Data(bytes[most..])] == [Data(bytes[most..])] + rx[1..];
    }
  }

  lemma ShortReadRaises(k: Knobs, n: Nios, cmd: Bytes)
    requires |cmd| < 5
    ensures ReadData(k, n, cmd) == Raised(n)
  {
  }

  /** A reply scripted for the next READ is given once, whatever is queued. */
  lemma ForcedIsUsed(k: Knobs, n: Nios, cmd: Bytes)
    requires |cmd| >= 5
    ensures var x, most := ReadData(k, n, cmd), cmd[3] as int + 256 * cmd[4] as int;
      && x.Replied?
      && (n.forced.Some? && 0 < most <= 1472 && cmd[2] in n.sessions ==>
        x.reply == n.forced.value && x.nios == n.(forced := None))
  {
    hide ReadEvent;
    if n.forced.None? { ReadDataMoves(k, n, cmd, cmd[2]); }
  }

  /** A handle that a READ finds not open, or ends, is gone. */
  lemma ReadMarksGone(k: Knobs, n: Nios, cmd: Bytes)
    requires |cmd| >= 5 && n.forced.None?
    ensures var x := ReadData(k, n, cmd); var h, most := cmd[2], cmd[3] as int + 256 * cmd[4] as int;
      && (0 < most <= 1472 && h !in x.nios.sessions ==> x.nios.gone == n.gone + {h})
      && (h in x.nios.sessions || most == 0 || most > 1472 ==> x.nios.gone == n.gone)
      && (h in n.sessions && h !in x.nios.sessions ==>
        && n.sessions[h].rx != [] && n.sessions[h].rx[0].End? && 0 < most <= 1472
        && var line := n.sessions[h].rx[0].status;
           |line| >= 2 && line[0] == '0' as int && (line[1] == '1' as int || line[1] == '5' as int))
  {
    hide OK_LINE, IDLE_LINE, NOT_OURS, OUT_OF_RANGE, Take, U16Le;
  }

  /** The first WRITE on a session appends its scripted response to the queue, no
      later one does, and no other session is touched. */
  lemma WriteReleases(k: Knobs, n: Nios, cmd: Bytes, delay: Delay)
    ensures var x := WriteData(k, n, cmd, delay);
      if |cmd| >= 3 && cmd[2] in n.sessions && k.writeResult.None? then
        var h := cmd[2];
        && h in x.nios.sessions && x.nios.sessions[h].onWrite.None?
        && Queued(x.nios, h) == Queued(n, h) + Released(n.sessions[h])
        && x.nios.sessions - {h} == n.sessions - {h}
      else x.nios.sessions == n.sessions
  {
    if |cmd| >= 3 && cmd[2] in n.sessions && k.writeResult.None? {
      var s := n.sessions[cmd[2]];
      if s.onWrite.Some? {
        DataOfAppend(s.rx, s.onWrite.value);
      } else {
        assert DataOf(s.rx) + [] == DataOf(s.rx);
      }
    }
  }

  /** A READ moves bytes from the queue to its reply and nowhere else. */
  lemma ReadMoves(k: Knobs, n: Nios, cmd: Bytes, now: int, h: Byte)
    requires IsRead(cmd, h) && n.forced.None?
    ensures var x := Execute(k, n, cmd, now);
      && x.Replied? && |x.reply.blocks| <= 1 && x.nios.forced.None?
      && x.delay == ReadDelay(k)
      && (h in x.nios.sessions ==> PendingData(Some(x.reply)) + Queued(x.nios, h) == Queued(n, h))
      && (h !in x.nios.sessions ==> PendingData(Some(x.reply)) == [])
  {
    hide ReadData;
    var n1 := CheckHandle(n.(sessions := ClaimAll(n.sessions)), cmd);
    assert Execute(k, n, cmd, now) == ReadData(k, n1, cmd);
    assert Queued(n1, h) == Queued(n, h);
    ReadDataMoves(k, n1, cmd, h);
  }

  lemma IdleHoldsNothing(d: Device)
    requires RegisterInv(d) && AcceptsPush(d)
    ensures InFlight(d) == []
  {
    assert Payload([], d.rp) == [];
  }

  /** The bytes an accepted READ takes off the queue are pending, dropped with
      their session, or lost to a reply that never comes. */
  lemma AcceptedPushConserves(d: Device, now: int, h: Byte)
    requires ReadInv(d) && AcceptsPush(d) && IsRead(d.cmd, h)
    ensures var o := Push(d, now);
      && !o.raised && ReadInv(o.device)
      && LedgerBytes(PushLedger(d, now, h)) + InFlight(o.device) + Queued(o.device.nios, h) == Queued(d.nios, h)
  {
    hide Execute, Unanswerable, RegisterInv, Payload, IsRead, Queued, PendingData;
    PushKeeps(d, now);
    ReadMoves(d.knobs, d.nios, d.cmd, now, h);
    var x := Execute(d.knobs, d.nios, d.cmd, now);
    var data := PendingData(Some(x.reply));
    var ended := if h !in x.nios.sessions then Queued(d.nios, h) else [];
    var lost := if x.delay.Never? then data else [];
    var o := Push(d, now).device;
    NothingPending();
    IdleHoldsNothing(d);
    EmptyResponse(d);
    assert LedgerBytes(PushLedger(d, now, h)) == ended + lost;
    assert InFlight(o) == (if x.delay.Never? then [] else data) + [];
    GoneHasNoQueue(x.nios, h);
    PlacesAdd(ended, lost, InFlight(o), Queued(o.nios, h), data, Queued(d.nios, h), h in x.nios.sessions);
  }

  lemma NothingPending()
    ensures PendingData(Some(Reply([], []))) == []
  {
  }

  lemma EmptyResponse(d: Device)
    requires RegisterInv(d) && AcceptsPush(d)
    ensures Payload(d.response, d.rp) == []
  {
    assert d.response == [];
  }

  lemma GoneHasNoQueue(n: Nios, h: Byte)
    ensures h !in n.sessions ==> Queued(n, h) == []
  {
  }

  lemma PlacesAdd(ended: Bytes, lost: Bytes, f: Bytes, q: Bytes, data: Bytes, queue: Bytes, open: bool)
    requires lost + f == data
    requires if open then ended == [] && data + q == queue else ended == queue && data == [] && q == []
    ensures ended + lost + f + q == queue
  {
    assert ended + lost + f + q == ended + (lost + f) + q;
  }

  lemma PushConserves(d: Device, now: int, h: Byte)
    requires ReadInv(d)
    requires AcceptsPush(d) ==> IsRead(d.cmd, h)
    ensures var o := Push(d, now);
      var gone := if AcceptsPush(d) then PushLedger(d, now, h) else [];
      && !o.raised && ReadInv(o.device)
      && LedgerBytes(gone) + InFlight(o.device) + Queued(o.device.nios, h) == InFlight(d) + Queued(d.nios, h)
  {
    hide Execute, Unanswerable, RegisterInv, Payload, IsRead, Queued, PendingData, PushLedger;
    if AcceptsPush(d) {
      AcceptedPushConserves(d, now, h);
      IdleHoldsNothing(d);
      assert [] + Queued(d.nios, h) == Queued(d.nios, h);
    } else {
      PushKeeps(d, now);
      assert InFlight(Push(d, now).device) == InFlight(d);
      assert [] + InFlight(d) == InFlight(d);
    }
  }

  lemma {:induction false} DataOfAppend(a: seq<RxEvent>, b: seq<RxEvent>)
    ensures DataOf(a + b) == DataOf(a) + DataOf(b)
  {
    if a == [] {
      assert a + b == b;
    } else {
      DataOfAppend(a[1..], b);
      assert (a + b)[0] == a[0] && (a + b)[1..] == a[1..] + b;
      var first, rest, more := if a[0].Data? then a[0].bytes else [], DataOf(a[1..]), DataOf(b);
      assert DataOf(a + b) == first + (rest + more);
      assert DataOf(a) == first + rest;
      Regroup2(first, rest, more, rest + more, first + (rest + more));
    }
  }

  lemma NotedConserves(d: Device, now: int)
    requires ReadInv(d)
    ensures var n := Noted(Advance(d, now));
      && ReadInv(n) && n.nios.sessions == d.nios.sessions
      && LedgerBytes(AdvanceLedger(d, now)) + InFlight(n) == InFlight(d)
  {
    AdvanceConserves(d, now);
    var a := Advance(d, now);
    NotedKeeps(a);
    hide Advance, AdvanceLedger, RegisterInv;
    assert InFlight(Noted(a)) == InFlight(a);
  }

  lemma ControlConserves(d: Device, e: Event, h: Byte)
    requires ReadInv(d) && Allowed(d, e, h) && e.Wr? && e.addr == CONTROL
    ensures var o := Step(d, e);
      && !o.raised && ReadInv(o.device)
      && LedgerBytes(LedgerStep(d, e, h)) + InFlight(o.device) + Queued(o.device.nios, h)
         == InFlight(d) + Queued(d.nios, h)
  {
    hide PushBit, RegisterInv, AdvanceLedger, Advance, Noted, Control, AcceptLedger, InFlight, PushLedger, Push;
    hide Execute, LedgerBytes, IsRead;
    NotedConserves(d, e.now);
    var n := Noted(Advance(d, e.now));
    AcceptConserves(n, e.value);
    var c := Control(n, e.value);
    var l1, l2, q := AdvanceLedger(d, e.now), AcceptLedger(n, e.value), Queued(d.nios, h);
    var l3 := if PushBit(e.value) && AcceptsPush(c) then PushLedger(c, e.now, h) else [];
    var o := Step(d, e).device;
    assert LedgerStep(d, e, h) == l1 + l2 + l3;
    if PushBit(e.value) {
      PushConserves(c, e.now, h);
    } else {
      assert LedgerBytes([]) == [];
      assert [] + InFlight(c) + q == InFlight(c) + q;
    }
    JoinLedger(l1, l2, l3);
    Regroup(LedgerBytes(l1), LedgerBytes(l2), LedgerBytes(l3), InFlight(o), Queued(o.nios, h), InFlight(c), q,
            InFlight(n), InFlight(d));
  }

  lemma WriteConserves(d: Device, e: Event, h: Byte)
    requires ReadInv(d) && Allowed(d, e, h) && e.Wr?
    ensures var o := Step(d, e);
      && !o.raised && ReadInv(o.device)
      && LedgerBytes(LedgerStep(d, e, h)) + InFlight(o.device) + Queued(o.device.nios, h)
         == InFlight(d) + Queued(d.nios, h)
  {
    hide Advance, AdvanceLedger, Noted, RegisterInv;
    if e.addr == CONTROL {
      ControlConserves(d, e, h);
    } else {
      NotedConserves(d, e.now);
      AdvanceConserves(d, e.now);
      var a := Advance(d, e.now);
      var n := Noted(a);
      CmdKeeps(n, n.cmd + [e.value]);
      var o := Step(d, e).device;
      assert o == a || o == n.(cmd := n.cmd + [e.value]);
      assert LedgerStep(d, e, h) == AdvanceLedger(d, e.now) + [] + [] == AdvanceLedger(d, e.now);
    }
  }

  lemma NotedKeeps(d: Device)
    requires RegisterInv(d)
    ensures RegisterInv(Noted(d))
  {
  }

  lemma CmdKeeps(d: Device, cmd: Bytes)
    requires RegisterInv(d)
    ensures RegisterInv(d.(cmd := cmd))
  {
  }

  lemma JoinLedger(a: seq<Entry>, b: seq<Entry>, c: seq<Entry>)
    ensures LedgerBytes(a + b + c) == LedgerBytes(a) + LedgerBytes(b) + LedgerBytes(c)
  {
  }

  lemma JoinTwo(a: seq<Entry>, b: seq<Entry>)
    ensures LedgerBytes(a + b) == LedgerBytes(a) + LedgerBytes(b)
  {
  }

  lemma Regroup2(a: Bytes, b: Bytes, f: Bytes, f1: Bytes, f2: Bytes)
    requires b + f == f1 && a + f1 == f2
    ensures a + b + f == f2
  {
    assert a + b + f == a + (b + f);
  }

  lemma Regroup(a: Bytes, b: Bytes, c: Bytes, f: Bytes, q: Bytes, f1: Bytes, q1: Bytes, f2: Bytes, f3: Bytes)
    requires c + f + q == f1 + q1 && b + f1 == f2 && a + f2 == f3
    ensures a + b + c + f + q == f3 + q1
  {
    assert a + b + c + f + q == a + b + (c + f + q);
    assert a + b + (f1 + q1) == a + (b + f1) + q1;
  }

  lemma FeedConserves(d: Device, g: Byte, rx: seq<RxEvent>, h: Byte)
    requires ReadInv(d) && g == h
    ensures var o := Step(d, Feed(g, rx)).device;
      && ReadInv(o) && InFlight(o) == InFlight(d)
      && Queued(o.nios, h) == Queued(d.nios, h) + Fed(d, Feed(g, rx), h)
  {
    hide RegisterInv, Payload;
    NiosKeeps(d, FeedSession(d.nios, h, rx));
    if h in d.nios.sessions {
      DataOfAppend(d.nios.sessions[h].rx, rx);
    }
  }

  lemma NiosKeeps(d: Device, n: Nios)
    requires RegisterInv(d)
    ensures RegisterInv(d.(nios := n))
  {
  }

  lemma ScriptConserves(d: Device, k: Knobs)
    requires ReadInv(d)
    ensures ReadInv(d.(knobs := k)) && InFlight(d.(knobs := k)) == InFlight(d)
  {
    hide Payload;
  }

  /** One step moves each byte to exactly one place, in queue order. */
  lemma StepConserves(d: Device, e: Event, h: Byte)
    requires ReadInv(d) && Allowed(d, e, h)
    ensures var o := Step(d, e);
      && !o.raised && ReadInv(o.device)
      && LedgerBytes(LedgerStep(d, e, h)) + InFlight(o.device) + Queued(o.device.nios, h)
         == InFlight(d) + Queued(d.nios, h) + Fed(d, e, h)
  {
    hide ReadInv, InFlight, Queued, Read, Write, ReadLedger, DataOf, BeforePush, PushBit, IsRead, FeedSession;
    var f, q := InFlight(d), Queued(d.nios, h);
    assert f + q + [] == f + q == [] + f + q;
    match e {
      case Rd(now, addr) => ReadConserves(d, now, addr);
      case Wr(now, addr, value) =>
        WriteConserves(d, e, h);
        hide LedgerStep;
      case Feed(g, rx) =>
        FeedConserves(d, g, rx, h);
        assert [] + f + (q + Fed(d, e, h)) == f + q + Fed(d, e, h);
      case Script(k) => ScriptConserves(d, k);
      case Force(_) =>
    }
  }

  // ------------------------------------------------------------------- runs --

  predicate AllowedRun(d: Device, es: seq<Event>, h: Byte)
    decreases |es|
  {
    es == [] || (Allowed(d, es[0], h) && AllowedRun(Step(d, es[0]).device, es[1..], h))
  }

  function Ledger(d: Device, es: seq<Event>, h: Byte): seq<Entry>
    decreases |es|
  {
    if es == [] then [] else LedgerStep(d, es[0], h) + Ledger(Step(d, es[0]).device, es[1..], h)
  }

  function Supply(d: Device, es: seq<Event>, h: Byte): Bytes
    decreases |es|
  {
    if es == [] then [] else Fed(d, es[0], h) + Supply(Step(d, es[0]).device, es[1..], h)
  }

  lemma {:induction false} RunConserves(d: Device, es: seq<Event>, h: Byte)
    requires ReadInv(d) && AllowedRun(d, es, h)
    ensures var o := Run(d, es);
      && !o.raised && ReadInv(o.device)
      && LedgerBytes(Ledger(d, es, h)) + InFlight(o.device) + Queued(o.device.nios, h)
         == InFlight(d) + Queued(d.nios, h) + Supply(d, es, h)
    decreases |es|
  {
    if es == [] {
      var f, q := InFlight(d), Queued(d.nios, h);
      hide InFlight, Queued, ReadInv;
      assert f + q + [] == f + q == [] + f + q;
    } else {
      StepConserves(d, es[0], h);
      var d1 := Step(d, es[0]).device;
      RunConserves(d1, es[1..], h);
      var o := Run(d1, es[1..]).device;
      hide Step, LedgerStep, ReadInv, InFlight, Queued, Fed, LedgerBytes, Allowed;
      var l1, l2 := LedgerStep(d, es[0], h), Ledger(d1, es[1..], h);
      JoinTwo(l1, l2);
      Chain(LedgerBytes(l1), LedgerBytes(l2), InFlight(o), Queued(o.nios, h),
            InFlight(d1), Queued(d1.nios, h), Supply(d1, es[1..], h),
            InFlight(d) + Queued(d.nios, h), Fed(d, es[0], h));
    }
  }

  lemma Chain(a: Bytes, b: Bytes, f: Bytes, q: Bytes, f1: Bytes, q1: Bytes, s: Bytes, had: Bytes, fed: Bytes)
    requires b + f + q == f1 + q1 + s && a + f1 + q1 == had + fed
    ensures a + b + f + q == had + (fed + s)
  {
    assert a + b + f + q == a + (b + f + q) == a + f1 + q1 + s;
  }

  function DeliveredBytes(es: seq<Entry>): Bytes {
    if es == [] then []
    else (if es[0].fate.Delivered? then [es[0].byte] else []) + DeliveredBytes(es[1..])
  }

  lemma {:induction false} DeliveredAppend(a: seq<Entry>, b: seq<Entry>)
    ensures DeliveredBytes(a + b) == DeliveredBytes(a) + DeliveredBytes(b)
  {
    if a == [] {
      assert a + b == b;
    } else {
      DeliveredAppend(a[1..], b);
      var head := if a[0].fate.Delivered? then [a[0].byte] else [];
      assert (a + b)[0] == a[0] && (a + b)[1..] == a[1..] + b;
      assert DeliveredBytes(a + b) == head + DeliveredBytes(a[1..] + b);
      assert DeliveredBytes(a) == head + DeliveredBytes(a[1..]);
      var tail, more := DeliveredBytes(a[1..]), DeliveredBytes(b);
      hide DeliveredBytes;
      assert head + (tail + more) == head + tail + more;
    }
  }

  lemma {:induction false} DropsDeliverNothing(es: seq<Entry>)
    requires forall i :: 0 <= i < |es| ==> !es[i].fate.Delivered?
    ensures DeliveredBytes(es) == []
  {
    if es != [] {
      DropsDeliverNothing(es[1..]);
    }
  }

  lemma AdvanceDelivers(d: Device, now: int)
    ensures DeliveredBytes(AdvanceLedger(d, now)) == []
  {
    hide Stage, Resets, Payload;
    DropsDeliverNothing(AdvanceLedger(d, now));
  }

  /** Nothing but a read of the device hands a byte to the driver. */
  lemma OnlyReadsDeliver(d: Device, e: Event, h: Byte)
    requires !e.Rd?
    ensures DeliveredBytes(LedgerStep(d, e, h)) == []
  {
    hide Stage, Resets, Payload, Advance, Noted, BeforePush, Execute, Queued, PendingData, AcceptBit, PushBit;
    DropsDeliverNothing(LedgerStep(d, e, h));
  }

  /** `s` is `t` with some elements left out, order kept. */
  predicate Subsequence(s: Bytes, t: Bytes) {
    s == [] || (t != [] && ((s[0] == t[0] && Subsequence(s[1..], t[1..])) || Subsequence(s, t[1..])))
  }

  lemma {:induction false} DeliveredInOrder(es: seq<Entry>, more: Bytes)
    ensures Subsequence(DeliveredBytes(es), LedgerBytes(es) + more)
    ensures (forall i :: 0 <= i < |es| ==> es[i].fate.Delivered?) ==> DeliveredBytes(es) == LedgerBytes(es)
  {
    if es != [] {
      DeliveredInOrder(es[1..], more);
      var t := LedgerBytes(es) + more;
      assert t[0] == es[0].byte && t[1..] == LedgerBytes(es[1..]) + more;
      assert LedgerBytes(es) == [es[0].byte] + LedgerBytes(es[1..]);
      if es[0].fate.Delivered? {
        assert DeliveredBytes(es)[1..] == DeliveredBytes(es[1..]);
      } else {
        assert DeliveredBytes(es) == DeliveredBytes(es[1..]);
      }
    }
  }

  /** Byte conservation: whatever a driver does while it reads session `h`, the
      bytes that have left, those in flight and those still queued are together
      exactly the bytes queued for it, in order; what it received is in queue
      order, and is a prefix if nothing was dropped. */
  lemma ByteConservation(d: Device, es: seq<Event>, h: Byte)
    requires ReadInv(d) && AllowedRun(d, es, h) && InFlight(d) == []
    ensures var l := Ledger(d, es, h);
      var end := Run(d, es).device;
      var queue := Queued(d.nios, h) + Supply(d, es, h);
      && LedgerBytes(l) + InFlight(end) + Queued(end.nios, h) == queue
      && Subsequence(DeliveredBytes(l), queue)
      && ((forall i :: 0 <= i < |l| ==> l[i].fate.Delivered?) ==> DeliveredBytes(l) <= queue)
  {
    RunConserves(d, es, h);
    hide ReadInv, AllowedRun, Run, InFlight, Queued, Supply, Ledger, DeliveredBytes, Subsequence;
    var l, end := Ledger(d, es, h), Run(d, es).device;
    hide LedgerBytes;
    DropEmpty(InFlight(d), Queued(d.nios, h), Supply(d, es, h));
    Conclude(l, InFlight(end), Queued(end.nios, h), Queued(d.nios, h) + Supply(d, es, h));
  }

  lemma DropEmpty(a: Bytes, b: Bytes, c: Bytes)
    requires a == []
    ensures a + b + c == b + c
  {
  }

  lemma Conclude(l: seq<Entry>, f: Bytes, q: Bytes, queue: Bytes)
    requires LedgerBytes(l) + f + q == queue
    ensures Subsequence(DeliveredBytes(l), queue)
    ensures (forall i :: 0 <= i < |l| ==> l[i].fate.Delivered?) ==> DeliveredBytes(l) <= queue
  {
    hide DeliveredBytes, Subsequence, LedgerBytes;
    DeliveredInOrder(l, f + q);
    assert LedgerBytes(l) + (f + q) == LedgerBytes(l) + f + q;
  }

  /** A READ that finds data at the head of the queue. */
  predicate TakesData(n: Nios, cmd: Bytes, h: Byte)
    requires IsRead(cmd, h)
  {
    && 0 < FromU16Le(cmd[3], cmd[4]) <= 1472 && h in n.sessions && n.sessions[h].rx != []
    && n.sessions[h].rx[0].Data? && n.sessions[h].rx[0].bytes != []
  }

  /** A READ that finds the end of a session with data queued behind it. */
  predicate EndsEarly(n: Nios, cmd: Bytes, h: Byte)
    requires IsRead(cmd, h)
  {
    && 0 < FromU16Le(cmd[3], cmd[4]) <= 1472 && h in n.sessions && n.sessions[h].rx != []
    && n.sessions[h].rx[0].End? && Untracks(n.sessions[h].rx[0].status)
    && DataOf(n.sessions[h].rx[1..]) != []
  }

  /** Some byte left other than by a read of $DF1E, an ABORT or an accept. */
  predicate Lost(l: seq<Entry>) {
    exists i :: 0 <= i < |l| && (l[i].fate.EndDrop? || l[i].fate.NeverDrop?)
  }

  lemma TakesExactly(k: Knobs, n: Nios, cmd: Bytes, now: int, h: Byte)
    requires IsRead(cmd, h) && n.forced.None?
    ensures var x := Execute(k, n, cmd, now);
      && (PendingData(Some(x.reply)) != [] <==> TakesData(n, cmd, h))
      && (h !in x.nios.sessions && Queued(n, h) != [] <==> EndsEarly(n, cmd, h))
  {
    hide Untracks, Take, FromU16Le;
    var n1 := CheckHandle(n.(sessions := ClaimAll(n.sessions)), cmd);
    assert Execute(k, n, cmd, now) == ReadData(k, n1, cmd);
    assert Queued(n1, h) == Queued(n, h);
    hide Execute, CheckHandle;
    var maxlen := FromU16Le(cmd[3], cmd[4]);
    if 0 < maxlen <= 1472 && h in n1.sessions && n1.sessions[h].rx != [] {
      assert ReadData(k, n1, cmd) == ReadEvent(n1, h, maxlen, ReadDelay(k));
      var first := n1.sessions[h].rx[0];
      if first.Data? {
        var chunk := Take(first.bytes, maxlen);
        TakeNone(first.bytes, maxlen);
        assert Payload(U16Le(|chunk|) + chunk, 0) == chunk;
      }
    }
  }

  lemma TakeNone(bytes: Bytes, maxlen: nat)
    requires maxlen > 0
    ensures |Take(bytes, maxlen)| <= maxlen
    ensures Take(bytes, maxlen) == [] <==> bytes == []
  {
  }

  lemma LostParts(a: seq<Entry>, b: seq<Entry>)
    ensures Lost(a + b) <==> Lost(a) || Lost(b)
  {
    if Lost(a) {
      var i :| 0 <= i < |a| && (a[i].fate.EndDrop? || a[i].fate.NeverDrop?);
      assert (a + b)[i] == a[i];
    }
    if Lost(b) {
      var i :| 0 <= i < |b| && (b[i].fate.EndDrop? || b[i].fate.NeverDrop?);
      assert (a + b)[|a| + i] == b[i];
    }
  }

  lemma LostMark(bytes: Bytes, fate: Fate)
    ensures Lost(Mark(bytes, fate)) <==> bytes != [] && (fate.EndDrop? || fate.NeverDrop?)
  {
    if bytes != [] {
      assert Mark(bytes, fate)[0].fate == fate;
    }
  }

  /** The step executes a READ that is scripted never to complete though it takes
      data, or that ends the session with data still behind the end. */
  predicate Loses(d: Device, e: Event, h: Byte)
    requires Allowed(d, e, h)
  {
    && Executes(d, e).Some?
    && var b := BeforePush(d, e.now, e.value);
       (0x10 in b.knobs.never && TakesData(b.nios, b.cmd, h)) || EndsEarly(b.nios, b.cmd, h)
  }

  lemma PushLoses(d: Device, now: int, h: Byte)
    requires d.nios.forced.None? && IsRead(d.cmd, h)
    ensures Lost(PushLedger(d, now, h)) <==>
      (0x10 in d.knobs.never && TakesData(d.nios, d.cmd, h)) || EndsEarly(d.nios, d.cmd, h)
  {
    ReadMoves(d.knobs, d.nios, d.cmd, now, h);
    TakesExactly(d.knobs, d.nios, d.cmd, now, h);
    hide Execute, Lost, TakesData, EndsEarly, Mark, Queued, PendingData, IsRead;
    var x := Execute(d.knobs, d.nios, d.cmd, now);
    var data, queue := PendingData(Some(x.reply)), Queued(d.nios, h);
    LostMark(queue, EndDrop);
    LostMark(data, NeverDrop);
    NothingLost();
    LostParts(if h !in x.nios.sessions then Mark(queue, EndDrop) else [],
              if x.delay.Never? then Mark(data, NeverDrop) else []);
  }

  lemma NothingLost()
    ensures !Lost([])
  {
  }

  lemma StepLoses(d: Device, e: Event, h: Byte)
    requires ReadInv(d) && Allowed(d, e, h)
    ensures Lost(LedgerStep(d, e, h)) <==> Loses(d, e, h)
  {
    hide Execute, TakesData, EndsEarly, PushLedger, Payload, AcceptBit, PushBit, Stage, Resets, Control;
    match e {
      case Rd(now, addr) =>
      case Wr(now, addr, value) =>
        NotedConserves(d, now);
        var n := Noted(Advance(d, now));
        AcceptConserves(n, value);
        hide Advance, Noted, RegisterInv;
        var l1 := AdvanceLedger(d, now);
        var l2 := if addr == CONTROL then AcceptLedger(n, value) else [];
        var l3 := if Executes(d, e).Some? then PushLedger(BeforePush(d, now, value), now, h) else [];
        assert !Lost(l1) && !Lost(l2);
        LostParts(l1, l2);
        LostParts(l1 + l2, l3);
        if Executes(d, e).Some? { PushLoses(BeforePush(d, now, value), now, h); }
      case _ =>
    }
  }

  predicate LosesRun(d: Device, es: seq<Event>, h: Byte)
    requires AllowedRun(d, es, h)
    decreases |es|
  {
    es != [] && (Loses(d, es[0], h) || LosesRun(Step(d, es[0]).device, es[1..], h))
  }

  /** A run's ledger holds only deliveries, ABORT drops and accept drops if and
      only if no READ in it was scripted to swallow data or ended its session
      ahead of queued data. */
  lemma {:induction false} LostExactly(d: Device, es: seq<Event>, h: Byte)
    requires ReadInv(d) && AllowedRun(d, es, h)
    ensures Lost(Ledger(d, es, h)) <==> LosesRun(d, es, h)
    decreases |es|
  {
    if es != [] {
      StepConserves(d, es[0], h);
      StepLoses(d, es[0], h);
      var d1 := Step(d, es[0]).device;
      LostExactly(d1, es[1..], h);
      hide Step, LedgerStep, ReadInv, Lost, Loses, Allowed;
      LostParts(LedgerStep(d, es[0], h), Ledger(d1, es[1..], h));
    }
  }
}
