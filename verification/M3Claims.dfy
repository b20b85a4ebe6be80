/** Sessions that no command has claimed yet, and what RELEASE therefore does. */
module M3Claims {
  import opened Bytes
  import opened M3Model

  /** One executed command, with the knobs in force when it ran. */
  datatype Exec = Exec(knobs: Knobs, cmd: Bytes)

  /** The handle of the session that OPEN_TLS creates, if it creates one. */
  function Made(k: Knobs): Option<Byte> {
    if !k.tls then None
    else
      match k.openResult
      case Refuse(_) => None
      case Odd(_) => Some(k.nextHandle)
      case Accept(h) => Some(h)
  }

  function Creates(x: Exec): Option<Byte> {
    if IsNetCommand(x.cmd) && x.cmd[1] == 0x21 then Made(x.knobs) else None
  }

  /** OPEN_TLS adds its session to the unclaimed ones and touches no other. */
  lemma OpenMakes(k: Knobs, n: Nios, delay: Delay)
    ensures var x := Open(k, n, delay); var made := Made(k);
      && x.Replied?
      && Unclaimed(x.nios.sessions) == Unclaimed(n.sessions) + AsSet(made)
      && x.nios.sessions - AsSet(made) == n.sessions - AsSet(made)
      && (made.Some? ==> made.value in x.nios.sessions && x.nios.sessions[made.value].rx == [])
  {
    var x := Open(k, n, delay);
    var made := Made(k);
    if made.Some? {
      var s := x.nios.sessions[made.value];
      assert x.nios.sessions == n.sessions[made.value := s] && !s.claimed;
    }
  }

  predicate Releases(x: Exec) {
    x.cmd == [0x03, 0x25] && x.knobs.tls
  }

  /** The open whose session is still unclaimed, read off the command history. */
  function Outstanding(history: seq<Exec>): Option<Byte> {
    if history == [] then None
    else
      var x := history[|history| - 1];
      if Creates(x).Some? then Creates(x)
      else if Claims(x.cmd) || Releases(x) then None
      else Outstanding(history[..|history| - 1])
  }

  predicate LatestUnclaimedOpen(history: seq<Exec>, i: nat, h: Byte) {
    && i < |history| && Creates(history[i]) == Some(h)
    && forall j :: i < j < |history| ==>
      !Claims(history[j].cmd) && !Releases(history[j]) && Creates(history[j]).None?
  }

  /** `Outstanding` names the latest session-creating open with no claiming
      command and no release after it. */
  lemma {:induction false} OutstandingMeans(history: seq<Exec>, h: Byte)
    ensures Outstanding(history) == Some(h) <==> exists i :: LatestUnclaimedOpen(history, i, h)
  {
    if history != [] {
      var n := |history| - 1;
      var x, rest := history[n], history[..n];
      OutstandingMeans(rest, h);
      if Creates(x) == Some(h) {
        assert LatestUnclaimedOpen(history, n, h);
      } else if Creates(x).None? && !Claims(x.cmd) && !Releases(x) {
        if i: nat :| LatestUnclaimedOpen(rest, i, h) {
          assert LatestUnclaimedOpen(history, i, h);
        }
        if i: nat :| LatestUnclaimedOpen(history, i, h) {
          assert LatestUnclaimedOpen(rest, i, h);
        }
      }
    }
  }

  function AsSet(o: Option<Byte>): set<Byte> {
    if o.Some? then {o.value} else {}
  }

  /** Executing one command moves the unclaimed set as the history says. */
  lemma ExecuteTracks(k: Knobs, n: Nios, cmd: Bytes, now: int, history: seq<Exec>)
    requires Unclaimed(n.sessions) == AsSet(Outstanding(history))
    ensures Unclaimed(Execute(k, n, cmd, now).nios.sessions) == AsSet(Outstanding(history + [Exec(k, cmd)]))
  {
    var x := Exec(k, cmd);
    assert (history + [x])[..|history|] == history;
    var after := Execute(k, n, cmd, now).nios.sessions;
    if Claims(cmd) {
      ClaimsLeaves(k, n, cmd, now);
    } else if Releases(x) {
      assert after == n.sessions - Unclaimed(n.sessions);
    } else {
      assert after == n.sessions;
    }
  }

  lemma ClaimAllLeavesNone(sessions: map<Byte, Session>)
    ensures Unclaimed(ClaimAll(sessions)) == {}
  {
  }

  /** Removing sessions, or changing one without unclaiming it, unclaims nothing. */
  lemma AllClaimed(sessions: map<Byte, Session>)
    requires forall h :: h in sessions ==> sessions[h].claimed
    ensures Unclaimed(sessions) == {}
  {
  }

  /** Only OPEN_TLS leaves a session unclaimed among claimed ones. */
  lemma OthersKeepClaims(k: Knobs, n: Nios, cmd: Bytes, now: int, delay: Delay)
    requires forall h :: h in n.sessions ==> n.sessions[h].claimed
    ensures forall h :: h in Close(n, cmd, delay).nios.sessions ==> Close(n, cmd, delay).nios.sessions[h].claimed
    ensures Info(k, n, cmd, now, delay).nios.sessions == n.sessions
    ensures forall h :: h in WriteData(k, n, cmd, delay).nios.sessions ==>
      WriteData(k, n, cmd, delay).nios.sessions[h].claimed
  {
    hide Ascii;
  }

  lemma ReadKeepsClaims(k: Knobs, n: Nios, cmd: Bytes)
    requires forall h :: h in n.sessions ==> n.sessions[h].claimed
    ensures forall h :: h in ReadData(k, n, cmd).nios.sessions ==> ReadData(k, n, cmd).nios.sessions[h].claimed
  {
    hide Take, Untracks;
  }

  /** After a claiming command only the session it created can be unclaimed. */
  lemma ClaimsLeaves(k: Knobs, n: Nios, cmd: Bytes, now: int)
    requires Claims(cmd)
    ensures Unclaimed(Execute(k, n, cmd, now).nios.sessions) == AsSet(Creates(Exec(k, cmd)))
  {
    hide ClaimAll, CheckHandle, Close, Info, Release, Open, ReadData, WriteData, Unclaimed, Made, OpDelay;
    var n1 := n.(sessions := ClaimAll(n.sessions));
    ClaimAllLeavesNone(n.sessions);
    AllClaimedAfter(n.sessions);
    var n2 := CheckHandle(n1, cmd);
    CheckHandleSessions(n1, cmd);
    var delay := OpDelay(k, cmd[1]);
    if cmd[1] == 0x21 {
      OpenMakes(k, n1, delay);
    } else {
      OthersKeepClaims(k, n1, cmd, now, delay);
      OthersKeepClaims(k, n2, cmd, now, delay);
      ReadKeepsClaims(k, n2, cmd);
      AllClaimed(Execute(k, n, cmd, now).nios.sessions);
    }
  }

  lemma AllClaimedAfter(sessions: map<Byte, Session>)
    ensures forall h :: h in ClaimAll(sessions) ==> ClaimAll(sessions)[h].claimed
  {
  }

  lemma CheckHandleSessions(n: Nios, cmd: Bytes)
    ensures CheckHandle(n, cmd).sessions == n.sessions
  {
  }

  /** Deleting the unclaimed sessions leaves exactly the claimed ones. */
  lemma DroppingUnclaimed(sessions: map<Byte, Session>)
    ensures var left := sessions - Unclaimed(sessions);
      && Unclaimed(left) == {} && |sessions| - |left| == |Unclaimed(sessions)|
      && forall h :: h in sessions && sessions[h].claimed ==> h in left && left[h] == sessions[h]
  {
    var left := sessions - Unclaimed(sessions);
    assert sessions.Keys == left.Keys + Unclaimed(sessions) && left.Keys !! Unclaimed(sessions);
    assert |sessions| == |sessions.Keys| && |left| == |left.Keys|;
  }

  function HistoryStep(d: Device, e: Event): seq<Exec> {
    var c := Executes(d, e);
    if c.Some? then [Exec(d.knobs, c.value)] else []
  }

  function History(d: Device, es: seq<Event>): seq<Exec>
    decreases |es|
  {
    if es == [] then []
    else if Step(d, es[0]).raised then HistoryStep(d, es[0])
    else HistoryStep(d, es[0]) + History(Step(d, es[0]).device, es[1..])
  }

  lemma BeforePushSessions(d: Device, now: int, value: Byte)
    ensures BeforePush(d, now, value).nios.sessions == d.nios.sessions
    ensures BeforePush(d, now, value).knobs == d.knobs
  {
    hide PushBit, AcceptBit, AbortBit, ClearBit;
    var a := Advance(d, now);
    assert a.nios == d.nios && a.knobs == d.knobs;
    hide Advance;
    var n := Noted(a);
    assert n.nios.sessions == d.nios.sessions && n.knobs == d.knobs;
    hide Noted;
    ControlSessions(n, value);
    hide Control;
  }

  lemma ControlSessions(d: Device, value: Byte)
    ensures Control(d, value).nios.sessions == d.nios.sessions
    ensures Control(d, value).knobs == d.knobs
  {
    hide PushBit, AcceptBit, AbortBit, ClearBit;
    var c := Cleared(d, value);
    assert c.nios.sessions == d.nios.sessions && c.knobs == d.knobs;
    AcceptSessions(c);
    hide Cleared, DataAccept;
  }

  lemma AcceptSessions(d: Device)
    ensures DataAccept(d).nios.sessions == d.nios.sessions && DataAccept(d).knobs == d.knobs
  {
  }

  lemma WriteTracks(d: Device, now: int, addr: int, value: Byte, history: seq<Exec>)
    requires Unclaimed(d.nios.sessions) == AsSet(Outstanding(history))
    ensures Unclaimed(Write(d, now, addr, value).device.nios.sessions) ==
      AsSet(Outstanding(history + HistoryStep(d, Wr(now, addr, value))))
  {
    hide Execute, Control, Outstanding, Unclaimed, PushBit;
    assert history + [] == history;
    BeforePushSessions(d, now, value);
    var a := Advance(d, now);
    assert a.nios == d.nios && Noted(a).nios.sessions == d.nios.sessions;
    var c := BeforePush(d, now, value);
    assert addr == CONTROL ==> Write(d, now, addr, value) == if PushBit(value) then Push(c, now) else Outcome(c, false);
    hide Advance, Noted;
    ExecuteTracks(c.knobs, c.nios, c.cmd, now, history);
    hide BeforePush;
    if addr == CONTROL && PushBit(value) && AcceptsPush(c) {
      assert Push(c, now).device.nios == Execute(c.knobs, c.nios, c.cmd, now).nios;
    }
  }

  lemma ReadNios(d: Device, now: int, addr: int)
    ensures Read(d, now, addr).device.nios == d.nios
  {
    hide StatusBits;
    assert Stage(d, now).nios == d.nios;
    var a := Advance(d, now);
    assert a.nios == d.nios;
    hide Advance;
  }

  lemma FeedTracks(n: Nios, h: Byte, rx: seq<RxEvent>)
    ensures Unclaimed(FeedSession(n, h, rx).sessions) == Unclaimed(n.sessions)
  {
    var after := FeedSession(n, h, rx).sessions;
    assert forall g :: g in after ==> after[g].claimed == n.sessions[g].claimed;
  }

  lemma StepTracks(d: Device, e: Event, history: seq<Exec>)
    requires Unclaimed(d.nios.sessions) == AsSet(Outstanding(history))
    ensures Unclaimed(Step(d, e).device.nios.sessions) == AsSet(Outstanding(history + HistoryStep(d, e)))
  {
    hide Read, Write, Outstanding, Unclaimed, FeedSession, BeforePush, PushBit;
    assert history + [] == history;
    match e {
      case Rd(now, addr) => ReadNios(d, now, addr);
      case Wr(now, addr, value) =>
        WriteTracks(d, now, addr, value, history);
        hide Step;
        StepIsWrite(d, now, addr, value);
      case Feed(h, rx) => FeedTracks(d.nios, h, rx);
      case _ =>
    }
  }

  lemma StepIsWrite(d: Device, now: int, addr: int, value: Byte)
    ensures Step(d, Wr(now, addr, value)) == Write(d, now, addr, value)
  {
  }

  /** Over any run, the unclaimed sessions are exactly the outstanding open. */
  lemma {:induction false} RunTracks(d: Device, es: seq<Event>, history: seq<Exec>)
    requires Unclaimed(d.nios.sessions) == AsSet(Outstanding(history))
    ensures Unclaimed(Run(d, es).device.nios.sessions) == AsSet(Outstanding(history + History(d, es)))
    decreases |es|
  {
    hide Step, HistoryStep, Outstanding, Unclaimed;
    if es == [] {
      assert history + [] == history;
    } else {
      StepTracks(d, es[0], history);
      if !Step(d, es[0]).raised {
        var d1, seen := Step(d, es[0]).device, HistoryStep(d, es[0]);
        RunTracks(d1, es[1..], history + seen);
        assert history + seen + History(d1, es[1..]) == history + History(d, es);
      }
    }
  }

  /** From power-on, at most one session is unclaimed. A well-formed RELEASE on
      TLS firmware answers 1 and closes exactly the session of the latest
      session-creating open when nothing has claimed or released it since, and
      answers 0 and closes nothing otherwise. */
  lemma ReleaseCloses(k0: Knobs, es: seq<Event>, now: int)
    ensures var d := Run(Initial(k0), es).device;
      var open := Outstanding(History(Initial(k0), es));
      var x := Execute(d.knobs, d.nios, [0x03, 0x25], now);
      && Unclaimed(d.nios.sessions) == AsSet(open)
      && (d.knobs.tls ==>
        && x.Replied? && x.reply == Reply([[if open.Some? then 1 else 0]], OK_LINE)
        && x.nios.sessions == d.nios.sessions - AsSet(open)
        && (open.Some? ==> open.value in d.nios.sessions))
  {
    assert Unclaimed(Initial(k0).nios.sessions) == AsSet(Outstanding([]));
    RunTracks(Initial(k0), es, []);
    assert [] + History(Initial(k0), es) == History(Initial(k0), es);
    var d := Run(Initial(k0), es).device;
    var open := Outstanding(History(Initial(k0), es));
    hide Run, History, Outstanding;
    assert |AsSet(open)| == if open.Some? then 1 else 0;
    if open.Some? {
      assert open.value in Unclaimed(d.nios.sessions);
    }
  }
}
