/** When the fetch rig may stop polling early, and why stopping early changes
    when the verdict is given but never what it is. */
module EarlyStop {
  import opened Bytes

  datatype Status = Pass | Fail | Inconclusive

  /** Parser state read from the C64. */
  datatype BodyState = BodyState(
    parseState: nat, status: nat, clValid: nat, contentLength: nat, bodyTotal: nat,
    chunked: nat, chunkState: nat, sinkFull: nat)

  const PARSE_STATE_BODY := 2
  const CHUNK_STATE_TERMINAL := 4
  const STALL_ABORT_MIN := 60.0

  function CheckBodyComplete(s: BodyState): Status {
    if s.sinkFull != 0 then Fail
    else if s.parseState < PARSE_STATE_BODY then Fail
    else if s.clValid != 0 then (if s.bodyTotal == s.contentLength then Pass else Fail)
    else if s.chunked != 0 then (if s.chunkState == CHUNK_STATE_TERMINAL then Pass else Fail)
    else Inconclusive
  }

  function CheckHttpStatus(s: BodyState, want: nat): Status {
    if s.parseState < PARSE_STATE_BODY then Fail else if s.status != want then Fail else Pass
  }

  function CheckFetchSettled(progressing: bool): Status {
    if progressing then Inconclusive else Pass
  }

  // ------------------------------------------------------------------ knobs --

  /** A number of seconds as configured: NaN and infinities included. */
  datatype Seconds = Finite(v: real) | NaN | PlusInfinity | MinusInfinity

  /** Python's `x < s`. */
  predicate Below(x: real, s: Seconds) {
    s.PlusInfinity? || (s.Finite? && x < s.v)
  }

  /** The rig's check of its two knobs, test by test; Python compares a NaN as
      neither below nor above anything. */
  method StallConfigError(stallAbort: Seconds, stallGrace: Seconds) returns (error: bool)
    ensures !error <==> StallConfigOk(stallAbort, stallGrace)
    ensures !error <==>
      stallAbort.Finite? && stallGrace.Finite? && stallAbort.v >= 60.0 && stallGrace.v < stallAbort.v
  {
    if !stallAbort.Finite? || !stallGrace.Finite? { return true; }
    if stallAbort.v < 60.0 { return true; }
    if stallGrace.v >= stallAbort.v { return true; }
    return false;
  }

  predicate StallConfigOk(stallAbort: Seconds, stallGrace: Seconds) {
    && stallAbort.Finite? && stallGrace.Finite?
    && stallAbort.v >= STALL_ABORT_MIN && stallGrace.v < stallAbort.v
  }

  // ---------------------------------------------------------- stall tracking --

  datatype Observation = Observation(total: int, now: real)

  /** The time of the first observation in the latest unbroken stretch of equal
      totals; the start if nothing was observed. */
  function LastMoved(started: real, seen: seq<Observation>): real {
    var n := |seen| - 1;
    if n < 0 then started
    else if n == 0 || seen[n - 1].total != seen[n].total then seen[n].now
    else LastMoved(started, seen[..n])
  }

  /** `seen[i..]` is the latest stretch of equal totals. */
  predicate LatestStretch(seen: seq<Observation>, i: nat) {
    && i < |seen|
    && (forall j :: i <= j < |seen| ==> seen[j].total == seen[|seen| - 1].total)
    && (i > 0 ==> seen[i - 1].total != seen[|seen| - 1].total)
  }

  lemma {:induction false} LastMovedIs(started: real, seen: seq<Observation>, i: nat)
    requires LatestStretch(seen, i)
    ensures LastMoved(started, seen) == seen[i].now
  {
    var n := |seen| - 1;
    if i < n {
      assert seen[n - 1].total == seen[n].total;
      LastMovedIs(started, seen[..n], i);
    }
  }

  lemma MarkAfter(started: real, seen: seq<Observation>, o: Observation)
    ensures LastMoved(started, seen + [o]) ==
      if seen != [] && seen[|seen| - 1].total == o.total then LastMoved(started, seen) else o.now
  {
    assert (seen + [o])[..|seen|] == seen;
  }

  class StallTracker {
    const started: real
    var lastTotal: Option<int>
    var lastMoved: real
    ghost var seen: seq<Observation>

    /** The two fields summarise everything observed so far. */
    ghost predicate Valid()
      reads this
    {
      && lastTotal == (if seen == [] then None else Some(seen[|seen| - 1].total))
      && lastMoved == LastMoved(started, seen)
    }

    constructor (started: real)
      ensures Valid() && seen == [] && this.started == started
    {
      this.started := started;
      lastTotal, lastMoved, seen := None, started, [];
    }

    method Observe(total: int, now: real)
      requires Valid()
      modifies this
      ensures Valid() && seen == old(seen) + [Observation(total, now)]
    {
      hide LastMoved;
      MarkAfter(started, seen, Observation(total, now));
      if lastTotal != Some(total) {
        lastTotal, lastMoved := Some(total), now;
      }
      seen := seen + [Observation(total, now)];
    }

    function FrozenFor(now: real): real
      reads this
    {
      now - lastMoved
    }
  }

  // ------------------------------------------------------------ body verdict --

  /** The body was refused by the sink, never reached, or does not fill the framing
      that the response itself declares. */
  predicate BodyBroken(s: BodyState) {
    || s.sinkFull != 0
    || s.parseState < 2
    || (s.clValid != 0 && s.bodyTotal < s.contentLength)
    || (s.clValid != 0 && s.bodyTotal > s.contentLength)
    || (s.clValid == 0 && s.chunked != 0 && s.chunkState != 4)
  }

  /** Nothing in the response says how long the body should be. */
  predicate BodyUnframed(s: BodyState) {
    s.sinkFull == 0 && s.parseState >= 2 && s.clValid == 0 && s.chunked == 0
  }

  /** The body was reached, not refused, and is complete by its own framing. */
  predicate BodyComplete(s: BodyState) {
    && s.sinkFull == 0 && s.parseState >= 2
    && (s.clValid != 0 ==> s.bodyTotal == s.contentLength)
    && (s.clValid == 0 ==> s.chunked != 0 && s.chunkState == 4)
  }

  /** The three verdicts on a body, each exactly. */
  lemma BodyVerdict(s: BodyState)
    ensures CheckBodyComplete(s).Fail? <==> BodyBroken(s)
    ensures CheckBodyComplete(s).Inconclusive? <==> BodyUnframed(s)
    ensures CheckBodyComplete(s).Pass? <==> BodyComplete(s)
  {
  }

  // ------------------------------------------------------------- early stop --

  const NET_TCP_CLOSED := 0x00
  const NET_TCP_ERROR := 0x02
  const TLS_STATE_ERROR := 0xFF

  /** `None` is the ValueError for a threshold that is not finite or too low. */
  function ShouldStopEarly(s: BodyState, tcp: Option<int>, frozen: real, stallAbort: Seconds,
                           shadowOk: bool): Option<bool>
  {
    if !stallAbort.Finite? || stallAbort.v < STALL_ABORT_MIN then None
    else Some(
      && shadowOk && s.parseState >= PARSE_STATE_BODY && CheckBodyComplete(s).Fail?
      && (tcp == Some(NET_TCP_ERROR) || tcp == Some(NET_TCP_CLOSED))
      && frozen >= stallAbort.v)
  }

  predicate HandshakeFailed(s: BodyState, tls: Option<int>, shadowOk: bool) {
    shadowOk && tls == Some(TLS_STATE_ERROR) && s.parseState < PARSE_STATE_BODY
  }

  datatype Decision = KeepPolling | StopStalled | StopHandshake | Raised

  function Decide(s: BodyState, frozen: real, tcp: Option<int>, tls: Option<Option<int>>,
                  stallAbort: Seconds, shadowOk: bool): Decision
  {
    if tls.Some? && HandshakeFailed(s, tls.value, shadowOk) then
      if tcp == Some(NET_TCP_CLOSED) then StopHandshake else KeepPolling
    else if Below(frozen, stallAbort) then KeepPolling
    else
      match ShouldStopEarly(s, tcp, frozen, stallAbort, shadowOk)
      case None => Raised
      case Some(stop) => if stop then StopStalled else KeepPolling
  }

  /** The TLS handshake died before the first byte of the body. */
  predicate HandshakeDied(s: BodyState, tls: Option<Option<int>>, shadowOk: bool) {
    shadowOk && tls == Some(Some(0xFF)) && s.parseState < 2
  }

  predicate Frozen(frozen: real, stallAbort: Seconds) {
    match stallAbort
    case Finite(v) => frozen >= v
    case NaN => true
    case PlusInfinity => false
    case MinusInfinity => true
  }

  /** When each decision is taken. */
  lemma DecidesExactly(s: BodyState, frozen: real, tcp: Option<int>, tls: Option<Option<int>>,
                       stallAbort: Seconds, shadowOk: bool)
    ensures var d := Decide(s, frozen, tcp, tls, stallAbort, shadowOk);
      && (d.StopStalled? <==>
        && stallAbort.Finite? && stallAbort.v >= 60.0 && frozen >= stallAbort.v && shadowOk
        && s.parseState >= 2 && (tcp == Some(0) || tcp == Some(2))
        && BodyBroken(s))
      && (d.StopHandshake? <==> HandshakeDied(s, tls, shadowOk) && tcp == Some(0))
      && (d.Raised? <==>
        && !HandshakeDied(s, tls, shadowOk) && Frozen(frozen, stallAbort)
        && !(stallAbort.Finite? && stallAbort.v >= 60.0))
  {
    BodyVerdict(s);
  }

  /** One poll: record progress, then decide. `tls` is what the optional TLS
      state reader gives, if there is one. */
  method EarlyStopStep(tracker: StallTracker, s: BodyState, now: real, tcp: Option<int>, tls: Option<Option<int>>,
                       stallAbort: Seconds, shadowOk: bool)
    returns (d: Decision)
    requires tracker.Valid()
    modifies tracker
    ensures tracker.Valid() && tracker.seen == old(tracker.seen) + [Observation(s.bodyTotal, now)]
    ensures tracker.FrozenFor(now) == now - LastMoved(tracker.started, tracker.seen)
    ensures d == Decide(s, tracker.FrozenFor(now), tcp, tls, stallAbort, shadowOk)
    ensures d.StopStalled? <==>
      && stallAbort.Finite? && stallAbort.v >= 60.0 && tracker.FrozenFor(now) >= stallAbort.v && shadowOk
      && s.parseState >= 2 && (tcp == Some(0) || tcp == Some(2)) && BodyBroken(s)
    ensures d.StopHandshake? <==> HandshakeDied(s, tls, shadowOk) && tcp == Some(0)
  {
    tracker.Observe(s.bodyTotal, now);
    DecidesExactly(s, tracker.FrozenFor(now), tcp, tls, stallAbort, shadowOk);
    if tls.Some? && s.parseState < PARSE_STATE_BODY {
      if HandshakeFailed(s, tls.value, shadowOk) {
        return if tcp == Some(NET_TCP_CLOSED) then StopHandshake else KeepPolling;
      }
    }
    var frozen := tracker.FrozenFor(now);
    if Below(frozen, stallAbort) { return KeepPolling; }
    var stop := ShouldStopEarly(s, tcp, frozen, stallAbort, shadowOk);
    if stop.None? { return Raised; }
    return if stop.value then StopStalled else KeepPolling;
  }

  // -------------------------------------------------------------- exit code --

  datatype Exit = ExitPass | ExitFail | ExitInconclusive

  /** `decide_exit`; `None` is a verdict that was never evaluated, and `kex` the
      key-exchange verdict if one is required. */
  function DecideExit(bannerOk: bool, shadow: Option<Status>, settled: Option<Status>,
                      status: Option<Status>, body: Option<Status>, kex: Option<Status>): Exit
  {
    var checks := Checks(shadow, status, body, kex);
    if !bannerOk || settled.None? then ExitFail
    else if settled.value.Inconclusive? then ExitInconclusive
    else if exists i :: 0 <= i < |checks| && Failed(checks[i]) then ExitFail
    else if exists i :: 0 <= i < |checks| && Unsure(checks[i]) then ExitInconclusive
    else ExitPass
  }

  function Checks(shadow: Option<Status>, status: Option<Status>, body: Option<Status>,
                  kex: Option<Status>): seq<Option<Status>>
  {
    [shadow, status, body] + (if kex.Some? then [kex] else [])
  }

  /** Failed, or never evaluated. */
  predicate Failed(v: Option<Status>) {
    v.None? || v.value.Fail?
  }

  predicate Unsure(v: Option<Status>) {
    v.Some? && v.value.Inconclusive?
  }

  /** A pass needs every other verdict to pass and the fetch not to be growing.
      With the banner right, a growing fetch is inconclusive whatever the other
      verdicts are, passes included; otherwise `settled` changes nothing. */
  lemma PassNeedsAll(bannerOk: bool, shadow: Option<Status>, settled: Option<Status>,
                     status: Option<Status>, body: Option<Status>, kex: Option<Status>)
    ensures DecideExit(bannerOk, shadow, settled, status, body, kex).ExitPass? <==>
      && bannerOk && settled.Some? && !settled.value.Inconclusive?
      && shadow == Some(Pass) && status == Some(Pass) && body == Some(Pass)
      && (kex.Some? ==> kex == Some(Pass))
    ensures bannerOk && settled.Some? ==>
      DecideExit(bannerOk, shadow, settled, status, body, kex) ==
        if settled.value.Inconclusive? then ExitInconclusive
        else DecideExit(bannerOk, shadow, Some(Pass), status, body, kex)
  {
    var checks := Checks(shadow, status, body, kex);
    assert checks[0] == shadow && checks[1] == status && checks[2] == body;
    assert kex.Some? ==> checks[3] == kex;
    assert Failed(checks[0]) || Failed(checks[1]) || Failed(checks[2]) ==>
      exists i :: 0 <= i < |checks| && Failed(checks[i]);
    assert Unsure(checks[0]) || Unsure(checks[1]) || Unsure(checks[2]) ==>
      exists i :: 0 <= i < |checks| && Unsure(checks[i]);
  }

  /** A run fails exactly if the banner is wrong, the fetch was never judged, or it
      had settled and some verdict failed or is missing. */
  lemma FailsExactly(bannerOk: bool, shadow: Option<Status>, settled: Option<Status>,
                     status: Option<Status>, body: Option<Status>, kex: Option<Status>)
    ensures DecideExit(bannerOk, shadow, settled, status, body, kex).ExitFail? <==>
      || !bannerOk || settled.None?
      || (!settled.value.Inconclusive?
          && (|| shadow in {None, Some(Fail)} || status in {None, Some(Fail)} || body in {None, Some(Fail)}
              || kex == Some(Fail)))
  {
    var checks := Checks(shadow, status, body, kex);
    assert checks[0] == shadow && checks[1] == status && checks[2] == body;
    assert kex.Some? ==> checks[3] == kex;
    assert forall i :: 0 <= i < |checks| ==> (Failed(checks[i]) <==> checks[i] in {None, Some(Fail)});
  }

  /** The exit code when the loop stops early: the rig records "not progressing". */
  function ExitAtStop(bannerOk: bool, shadow: Option<Status>, s: BodyState, want: nat, kex: Option<Status>): Exit {
    DecideExit(bannerOk, shadow, Some(CheckFetchSettled(false)),
               Some(CheckHttpStatus(s, want)), Some(CheckBodyComplete(s)), kex)
  }

  /** The exit code at the deadline: settled if frozen for the grace period. */
  function ExitAtDeadline(bannerOk: bool, shadow: Option<Status>, s: BodyState, want: nat, kex: Option<Status>,
                          frozen: real, stallGrace: real): Exit
  {
    DecideExit(bannerOk, shadow, Some(CheckFetchSettled(frozen < stallGrace)),
               Some(CheckHttpStatus(s, want)), Some(CheckBodyComplete(s)), kex)
  }

  /** Everything but the body speaks for a pass. */
  predicate OthersPass(bannerOk: bool, shadow: Option<Status>, s: BodyState, want: nat, kex: Option<Status>) {
    bannerOk && shadow == Some(Pass) && s.parseState >= 2 && s.status == want && (kex.Some? ==> kex == Some(Pass))
  }

  /** The run passes exactly on a complete body with the wanted status, all other
      verdicts passing and the fetch settled; an unframed body alone makes it
      inconclusive, a broken one fails it. */
  lemma ExitExactly(bannerOk: bool, shadow: Option<Status>, s: BodyState, want: nat, kex: Option<Status>,
                    frozen: real, stallGrace: real)
    ensures var x := ExitAtDeadline(bannerOk, shadow, s, want, kex, frozen, stallGrace);
      && (x.ExitPass? <==>
        OthersPass(bannerOk, shadow, s, want, kex) && frozen >= stallGrace && BodyComplete(s))
      && (OthersPass(bannerOk, shadow, s, want, kex) && frozen >= stallGrace ==>
        (x.ExitInconclusive? <==> BodyUnframed(s)) && (x.ExitFail? <==> BodyBroken(s)))
      && (bannerOk && frozen < stallGrace ==> x.ExitInconclusive?)
      && (!bannerOk ==> x.ExitFail?)
    ensures ExitAtStop(bannerOk, shadow, s, want, kex).ExitPass? <==>
      OthersPass(bannerOk, shadow, s, want, kex) && BodyComplete(s)
  {
    BodyVerdict(s);
    hide CheckBodyComplete;
    var settled, status, body := CheckFetchSettled(frozen < stallGrace), CheckHttpStatus(s, want), CheckBodyComplete(s);
    PassNeedsAll(bannerOk, shadow, Some(settled), Some(status), Some(body), kex);
    PassNeedsAll(bannerOk, shadow, Some(Pass), Some(status), Some(body), kex);
    FailsExactly(bannerOk, shadow, Some(settled), Some(status), Some(body), kex);
    hide DecideExit;
  }

  predicate Unchanged(later: seq<Observation>, total: int) {
    forall i :: 0 <= i < |later| ==> later[i].total == total
  }

  /** Observing the same total again never moves the mark. */
  lemma {:induction false} MarkStays(started: real, seen: seq<Observation>, later: seq<Observation>)
    requires seen != [] && Unchanged(later, seen[|seen| - 1].total)
    ensures LastMoved(started, seen + later) == LastMoved(started, seen)
    decreases |later|
  {
    if later == [] {
      assert seen + later == seen;
    } else {
      var n := |later| - 1;
      MarkStays(started, seen, later[..n]);
      var all := seen + later;
      assert all[..|all| - 1] == seen + later[..n];
      assert all[|all| - 1] == later[n];
      assert |all| - 2 >= 0 && all[|all| - 2].total == all[|all| - 1].total;
    }
  }

  /** Early stop changes when, not what: with knobs the rig accepts, a stop on the
      stall path fails, and so does every later deadline at which the parser
      state is still the same, however often it was polled in between. */
  lemma StopChangesNothing(started: real, seen: seq<Observation>, later: seq<Observation>,
                           s: BodyState, now: real, deadline: real, tcp: Option<int>, tls: Option<Option<int>>,
                           stallAbort: Seconds, stallGrace: Seconds, shadowOk: bool,
                           bannerOk: bool, shadow: Option<Status>, want: nat, kex: Option<Status>)
    requires StallConfigOk(stallAbort, stallGrace)
    requires seen != [] && seen[|seen| - 1] == Observation(s.bodyTotal, now)
    requires Decide(s, now - LastMoved(started, seen), tcp, tls, stallAbort, shadowOk).StopStalled?
    requires deadline >= now && Unchanged(later, s.bodyTotal)
    ensures ExitAtStop(bannerOk, shadow, s, want, kex)
      == ExitAtDeadline(bannerOk, shadow, s, want, kex, deadline - LastMoved(started, seen + later), stallGrace.v)
      == ExitFail
  {
    MarkStays(started, seen, later);
    BodyFailureFails(bannerOk, shadow, Some(CheckHttpStatus(s, want)), kex);
  }

  lemma BodyFailureFails(bannerOk: bool, shadow: Option<Status>, status: Option<Status>, kex: Option<Status>)
    ensures DecideExit(bannerOk, shadow, Some(Pass), status, Some(Fail), kex) == ExitFail
  {
    var checks := Checks(shadow, status, Some(Fail), kex);
    assert Failed(checks[2]);
  }

  /** The handshake stop fails as well, but a deadline agrees with it only once
      the counter has been still for the grace period. */
  lemma HandshakeStopAgrees(s: BodyState, frozen: real, tcp: Option<int>, tls: Option<Option<int>>,
                            stallAbort: Seconds, shadowOk: bool, laterFrozen: real, stallGrace: real,
                            bannerOk: bool, shadow: Option<Status>, want: nat, kex: Option<Status>)
    requires Decide(s, frozen, tcp, tls, stallAbort, shadowOk).StopHandshake?
    ensures ExitAtStop(bannerOk, shadow, s, want, kex) == ExitFail
    ensures ExitAtDeadline(bannerOk, shadow, s, want, kex, laterFrozen, stallGrace) == ExitFail
      <==> !bannerOk || laterFrozen >= stallGrace
  {
    BodyFailureFails(bannerOk, shadow, Some(CheckHttpStatus(s, want)), kex);
  }

  /** A response that declares neither a length nor chunking stops the loop on the
      stall path exactly when the sink refused the body; every other stop is on
      a definitely framed response. */
  lemma StopsWithoutFraming(s: BodyState, frozen: real, tcp: Option<int>, tls: Option<Option<int>>,
                            stallAbort: Seconds, shadowOk: bool)
    requires stallAbort.Finite? && stallAbort.v >= STALL_ABORT_MIN && frozen >= stallAbort.v
    requires shadowOk && s.parseState >= PARSE_STATE_BODY
    requires tcp == Some(NET_TCP_ERROR) || tcp == Some(NET_TCP_CLOSED)
    requires s.clValid == 0 && s.chunked == 0
    ensures Decide(s, frozen, tcp, tls, stallAbort, shadowOk).StopStalled? <==> s.sinkFull != 0
  {
  }
}
