/** The probe as a whole: what a host that samples it learns about the time. */
module CiaProbe {
  import opened Bytes
  import opened CiaTimer
  import opened CiaHandshake

  /** The snapshot shows pass `n` of the main loop, on readings at the instants
      `ts`: accumulator, loop count and raw timer. */
  predicate TakenAt(c: int, ts: seq<int>, n: nat, snap: Snapshot) {
    && n < |ts|
    && FromLittleEndian(snap[0..4]) == AccAfter(c, ts[..n + 1])
    && FromLittleEndian(snap[4..7]) == n % TWO24
    && FromLittleEndian(snap[11..13]) == Ticks(c, ts[n])
  }

  lemma FourBytes(b: Bytes)
    requires |b| == 4
    ensures FromLittleEndian(b) ==
      b[0] as int + 0x100 * b[1] as int + 0x1_0000 * b[2] as int + 0x100_0000 * b[3] as int
  {
    ThreeBytes(b[1..]);
  }

  lemma ThreeBytes(b: Bytes)
    requires |b| == 3
    ensures FromLittleEndian(b) == b[0] as int + 0x100 * b[1] as int + 0x1_0000 * b[2] as int
  {
    TwoBytes(b[1..]);
  }

  lemma TwoBytes(b: Bytes)
    requires |b| == 2
    ensures FromLittleEndian(b) == FromU16Le(b[0], b[1])
  {
    assert FromLittleEndian(b[1..]) == b[1] + 256 * FromLittleEndian([]);
  }

  function Together(acc: Bytes, loops: Bytes, tod: Bytes, raw: Bytes): (snap: Snapshot)
    requires |acc| == 4 && |loops| == 3 && |tod| == 4 && |raw| == 2
    ensures snap[0..4] == acc && snap[4..7] == loops && snap[7..11] == tod && snap[11..13] == raw
  {
    acc + loops + tod + raw
  }

  /** What the probe publishes: its own bytes, and the time of day it read. */
  method Publish(probe: Probe, tod: Bytes) returns (snap: Snapshot)
    requires |tod| == 4
    ensures FromLittleEndian(snap[0..4]) == probe.Acc()
    ensures FromLittleEndian(snap[4..7]) == probe.Loops()
    ensures FromLittleEndian(snap[11..13]) == FromU16Le(probe.prevLo, probe.prevHi)
  {
    var acc: Bytes := [probe.acc0, probe.acc1, probe.acc2, probe.acc3];
    var loops: Bytes := [probe.loop0, probe.loop1, probe.loop2];
    var raw: Bytes := [probe.prevLo, probe.prevHi];
    snap := Together(acc, loops, tod, raw);
    FourBytes(acc);
    ThreeBytes(loops);
    TwoBytes(raw);
  }

  /** Main loop, then publication: the snapshot shows the last pass. */
  method SampleAndPublish(c: int, schedules: seq<seq<Attempt>>, tod: Bytes)
    returns (r: Option<Snapshot>, ghost ts: seq<int>)
    requires schedules != [] && |tod| == 4 && forall i :: 0 <= i < |schedules| ==> Timely(schedules[i])
    ensures r.Some? <==> AllSettle(c, schedules)
    ensures r.Some? ==> ReadsAt(c, schedules, ts) && TakenAt(c, ts, |ts| - 1, r.value)
  {
    hide FromLittleEndian, AccAfter, Ticks, ReadAt, Settles, Timely;
    var probe;
    probe, ts := SampleLoop(c, schedules);
    if probe.None? { return None, ts; }
    var snap := Publish(probe.value, tod);
    assert ts[..|ts|] == ts;
    return Some(snap), ts;
  }

  // -------------------------------------------------- samples and the clock --

  /** The snapshots the 6502 offers are its own: every poll of REQ ends a pass of
      the main loop, and the one that finds a request publishes that pass. */
  ghost predicate Genuine(w: World, steps: seq<Step>, c: int, ts: seq<int>, n: nat)
    requires Inv(w)
    decreases |steps|
  {
    steps == [] ||
    (StepKeeps(w, steps[0]);
     var passes := n + (if Polls(w, steps[0]) then 1 else 0);
     && (Polls(w, steps[0]) ==> TakenAt(c, ts, passes, steps[0].snap))
     && Genuine(Next(w, steps[0]), steps[1..], c, ts, passes))
  }

  predicate Polls(w: World, s: Step) {
    s.CpuPoll? && w.cpu.Looping?
  }

  /** The snapshots published so far, then the one being published. */
  function Snaps(w: World): seq<Snapshot> {
    w.published + (if w.cpu.Publishing? && w.cpu.done <= 13 then [w.cpu.snap] else [])
  }

  /** `at` says which pass each snapshot shows: passes up to `n`, in order. */
  predicate Dated(w: World, c: int, ts: seq<int>, n: nat, at: seq<nat>) {
    && |at| == |Snaps(w)|
    && (forall i :: 0 <= i < |at| ==> at[i] <= n && TakenAt(c, ts, at[i], Snaps(w)[i]))
    && (forall i, j :: 0 <= i < j < |at| ==> at[i] < at[j])
  }

  lemma SnapsStep(w: World, s: Step)
    requires Inv(w)
    ensures Snaps(Next(w, s)) == Snaps(w) + if Polls(w, s) && w.mem[REQ] != 0 then [s.snap] else []
  {
    assert StoredSoFar(w);
    assert Snaps(w) + [] == Snaps(w);
    assert w.published + [] == w.published;
  }

  lemma {:induction false} RunDates(w: World, steps: seq<Step>, c: int, ts: seq<int>, n: nat, at: seq<nat>)
    returns (m: nat, all: seq<nat>)
    requires Inv(w) && Genuine(w, steps, c, ts, n) && Dated(w, c, ts, n, at)
    ensures Dated(Run(w, steps), c, ts, m, all)
    decreases |steps|
  {
    hide TakenAt, Next, HostInv, StoredSoFar, Snaps;
    if steps == [] { return n, at; }
    var s := steps[0];
    StepKeeps(w, s);
    SnapsStep(w, s);
    var passes := n + if Polls(w, s) then 1 else 0;
    var more := if Snaps(Next(w, s)) == Snaps(w) then at else at + [passes];
    m, all := RunDates(Next(w, s), steps[1..], c, ts, passes, more);
  }

  /** Under every interleaving of probe and host: the samples that pass their exit
      test show ever later passes of the main loop, and the accumulator in each is
      the time elapsed at that pass, in ticks mod 2^32. */
  lemma SamplesTellTime(magic: Byte, data: Snapshot, steps: seq<Step>, c: int, ts: seq<int>) returns (at: seq<nat>)
    requires Inv(Initial(magic, data)) && Genuine(Initial(magic, data), steps, c, ts, 0)
    requires Ascending(ts) && Prompt(ts)
    ensures var samples := Run(Initial(magic, data), steps).samples;
      && |at| >= |samples|
      && (forall i, j :: 0 <= i < j < |samples| ==> at[i] < at[j])
      && forall i :: 0 <= i < |samples| ==>
        && |samples[i]| == BLOCK && at[i] < |ts|
        && FromLittleEndian(samples[i][2..6]) == (ts[at[i]] - ts[0]) % TWO32
        && FromLittleEndian(samples[i][6..9]) == at[i] % TWO24
  {
    hide Run, Inv, Genuine, TakenAt, FromLittleEndian, Ascending, Prompt;
    var w0 := Initial(magic, data);
    SamplesAreSnapshots(magic, data, steps);
    var m;
    m, at := RunDates(w0, steps, c, ts, 0, []);
    var w := Run(w0, steps);
    forall i | 0 <= i < |w.samples|
      ensures at[i] < |ts|
      ensures FromLittleEndian(w.samples[i][2..6]) == (ts[at[i]] - ts[0]) % TWO32
      ensures FromLittleEndian(w.samples[i][6..9]) == at[i] % TWO24
    {
      assert |w.samples[i]| == BLOCK && Data(w.samples[i]) == w.published[i];
      assert Snaps(w)[i] == w.published[i];
      SampleShows(c, ts, at[i], w.samples[i]);
    }
  }

  lemma SampleShows(c: int, ts: seq<int>, n: nat, blk: Bytes)
    requires |blk| == BLOCK && TakenAt(c, ts, n, Data(blk)) && Ascending(ts) && Prompt(ts)
    ensures n < |ts| && FromLittleEndian(blk[2..6]) == (ts[n] - ts[0]) % TWO32
    ensures FromLittleEndian(blk[6..9]) == n % TWO24
  {
    hide FromLittleEndian, Ticks;
    var d := blk[2..15];
    assert Data(blk) == d;
    assert d[0..4] == blk[2..6];
    assert d[4..7] == blk[6..9];
    assert ts[..n + 1][n] == ts[n] && ts[..n + 1][0] == ts[0];
    AccIsElapsed(c, ts[..n + 1]);
  }
}
