/** The probe's publish handshake: a host polls 16 bytes of shared memory, one
    byte at a time and in ascending order, while the 6502 publishes into them. */
module CiaHandshake {
  import opened Bytes

  const REQ := 0
  const SERVED := 1
  const FIRST := 2
  const LAST := 14
  const BLOCK := 16

  /** Bytes 2 to 14 of the block: accumulator, loop count, time of day, raw timer. */
  type Snapshot = s: Bytes | |s| == 13 witness seq(13, _ => 0)

  /** The order of the 6502's stores. */
  const STORES: seq<nat> := [2, 3, 4, 5, 6, 7, 8, 13, 14, 12, 11, 10, 9]

  /** Between polls of REQ, or publishing: 13 stores, then clear REQ, then bump
      SERVED, of which `done` have happened. */
  datatype Cpu = Looping | Publishing(snap: Snapshot, done: nat)

  /** Inside `sample`: reading the block beforehand, about to write REQ, polling,
      or done with it. `Gone` is the RuntimeError after the deadline. */
  datatype Host =
    | Between
    | Before(read: Bytes)
    | Ready(served: Byte)
    | Polling(served: Byte, read: Bytes)
    | Gone

  datatype World = World(
    mem: Bytes, cpu: Cpu, host: Host, published: seq<Snapshot>, samples: seq<Bytes>)

  datatype Step =
    | CpuPoll(snap: Snapshot)   // read REQ; on a request, take a snapshot
    | CpuStore                  // the next store of a publication
    | HostBegin
    | HostRead                  // one byte of the block, before the request
    | HostRequest               // write REQ
    | HostPoll                  // one byte of the block, while polling
    | HostGiveUp

  function CpuStep(w: World): World
    requires |w.mem| == BLOCK && w.cpu.Publishing?
  {
    var k := w.cpu.done;
    var next := w.cpu.(done := k + 1);
    if k < 13 then w.(mem := w.mem[STORES[k] := w.cpu.snap[STORES[k] - FIRST]], cpu := next)
    else if k == 13 then w.(mem := w.mem[REQ := 0], cpu := next, published := w.published + [w.cpu.snap])
    else w.(mem := w.mem[SERVED := (w.mem[SERVED] as int + 1) % 256], cpu := Looping)
  }

  predicate Served(served: Byte, blk: Bytes)
    requires |blk| == BLOCK
  {
    blk[SERVED] != served && blk[REQ] == 0
  }

  function PollStep(w: World): World
    requires |w.mem| == BLOCK && w.host.Polling? && |w.host.read| < BLOCK
  {
    var blk := w.host.read + [w.mem[|w.host.read|]];
    if |blk| < BLOCK then w.(host := w.host.(read := blk))
    else if Served(w.host.served, blk) then w.(host := Between, samples := w.samples + [blk])
    else w.(host := w.host.(read := []))
  }

  predicate Sane(w: World) {
    && |w.mem| == BLOCK
    && (w.host.Before? ==> |w.host.read| < BLOCK)
    && (w.host.Polling? ==> |w.host.read| < BLOCK)
  }

  /** A step that is not enabled does nothing. */
  function Next(w: World, s: Step): World
    requires Sane(w)
  {
    match s
    case CpuPoll(snap) => if w.cpu.Looping? && w.mem[REQ] != 0 then w.(cpu := Publishing(snap, 0)) else w
    case CpuStore => if w.cpu.Publishing? then CpuStep(w) else w
    case HostBegin => if w.host.Between? then w.(host := Before([])) else w
    case HostRead =>
      if !w.host.Before? then w
      else
        var blk := w.host.read + [w.mem[|w.host.read|]];
        w.(host := if |blk| < BLOCK then Before(blk) else Ready(blk[SERVED]))
    case HostRequest =>
      if w.host.Ready? then w.(mem := w.mem[REQ := 1], host := Polling(w.host.served, [])) else w
    case HostPoll => if w.host.Polling? then PollStep(w) else w
    case HostGiveUp => if w.host.Polling? then w.(host := Gone) else w
  }

  function Data(blk: Bytes): Snapshot
    requires |blk| == BLOCK
  {
    blk[FIRST..LAST + 1]
  }

  // -------------------------------------------------------------- invariant --

  /** The stores made so far are in memory. */
  predicate StoredSoFar(w: World)
    requires Sane(w)
  {
    w.cpu.Publishing? ==>
      && w.cpu.done <= 14
      && forall j :: 0 <= j < w.cpu.done && j < 13 ==> w.mem[STORES[j]] == w.cpu.snap[STORES[j] - FIRST]
  }

  /** No request is outstanding: everything published has been returned. */
  predicate Quiet(w: World)
    requires Sane(w)
  {
    w.cpu.Looping? && w.mem[REQ] == 0 && |w.published| == |w.samples|
  }

  predicate Requested(w: World, served: Byte)
    requires Sane(w)
  {
    && w.mem[REQ] == 1 && w.mem[SERVED] == served && |w.published| == |w.samples|
    && (w.cpu.Looping? || w.cpu.done <= 13)
  }

  predicate Cleared(w: World)
    requires Sane(w)
  {
    && w.mem[REQ] == 0 && |w.published| == |w.samples| + 1
    && Data(w.mem) == w.published[|w.samples|]
  }

  predicate Answered(w: World, served: Byte)
    requires Sane(w)
  {
    && Cleared(w)
    && if w.cpu.Looping? then w.mem[SERVED] != served else w.cpu.done == 14 && w.mem[SERVED] == served
  }

  predicate Inv(w: World) {
    && Sane(w) && StoredSoFar(w)
    && (forall i :: 0 <= i < |w.samples| ==>
        i < |w.published| && |w.samples[i]| == BLOCK && Data(w.samples[i]) == w.published[i])
    && HostInv(w)
  }

  predicate HostInv(w: World)
    requires Sane(w)
  {
    && (w.host.Between? || w.host.Before? || w.host.Ready? ==> Quiet(w))
    && (w.host.Before? && |w.host.read| > SERVED ==> w.host.read[SERVED] == w.mem[SERVED])
    && (w.host.Ready? ==> w.host.served == w.mem[SERVED])
    && (w.host.Polling? ==> PollInv(w, w.host.served, w.host.read))
    && (w.host.Gone? ==> Abandoned(w))
  }

  /** Once a poll has read REQ as zero, the answer it is reading is final. */
  predicate PollInv(w: World, served: Byte, blk: Bytes)
    requires Sane(w) && |blk| < BLOCK
  {
    && (Requested(w, served) || Answered(w, served))
    && (|blk| > 0 && blk[REQ] == 0 ==>
        && Answered(w, served)
        && (|blk| > 1 && blk[SERVED] != served ==> w.cpu.Looping? && blk[SERVED] == w.mem[SERVED])
        && forall j :: FIRST <= j < |blk| ==> blk[j] == w.mem[j])
  }

  /** After a timeout the request may still be answered, once. */
  predicate Abandoned(w: World)
    requires Sane(w)
  {
    if w.mem[REQ] == 1 then |w.published| == |w.samples| && (w.cpu.Looping? || w.cpu.done <= 13)
    else w.mem[REQ] == 0 && |w.published| == |w.samples| + 1 && (w.cpu.Looping? || w.cpu.done == 14)
  }

  /** After the last store the block holds the snapshot. */
  lemma AllStored(w: World)
    requires Sane(w) && StoredSoFar(w) && w.cpu.Publishing? && w.cpu.done >= 13
    ensures Data(w.mem) == w.cpu.snap
  {
    assert w.mem[STORES[0]] == w.cpu.snap[0] && w.mem[STORES[1]] == w.cpu.snap[1];
    assert w.mem[STORES[2]] == w.cpu.snap[2] && w.mem[STORES[3]] == w.cpu.snap[3];
    assert w.mem[STORES[4]] == w.cpu.snap[4] && w.mem[STORES[5]] == w.cpu.snap[5];
    assert w.mem[STORES[6]] == w.cpu.snap[6] && w.mem[STORES[7]] == w.cpu.snap[11];
    assert w.mem[STORES[8]] == w.cpu.snap[12] && w.mem[STORES[9]] == w.cpu.snap[10];
    assert w.mem[STORES[10]] == w.cpu.snap[9] && w.mem[STORES[11]] == w.cpu.snap[8];
    assert w.mem[STORES[12]] == w.cpu.snap[7];
  }

  /** The invariant spelled out, one consequence for each place the host can be. */
  lemma HostCases(w: World)
    requires Inv(w)
    ensures w.host.Between? || w.host.Before? || w.host.Ready? ==> Quiet(w)
    ensures w.host.Polling? ==> PollInv(w, w.host.served, w.host.read)
    ensures w.host.Polling? ==> Requested(w, w.host.served) || (Answered(w, w.host.served) && Cleared(w))
    ensures w.host.Gone? ==> Abandoned(w)
    ensures |w.samples| <= |w.published| <= |w.samples| + 1
  {
    assert HostInv(w);
    if w.host.Polling? {
      assert PollInv(w, w.host.served, w.host.read);
      assert Requested(w, w.host.served) || Answered(w, w.host.served);
    } else if w.host.Gone? {
      assert Abandoned(w);
    } else {
      assert Quiet(w);
    }
  }

  lemma StoreKeeps(w: World)
    requires Inv(w) && w.cpu.Publishing?
    ensures Inv(CpuStep(w))
  {
    HostCases(w);
    var k := w.cpu.done;
    var w' := CpuStep(w);
    if k < 13 {
      assert FIRST <= STORES[k] <= LAST;
      DistinctStores(k);
    } else if k == 13 {
      AllStored(w);
      assert Data(w'.mem) == Data(w.mem);
    } else {
      assert Data(w'.mem) == Data(w.mem);
    }
  }

  lemma DistinctStores(k: nat)
    requires k < 13
    ensures forall j :: 0 <= j < k ==> STORES[j] != STORES[k]
  {
  }

  lemma PollKeeps(w: World)
    requires Inv(w) && w.host.Polling?
    ensures Inv(PollStep(w))
  {
    HostCases(w);
    var blk := w.host.read + [w.mem[|w.host.read|]];
    if |blk| == BLOCK && Served(w.host.served, blk) {
      assert Data(blk) == Data(w.mem);
    }
  }

  lemma StepKeeps(w: World, s: Step)
    requires Inv(w)
    ensures Inv(Next(w, s))
  {
    HostCases(w);
    match s {
      case CpuPoll(snap) =>
      case CpuStore => if w.cpu.Publishing? { StoreKeeps(w); }
      case HostBegin =>
      case HostRead =>
      case HostRequest =>
      case HostPoll => if w.host.Polling? { PollKeeps(w); }
      case HostGiveUp =>
    }
  }

  function Initial(magic: Byte, data: Snapshot): World {
    World([0, 0] + data + [magic], Looping, Between, [], [])
  }

  function Run(w: World, steps: seq<Step>): World
    requires Inv(w)
    decreases |steps|
  {
    if steps == [] then w
    else
      StepKeeps(w, steps[0]);
      Run(Next(w, steps[0]), steps[1..])
  }

  lemma {:induction false} RunKeeps(w: World, steps: seq<Step>)
    requires Inv(w)
    ensures Inv(Run(w, steps))
    decreases |steps|
  {
    if steps != [] {
      StepKeeps(w, steps[0]);
      RunKeeps(Next(w, steps[0]), steps[1..]);
    }
  }

  lemma InitialInv(magic: Byte, data: Snapshot)
    ensures Inv(Initial(magic, data))
  {
  }

  // ------------------------------------------------------- what a sample says --

  /** SERVED counts the finished publications, and a sample shows its own number. */
  predicate Counted(w: World, magic: Byte)
    requires Sane(w)
  {
    && w.mem[15] == magic
    && w.mem[SERVED] == (|w.published| - (if w.cpu.Publishing? && w.cpu.done == 14 then 1 else 0)) % 256
    && forall i :: 0 <= i < |w.samples| ==>
        |w.samples[i]| == BLOCK && w.samples[i][REQ] == 0 && w.samples[i][SERVED] == (i + 1) % 256
        && w.samples[i][15] == magic
  }

  lemma CountKeeps(w: World, s: Step, magic: Byte)
    requires Inv(w) && Counted(w, magic)
    ensures Inv(Next(w, s)) && Counted(Next(w, s), magic)
  {
    StepKeeps(w, s);
    HostCases(w);
    hide Quiet, Requested, Abandoned, StoredSoFar;
    match s {
      case CpuStore =>
        if w.cpu.Publishing? { StoreCounts(w, magic); }
      case HostPoll =>
        if w.host.Polling? { PollCounts(w, magic); }
      case _ =>
    }
  }

  lemma StoreCounts(w: World, magic: Byte)
    requires Sane(w) && StoredSoFar(w) && w.cpu.Publishing? && Counted(w, magic)
    ensures Sane(CpuStep(w)) && Counted(CpuStep(w), magic)
  {
    if w.cpu.done < 13 {
      assert FIRST <= STORES[w.cpu.done] <= LAST;
    }
  }

  lemma PollCounts(w: World, magic: Byte)
    requires Inv(w) && w.host.Polling? && Counted(w, magic)
    ensures Sane(PollStep(w)) && Counted(PollStep(w), magic)
  {
    HostCases(w);
    var blk := w.host.read + [w.mem[|w.host.read|]];
    if |blk| == BLOCK && Served(w.host.served, blk) {
      assert w.cpu.Looping? && blk[SERVED] == w.mem[SERVED] && blk[15] == w.mem[15];
      assert |w.published| == |w.samples| + 1;
    }
  }

  lemma {:induction false} RunCounts(w: World, steps: seq<Step>, magic: Byte)
    requires Inv(w) && Counted(w, magic)
    ensures Inv(Run(w, steps)) && Counted(Run(w, steps), magic)
    decreases |steps|
  {
    hide Next, Counted;
    if steps != [] {
      CountKeeps(w, steps[0], magic);
      RunCounts(Next(w, steps[0]), steps[1..], magic);
    } else {
      RunKeeps(w, steps);
    }
  }

  /** Under every interleaving, the i-th sample that passes its exit test is
      exactly the i-th published snapshot: never a mixture, never a stale one. */
  lemma SamplesAreSnapshots(magic: Byte, data: Snapshot, steps: seq<Step>)
    ensures Inv(Initial(magic, data))
    ensures var w := Run(Initial(magic, data), steps);
      && |w.samples| <= |w.published| <= |w.samples| + 1
      && forall i :: 0 <= i < |w.samples| ==>
        |w.samples[i]| == BLOCK && Data(w.samples[i]) == w.published[i]
        && w.samples[i][REQ] == 0 && w.samples[i][SERVED] == (i + 1) % 256 && w.samples[i][15] == magic
  {
    InitialInv(magic, data);
    RunCounts(Initial(magic, data), steps, magic);
    RunKeeps(Initial(magic, data), steps);
    HostCases(Run(Initial(magic, data), steps));
  }

  // --------------------------------------------------------------- progress --

  lemma RunStep(w: World, s: Step, steps: seq<Step>)
    requires Inv(w)
    ensures Inv(Next(w, s)) && Run(w, [s] + steps) == Run(Next(w, s), steps)
  {
    StepKeeps(w, s);
    assert ([s] + steps)[1..] == steps;
  }

  lemma {:induction false} RunConcat(w: World, a: seq<Step>, b: seq<Step>)
    requires Inv(w)
    ensures Inv(Run(w, a)) && Run(w, a + b) == Run(Run(w, a), b)
    decreases |a|
  {
    hide Next, HostInv, StoredSoFar;
    if a == [] {
      assert a + b == b;
    } else {
      StepKeeps(w, a[0]);
      assert (a + b)[0] == a[0] && (a + b)[1..] == a[1..] + b;
      RunConcat(Next(w, a[0]), a[1..], b);
    }
  }

  lemma {:induction false} ReadsAll(w: World) returns (steps: seq<Step>)
    requires Inv(w) && w.host.Before?
    ensures Run(w, steps) == w.(host := Ready(w.mem[SERVED]))
    decreases BLOCK - |w.host.read|
  {
    StepKeeps(w, HostRead);
    assert HostInv(w);
    var next := Next(w, HostRead);
    var more: seq<Step> := [];
    if next.host.Before? {
      more := ReadsAll(next);
    } else {
      assert next.host.served == next.mem[SERVED];
    }
    RunStep(w, HostRead, more);
    return [HostRead] + more;
  }

  lemma {:induction false} StoresAll(w: World) returns (steps: seq<Step>)
    requires Inv(w) && w.cpu.Publishing? && (w.cpu.done == 14 ==> w.mem[REQ] == 0)
    ensures var e := Run(w, steps);
      && Inv(e) && e.cpu.Looping? && e.host == w.host && e.samples == w.samples && e.mem[REQ] == 0
      && e.mem[SERVED] == (w.mem[SERVED] as int + 1) % 256
      && e.published == w.published + (if w.cpu.done <= 13 then [w.cpu.snap] else [])
    decreases 15 - w.cpu.done
  {
    var k := w.cpu.done;
    StepKeeps(w, CpuStore);
    var next := Next(w, CpuStore);
    var more: seq<Step> := [];
    if k < 13 {
      assert FIRST <= STORES[k] <= LAST;
    }
    if k < 14 { more := StoresAll(next); }
    RunStep(w, CpuStore, more);
    RunKeeps(next, more);
    return [CpuStore] + more;
  }

  lemma {:induction false} PollsAll(w: World) returns (steps: seq<Step>)
    requires Inv(w) && w.host.Polling? && w.cpu.Looping? && w.mem[REQ] == 0 && w.mem[SERVED] != w.host.served
    requires w.host.read == w.mem[..|w.host.read|]
    ensures Run(w, steps) == w.(host := Between, samples := w.samples + [w.mem])
    decreases BLOCK - |w.host.read|
  {
    StepKeeps(w, HostPoll);
    var next := Next(w, HostPoll);
    var n := |w.host.read| + 1;
    assert w.host.read + [w.mem[n - 1]] == w.mem[..n];
    var more: seq<Step> := [];
    if n < BLOCK {
      more := PollsAll(next);
    } else {
      assert w.mem[..n] == w.mem;
    }
    RunStep(w, HostPoll, more);
    return [HostPoll] + more;
  }

  /** A request is always answerable: some schedule returns a sample of any snapshot
      the probe then takes. */
  lemma SampleComes(w: World, snap: Snapshot) returns (steps: seq<Step>)
    requires Inv(w) && w.host.Between?
    ensures var e := Run(w, steps);
      && e.host.Between? && e.published == w.published + [snap]
      && |e.samples| == |w.samples| + 1 && |e.samples[|w.samples|]| == BLOCK && Data(e.samples[|w.samples|]) == snap
  {
    HostCases(w);
    RunStep(w, HostBegin, []);
    var w1 := Next(w, HostBegin);
    var s1 := ReadsAll(w1);
    var w2 := w1.(host := Ready(w.mem[SERVED]));
    RunConcat(w1, s1, []);
    StepKeeps(w2, HostRequest);
    var w3 := Next(w2, HostRequest);
    StepKeeps(w3, CpuPoll(snap));
    var w4 := Next(w3, CpuPoll(snap));
    var s2 := StoresAll(w4);
    RunConcat(w4, s2, []);
    var w5 := Run(w4, s2);
    assert w5.mem[SERVED] != w5.host.served;
    var s3 := PollsAll(w5);
    steps := [HostBegin] + (s1 + ([HostRequest] + ([CpuPoll(snap)] + (s2 + s3))));
    RunStep(w, HostBegin, s1 + ([HostRequest] + ([CpuPoll(snap)] + (s2 + s3))));
    RunConcat(w1, s1, [HostRequest] + ([CpuPoll(snap)] + (s2 + s3)));
    RunStep(w2, HostRequest, [CpuPoll(snap)] + (s2 + s3));
    RunStep(w3, CpuPoll(snap), s2 + s3);
    RunConcat(w4, s2, s3);
    RunKeeps(w5, s3);
    var e := Run(w5, s3);
    assert Data(e.samples[|w.samples|]) == e.published[|w.samples|];
  }
}
