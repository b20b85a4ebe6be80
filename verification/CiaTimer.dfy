/** The CIA timer probe's arithmetic: the tear-free 16-bit read and the 32-bit
    accumulation by 8-bit additions with carry. */
module CiaTimer {
  import opened Bytes

  // ---------------------------------------------------------- tear-free read --

  /** Timer B, a free-running 16-bit down counter, `t` ticks after it held `c`. */
  function Counter(c: int, t: int): (v: nat)
    ensures v < 0x10000
  {
    (c - t) % 0x10000
  }

  function Hi(c: int, t: int): Byte { Counter(c, t) / 256 }
  function Lo(c: int, t: int): Byte { Counter(c, t) % 256 }

  /** What ip65 calls the time: the counter inverted, counting up. */
  function Ticks(c: int, t: int): (v: nat)
    ensures v < 0x10000
  {
    0xFFFF - Counter(c, t)
  }

  /** One pass of `readtb`: high byte, low byte, high byte again. */
  datatype Attempt = Attempt(first: nat, low: nat, again: nat)

  predicate InOrder(a: Attempt) {
    a.first <= a.low <= a.again
  }

  predicate Stable(c: int, a: Attempt) {
    Hi(c, a.first) == Hi(c, a.again)
  }

  lemma CounterSteps(c: int, t: int, d: nat)
    requires d <= 0xFFFF
    ensures Counter(c, t + d) ==
      if d <= Counter(c, t) then Counter(c, t) - d else Counter(c, t) - d + 0x10000
  {
    var q := (c - t) / 0x10000;
    assert c - t == q * 0x10000 + Counter(c, t);
    ModIs(c - (t + d), if d <= Counter(c, t) then q else q - 1);
  }

  lemma ModIs(x: int, q: int)
    requires 0 <= x - q * 0x10000 < 0x10000
    ensures x % 0x10000 == x - q * 0x10000
  {
  }

  /** The two bytes read are the counter as it stood at the low-byte read. */
  predicate ReadsTrue(c: int, a: Attempt) {
    256 * Hi(c, a.first) + Lo(c, a.low) == Counter(c, a.low)
  }

  /** A stable pass of at most 65,280 ticks cannot tear. */
  lemma TearFree(c: int, a: Attempt)
    requires InOrder(a) && Stable(c, a) && a.again - a.first <= 65280
    ensures ReadsTrue(c, a)
  {
    CounterSteps(c, a.first, a.low - a.first);
    CounterSteps(c, a.first, a.again - a.first);
  }

  /** One tick more can. */
  lemma TearsBeyond()
    ensures var a := Attempt(0, 1, 65281); InOrder(a) && Stable(0x0100, a) && !ReadsTrue(0x0100, a)
  {
    assert Counter(0x0100, 0) == 0x0100 && Counter(0x0100, 1) == 0xFF;
    ModIs(0x0100 - 65281, -1);
  }

  /** A bound on the length of a pass rules out tearing if and only if it is at
      most 65,280 ticks. */
  lemma TearFreeExactly(limit: nat)
    ensures (forall c: int, a: Attempt :: InOrder(a) && Stable(c, a) && a.again - a.first <= limit ==> ReadsTrue(c, a))
      <==> limit <= 65280
  {
    if limit <= 65280 {
      forall c: int, a: Attempt | InOrder(a) && Stable(c, a) && a.again - a.first <= limit
        ensures ReadsTrue(c, a)
      {
        TearFree(c, a);
      }
    } else {
      TearsBeyond();
    }
  }

  predicate Timely(schedule: seq<Attempt>) {
    forall i :: 0 <= i < |schedule| ==> InOrder(schedule[i]) && schedule[i].again - schedule[i].first <= 65280
  }

  predicate Settles(c: int, schedule: seq<Attempt>) {
    exists i :: 0 <= i < |schedule| && Stable(c, schedule[i])
  }

  /** The first stable pass reads its low byte at the instant `t`. */
  predicate ReadAt(c: int, schedule: seq<Attempt>, t: int) {
    exists i :: 0 <= i < |schedule| && FirstStable(c, schedule, i) && schedule[i].low == t
  }

  predicate FirstStable(c: int, schedule: seq<Attempt>, i: nat)
    requires i < |schedule|
  {
    Stable(c, schedule[i]) && forall j :: 0 <= j < i ==> !Stable(c, schedule[j])
  }

  /** `readtb`: repeat until the high byte is stable, then invert both bytes.
      `None` if the schedule ends before a pass is stable. */
  method ReadTb(c: int, schedule: seq<Attempt>) returns (r: Option<(Byte, Byte)>, ghost t: int)
    requires Timely(schedule)
    ensures r.Some? <==> Settles(c, schedule)
    ensures r.Some? ==> ReadAt(c, schedule, t) && FromU16Le(r.value.0, r.value.1) == Ticks(c, t)
  {
    t := 0;
    for at := 0 to |schedule|
      invariant forall i :: 0 <= i < at ==> !Stable(c, schedule[i])
    {
      var a := schedule[at];
      var x := Hi(c, a.first);
      var lo := Lo(c, a.low);
      if x == Hi(c, a.again) {
        TearFree(c, a);
        assert FirstStable(c, schedule, at);
        return Some((255 - lo, 255 - x)), a.low;
      }
    }
    return None, t;
  }

  // ------------------------------------------------------------- 6502 carry --

  datatype Sum = Sum(value: Byte, carry: nat)

  function Adc(a: Byte, m: Byte, carry: nat): (s: Sum)
    requires carry <= 1
    ensures s.carry <= 1 && s.value + 256 * s.carry == a + m + carry
  {
    var t: int := (a as int) + m + carry;
    Sum(t % 256, t / 256)
  }

  /** Subtract with carry: the carry out is clear when a borrow occurred. */
  function Sbc(a: Byte, m: Byte, carry: nat): (s: Sum)
    requires carry <= 1
    ensures s.carry <= 1 && s.value == a - m - (1 - carry) + 256 * (1 - s.carry)
  {
    var t: int := (a as int) - m - (1 - carry);
    if t >= 0 then Sum(t, 1) else Sum(t + 256, 0)
  }

  const TWO32 := 0x1_0000_0000
  const TWO24 := 0x100_0000

  function Elapsed16(prev: int, cur: int): nat {
    (cur - prev) % 0x10000
  }

  /** The probe's working memory. */
  class Probe {
    var acc0: Byte
    var acc1: Byte
    var acc2: Byte
    var acc3: Byte
    var loop0: Byte
    var loop1: Byte
    var loop2: Byte
    var prevLo: Byte
    var prevHi: Byte

    ghost function Acc(): nat
      reads this
    {
      acc0 as int + 0x100 * acc1 as int + 0x1_0000 * acc2 as int + 0x100_0000 * acc3 as int
    }

    ghost function Loops(): nat
      reads this
    {
      loop0 as int + 0x100 * loop1 as int + 0x1_0000 * loop2 as int
    }

    constructor (lo: Byte, hi: Byte)
      ensures Acc() == 0 && Loops() == 0 && prevLo == lo && prevHi == hi
    {
      acc0, acc1, acc2, acc3 := 0, 0, 0, 0;
      loop0, loop1, loop2 := 0, 0, 0;
      prevLo, prevHi := lo, hi;
    }

    /** `inc` on three bytes, each only when the one below wrapped to zero. */
    method CountLoop()
      modifies `loop0, `loop1, `loop2
      ensures Loops() == (old(Loops()) + 1) % TWO24
    {
      loop0 := if loop0 == 255 then 0 else loop0 + 1;
      if loop0 == 0 {
        loop1 := if loop1 == 255 then 0 else loop1 + 1;
        if loop1 == 0 {
          loop2 := if loop2 == 255 then 0 else loop2 + 1;
        }
      }
    }

    /** Add a 16-bit difference, low byte first, carrying through all four bytes. */
    method Accumulate(dlo: Byte, dhi: Byte)
      modifies `acc0, `acc1, `acc2, `acc3
      ensures Acc() == (old(Acc()) + FromU16Le(dlo, dhi)) % TWO32
    {
      var s0 := Adc(acc0, dlo, 0);
      var s1 := Adc(acc1, dhi, s0.carry);
      var s2 := Adc(acc2, 0, s1.carry);
      var s3 := Adc(acc3, 0, s2.carry);
      ghost var before := Acc();
      acc0, acc1, acc2, acc3 := s0.value, s1.value, s2.value, s3.value;
      AddIs(before, FromU16Le(dlo, dhi), Acc(), s3.carry);
    }

    /** One iteration of the main loop on a fresh reading of the timer. */
    method Iterate(curLo: Byte, curHi: Byte)
      modifies this
      ensures Acc() == (old(Acc()) + Elapsed16(FromU16Le(old(prevLo), old(prevHi)), FromU16Le(curLo, curHi))) % TWO32
      ensures Loops() == (old(Loops()) + 1) % TWO24
      ensures prevLo == curLo && prevHi == curHi
    {
      hide Elapsed16;
      CountLoop();
      var d0 := Sbc(curLo, prevLo, 1);
      var d1 := Sbc(curHi, prevHi, d0.carry);
      SubtractIs(curLo, curHi, prevLo, prevHi);
      Accumulate(d0.value, d1.value);
      prevLo, prevHi := curLo, curHi;
    }
  }

  lemma SubtractIs(curLo: Byte, curHi: Byte, prevLo: Byte, prevHi: Byte)
    ensures var d0 := Sbc(curLo, prevLo, 1); var d1 := Sbc(curHi, prevHi, d0.carry);
      FromU16Le(d0.value, d1.value) == Elapsed16(FromU16Le(prevLo, prevHi), FromU16Le(curLo, curHi))
  {
    var d0 := Sbc(curLo, prevLo, 1);
    var d1 := Sbc(curHi, prevHi, d0.carry);
    ModIs(FromU16Le(curLo, curHi) - FromU16Le(prevLo, prevHi), d1.carry - 1);
  }

  lemma AddIs(acc: nat, d: nat, out: nat, carry: nat)
    requires acc < TWO32 && d < 0x10000 && out < TWO32 && carry <= 1 && out + TWO32 * carry == acc + d
    ensures out == (acc + d) % TWO32
  {
  }

  // -------------------------------------------------------------- whole runs --

  /** The accumulator after sampling at the instants `ts`, the first of which
      only sets the starting point. */
  function AccAfter(c: int, ts: seq<int>): nat
    requires ts != []
  {
    if |ts| == 1 then 0
    else
      var n := |ts| - 1;
      (AccAfter(c, ts[..n]) + Elapsed16(Ticks(c, ts[n - 1]), Ticks(c, ts[n]))) % TWO32
  }

  lemma TicksAdvance(c: int, t: int, d: nat)
    ensures Elapsed16(Ticks(c, t), Ticks(c, t + d)) == d % 0x10000
  {
    var q0, q1 := (c - t) / 0x10000, (c - (t + d)) / 0x10000;
    assert Ticks(c, t + d) - Ticks(c, t) == d + 0x10000 * (q1 - q0);
  }

  predicate Ascending(ts: seq<int>) {
    forall i :: 1 <= i < |ts| ==> ts[i - 1] <= ts[i]
  }

  predicate Prompt(ts: seq<int>) {
    forall i :: 1 <= i < |ts| ==> ts[i] - ts[i - 1] < 0x10000
  }

  function SkippedTicks(ts: seq<int>): int
    requires Ascending(ts)
  {
    if |ts| <= 1 then 0
    else
      var n := |ts| - 1;
      SkippedTicks(ts[..n]) + (ts[n] - ts[n - 1]) / 0x10000 * 0x10000
  }

  /** The accumulator is the elapsed time mod 2^32 less the whole timer periods
      that passed unseen between two samples. */
  lemma {:induction false} AccCounts(c: int, ts: seq<int>)
    requires ts != [] && Ascending(ts)
    ensures AccAfter(c, ts) == (ts[|ts| - 1] - ts[0] - SkippedTicks(ts)) % TWO32
  {
    if |ts| > 1 {
      var n := |ts| - 1;
      AccCounts(c, ts[..n]);
      TicksAdvance(c, ts[n - 1], ts[n] - ts[n - 1]);
      var gap := ts[n] - ts[n - 1];
      var so := ts[n - 1] - ts[0] - SkippedTicks(ts[..n]);
      assert gap % 0x10000 == gap - gap / 0x10000 * 0x10000;
      AddMod(so, gap % 0x10000);
    }
  }

  lemma AddMod(x: int, y: int)
    ensures (x % TWO32 + y) % TWO32 == (x + y) % TWO32
  {
  }

  lemma {:induction false} NothingSkipped(ts: seq<int>)
    requires Ascending(ts) && Prompt(ts)
    ensures SkippedTicks(ts) == 0
  {
    if |ts| > 1 {
      NothingSkipped(ts[..|ts| - 1]);
    }
  }

  /** With every gap below one timer period, nothing is lost. */
  lemma AccIsElapsed(c: int, ts: seq<int>)
    requires ts != [] && Ascending(ts) && Prompt(ts)
    ensures AccAfter(c, ts) == (ts[|ts| - 1] - ts[0]) % TWO32
  {
    AccCounts(c, ts);
    NothingSkipped(ts);
  }

  lemma IncMod(n: nat)
    ensures (n % TWO24 + 1) % TWO24 == (n + 1) % TWO24
  {
  }

  predicate AllSettle(c: int, schedules: seq<seq<Attempt>>) {
    forall i :: 0 <= i < |schedules| ==> Settles(c, schedules[i])
  }

  /** The readings are those of the timer at the instants `ts`. */
  predicate ReadsAt(c: int, schedules: seq<seq<Attempt>>, ts: seq<int>) {
    |ts| == |schedules| && forall i :: 0 <= i < |ts| ==> ReadAt(c, schedules[i], ts[i])
  }

  /** The loop itself, reading the timer with `readtb` in every pass; the first
      reading only sets the starting point. `None` if some `readtb` never ends. */
  method SampleLoop(c: int, schedules: seq<seq<Attempt>>) returns (r: Option<Probe>, ghost ts: seq<int>)
    requires schedules != [] && forall i :: 0 <= i < |schedules| ==> Timely(schedules[i])
    ensures r.Some? <==> AllSettle(c, schedules)
    ensures r.Some? ==> fresh(r.value) && ReadsAt(c, schedules, ts)
    ensures r.Some? ==> r.value.Acc() == AccAfter(c, ts) && r.value.Loops() == (|ts| - 1) % TWO24
    ensures r.Some? ==> FromU16Le(r.value.prevLo, r.value.prevHi) == Ticks(c, ts[|ts| - 1])
    ensures r.Some? && Ascending(ts) && Prompt(ts) ==> r.value.Acc() == (ts[|ts| - 1] - ts[0]) % TWO32
  {
    hide Ticks, Elapsed16, FromU16Le, Timely, Settles, ReadAt, Ascending, Prompt;
    var first, t0 := ReadTb(c, schedules[0]);
    ts := [t0];
    if first.None? { return None, ts; }
    var probe := new Probe(first.value.0, first.value.1);
    for i := 1 to |schedules|
      invariant |ts| == i && fresh(probe)
      invariant forall j :: 0 <= j < i ==> ReadAt(c, schedules[j], ts[j]) && Settles(c, schedules[j])
      invariant probe.Acc() == AccAfter(c, ts) && probe.Loops() == (i - 1) % TWO24
      invariant FromU16Le(probe.prevLo, probe.prevHi) == Ticks(c, ts[i - 1])
    {
      var cur, t := ReadTb(c, schedules[i]);
      if cur.None? { return None, ts; }
      assert (ts + [t])[..i] == ts;
      ts := ts + [t];
      IncMod(i - 1);
      probe.Iterate(cur.value.0, cur.value.1);
    }
    if Ascending(ts) && Prompt(ts) { AccIsElapsed(c, ts); }
    return Some(probe), ts;
  }
}
